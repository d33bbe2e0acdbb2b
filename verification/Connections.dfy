/** Connection counts over many tunnels (Xvnc.cpp:140-165, XvncConnection.cpp:41-54,
    VncTunnel.cpp:49-59, 739-761). Tunnels run in threads of their own; each call of
    connect or disconnect is one step. */
module Connections {

  datatype Slot = Current | Potential

  /** Which connection objects exist, by the tunnel and the pointer that owns them,
      and each session's m_connectionCount. */
  datatype State = State(links: map<(int, Slot), int>, counts: map<int, int>)

  datatype Step =
    | NewSession(session: int)
    | Open(tunnel: int, slot: Slot, session: int) // XvncConnection's constructor
    | Close(tunnel: int, slot: Slot)              // its destructor
    | Promote(tunnel: int)                        // the potential connection becomes the current one

  ghost predicate Enabled(s: State, step: Step) {
    match step
    case NewSession(session) => session !in s.counts
    case Open(t, slot, session) =>
      (t, slot) !in s.links && session in s.counts && (slot.Potential? ==> (t, Current) in s.links)
    case Close(t, slot) => (t, slot) in s.links && s.links[(t, slot)] in s.counts
    case Promote(t) => (t, Potential) in s.links && (t, Current) !in s.links
  }

  function Next(s: State, step: Step): State
    requires Enabled(s, step)
  {
    match step
    case NewSession(session) => s.(counts := s.counts[session := 0])
    case Open(t, slot, session) =>
      State(s.links[(t, slot) := session], s.counts[session := s.counts[session] + 1])
    case Close(t, slot) =>
      var session := s.links[(t, slot)];
      State(s.links - {(t, slot)}, s.counts[session := s.counts[session] - 1])
    case Promote(t) =>
      State((s.links - {(t, Potential)})[(t, Current) := s.links[(t, Potential)]], s.counts)
  }

  /** The live connection objects that hold the session. */
  function Holders(s: State, session: int): set<(int, Slot)> {
    set k | k in s.links && s.links[k] == session
  }

  ghost predicate Conserved(s: State) {
    && (forall k :: k in s.links ==> s.links[k] in s.counts)
    && (forall session :: session in s.counts ==> s.counts[session] == |Holders(s, session)|)
  }

  const NOTHING := State(map[], map[])

  lemma OpenHolders(s: State, t: int, slot: Slot, target: int, session: int)
    requires Enabled(s, Step.Open(t, slot, target))
    ensures |Holders(Next(s, Step.Open(t, slot, target)), session)| ==
            |Holders(s, session)| + (if session == target then 1 else 0)
  {
    var s' := Next(s, Step.Open(t, slot, target));
    assert (t, slot) !in Holders(s, session);
    assert Holders(s', session) == if session == target then Holders(s, session) + {(t, slot)} else Holders(s, session);
  }

  lemma CloseHolders(s: State, t: int, slot: Slot, session: int)
    requires Enabled(s, Step.Close(t, slot))
    ensures |Holders(Next(s, Step.Close(t, slot)), session)| ==
            |Holders(s, session)| - (if session == s.links[(t, slot)] then 1 else 0)
  {
    var s' := Next(s, Step.Close(t, slot));
    assert Holders(s', session) == Holders(s, session) - {(t, slot)};
    assert (t, slot) in Holders(s, session) <==> session == s.links[(t, slot)];
  }

  lemma PromoteHolders(s: State, t: int, session: int)
    requires Enabled(s, Promote(t))
    ensures |Holders(Next(s, Promote(t)), session)| == |Holders(s, session)|
  {
    var s' := Next(s, Promote(t));
    if session == s.links[(t, Potential)] {
      assert (t, Potential) in Holders(s, session) && (t, Current) !in Holders(s, session);
      assert Holders(s', session) == Holders(s, session) - {(t, Potential)} + {(t, Current)};
    } else {
      assert Holders(s', session) == Holders(s, session);
    }
  }

  lemma StepConserves(s: State, step: Step)
    requires Conserved(s) && Enabled(s, step)
    ensures Conserved(Next(s, step))
    ensures step.Close? ==> s.counts[s.links[(step.tunnel, step.slot)]] > 0
  {
    var s' := Next(s, step);
    if step.Close? {
      assert (step.tunnel, step.slot) in Holders(s, s.links[(step.tunnel, step.slot)]);
    }
    hide Holders;
    forall session | session in s'.counts
      ensures s'.counts[session] == |Holders(s', session)|
    {
      match step
      case NewSession(_) => NewHolders(s, step, session);
      case Open(t, slot, target) => OpenHolders(s, t, slot, target, session);
      case Close(t, slot) => CloseHolders(s, t, slot, session);
      case Promote(t) => PromoteHolders(s, t, session);
    }
  }

  lemma NewHolders(s: State, step: Step, session: int)
    requires Conserved(s) && step.NewSession? && Enabled(s, step)
    ensures Holders(Next(s, step), session) == Holders(s, session)
    ensures session == step.session ==> Holders(s, session) == {}
  {
  }

  ghost predicate IsRun(states: seq<State>, steps: seq<Step>) {
    && |states| == |steps| + 1 && states[0] == NOTHING
    && forall k :: 0 <= k < |steps| ==> Enabled(states[k], steps[k]) && states[k + 1] == Next(states[k], steps[k])
  }

  lemma {:induction false} RunConserves(states: seq<State>, steps: seq<Step>, k: nat)
    requires IsRun(states, steps) && k < |states|
    ensures Conserved(states[k])
  {
    if k > 0 {
      RunConserves(states, steps, k - 1);
      assert Enabled(states[k - 1], steps[k - 1]) && states[k] == Next(states[k - 1], steps[k - 1]);
      StepConserves(states[k - 1], steps[k - 1]);
    }
  }

  /** Over every interleaving of every number of tunnels a session's count is the
      number of live connections to it; so disconnect never finds it zero, and once
      no connection is left every count is zero. */
  lemma CountsAreExact(states: seq<State>, steps: seq<Step>, k: nat)
    requires IsRun(states, steps) && k < |states|
    ensures forall session :: session in states[k].counts ==> states[k].counts[session] == |Holders(states[k], session)|
    ensures k < |steps| && steps[k].Close? ==> states[k].counts[states[k].links[(steps[k].tunnel, steps[k].slot)]] > 0
    ensures states[k].links == map[] ==> forall session :: session in states[k].counts ==> states[k].counts[session] == 0
  {
    RunConserves(states, steps, k);
    if k < |steps| {
      assert Enabled(states[k], steps[k]);
      StepConserves(states[k], steps[k]);
    }
    if states[k].links == map[] {
      forall session | session in states[k].counts ensures states[k].counts[session] == 0 {
        assert Holders(states[k], session) == {};
      }
    }
  }
}
