/** Controllers and the keys that let them control a session
    (ControllerConnection.cpp:66-124, Xvnc.cpp:97-127, 342-347). A session's Xvnc
    approves a key by taking the key prefix and the key as its desktop name. */
module Controllers {
  import opened Bytes
  import opened Desktop

  const APPROVAL_TRIES := 100

  /** The retry loop of initialize: polled[i] is the set of approved keys that the
      i-th poll, 100 milliseconds after the one before, finds. */
  method AwaitApproval(key: bytes, polled: seq<set<bytes>>) returns (approved: bool, tries: nat)
    requires |polled| == APPROVAL_TRIES + 1
    ensures tries <= APPROVAL_TRIES
    ensures approved <==> exists i :: 0 <= i < |polled| && key in polled[i]
    ensures approved ==> key in polled[tries] && forall i :: 0 <= i < tries ==> key !in polled[i]
    ensures !approved ==> tries == APPROVAL_TRIES
  {
    tries := 0;
    while true
      invariant tries <= APPROVAL_TRIES
      invariant forall i :: 0 <= i < tries ==> key !in polled[i]
      decreases APPROVAL_TRIES - tries
    {
      if key in polled[tries] {
        return true, tries;
      }
      if tries == APPROVAL_TRIES {
        return false, tries;
      }
      tries := tries + 1;
    }
  }

  // ---------------------------------------------------------------- runs

  datatype Session = Session(display: int, desktop: Desktop, username: bytes, visible: bool)

  /** How far a controller's thread is. */
  datatype Controller =
    | Connecting
    | Attached(session: int)
    | Waiting(session: int, key: bytes, tries: nat)
    | Approved(session: int, key: bytes)
    | Disconnected

  /** `presented` records which key was ever presented for which session. */
  datatype State = State(sessions: map<int, Session>, controllers: map<int, Controller>, presented: set<(int, bytes)>)

  datatype Step =
    | NewSession(id: int, display: int)
    | Named(id: int, name: bytes)         // ServerInit or a DesktopName rectangle of any tunnel
    | Accept(controller: int)
    | Choose(controller: int, display: int)
    | Present(controller: int, key: bytes)
    | Poll(controller: int, username: bytes)
    | SetVisible(controller: int, yes: bool)
    | Close(controller: int)
    | Destroyed(id: int)                  // the destructor hides the session

  /** getSessionByDisplayNumber: the smallest identifier on the display. */
  ghost predicate FoundAt(s: State, display: int, id: int) {
    && id in s.sessions && s.sessions[id].display == display
    && forall i :: i in s.sessions && s.sessions[i].display == display ==> id <= i
  }

  ghost predicate Enabled(s: State, step: Step) {
    match step
    case NewSession(id, _) => id !in s.sessions
    case Named(id, name) => id in s.sessions && |name| < 0x1_0000_0000
    case Accept(c) => c !in s.controllers
    case Choose(c, _) => c in s.controllers && s.controllers[c].Connecting?
    case Present(c, _) => c in s.controllers && s.controllers[c].Attached?
    case Poll(c, _) => c in s.controllers && s.controllers[c].Waiting? && s.controllers[c].session in s.sessions
    case SetVisible(c, _) => c in s.controllers && s.controllers[c].Approved? && s.controllers[c].session in s.sessions
    case Close(c) => c in s.controllers
    case Destroyed(id) => id in s.sessions
  }

  ghost function Next(s: State, step: Step): State
    requires Enabled(s, step)
  {
    match step
    case NewSession(id, display) =>
      s.(sessions := s.sessions[id := Session(display, Desktop([], {}), [], false)])
    case Named(id, name) =>
      s.(sessions := s.sessions[id := s.sessions[id].(desktop := SetName(s.sessions[id].desktop, name))])
    case Accept(c) => s.(controllers := s.controllers[c := Connecting])
    case Choose(c, display) =>
      s.(controllers := s.controllers[c :=
        if id :| FoundAt(s, display, id) then Attached(id) else Disconnected])
    case Present(c, key) =>
      var id := s.controllers[c].session;
      s.(controllers := s.controllers[c := Waiting(id, key, 0)], presented := s.presented + {(id, key)})
    case Poll(c, username) =>
      var w := s.controllers[c];
      if w.key in s.sessions[w.session].desktop.approvedKeys then
        s.(controllers := s.controllers[c := Approved(w.session, w.key)],
           sessions := s.sessions[w.session := s.sessions[w.session].(username := username)])
      else if w.tries == APPROVAL_TRIES then s.(controllers := s.controllers[c := Disconnected])
      else s.(controllers := s.controllers[c := Waiting(w.session, w.key, w.tries + 1)])
    case SetVisible(c, yes) =>
      var id := s.controllers[c].session;
      s.(sessions := s.sessions[id := s.sessions[id].(visible := yes)])
    case Close(c) => s.(controllers := s.controllers[c := Disconnected])
    case Destroyed(id) => s.(sessions := s.sessions[id := s.sessions[id].(visible := false)])
  }

  /** The controller showed this key for this session, and the session approved it. */
  ghost predicate Vouched(s: State, id: int, key: bytes) {
    id in s.sessions && (id, key) in s.presented && key in s.sessions[id].desktop.approvedKeys
  }

  ghost predicate SomeKeyVouched(s: State, id: int) {
    exists key :: Vouched(s, id, key)
  }

  ghost predicate Inv(s: State) {
    && (forall id :: id in s.sessions ==> s.sessions[id].desktop.Valid())
    && (forall c :: c in s.controllers && s.controllers[c].Waiting? ==>
          (s.controllers[c].session, s.controllers[c].key) in s.presented)
    && (forall c :: c in s.controllers && s.controllers[c].Approved? ==>
          Vouched(s, s.controllers[c].session, s.controllers[c].key))
    && (forall id :: id in s.sessions && s.sessions[id].visible ==> SomeKeyVouched(s, id))
  }

  /** Sessions stay, and their approved keys only grow. */
  ghost predicate KeysGrow(s: State, s': State) {
    && s.presented <= s'.presented
    && forall id :: id in s.sessions ==>
         id in s'.sessions && s.sessions[id].desktop.approvedKeys <= s'.sessions[id].desktop.approvedKeys
  }

  lemma StepGrows(s: State, step: Step)
    requires Enabled(s, step)
    ensures KeysGrow(s, Next(s, step))
  {
  }

  lemma VouchedStays(s: State, s': State, id: int, key: bytes)
    requires KeysGrow(s, s') && Vouched(s, id, key)
    ensures Vouched(s', id, key)
  {
  }

  lemma VisibleStaysVouched(s: State, step: Step, id: int)
    requires Inv(s) && Enabled(s, step)
    requires id in Next(s, step).sessions && Next(s, step).sessions[id].visible
    ensures SomeKeyVouched(Next(s, step), id)
  {
    var s' := Next(s, step);
    StepGrows(s, step);
    if step.SetVisible? && s.controllers[step.controller].session == id {
      VouchedStays(s, s', id, s.controllers[step.controller].key);
    } else {
      assert id in s.sessions && s.sessions[id].visible;
      var key :| Vouched(s, id, key);
      VouchedStays(s, s', id, key);
    }
  }

  lemma StepKeeps(s: State, step: Step)
    requires Inv(s) && Enabled(s, step)
    ensures Inv(Next(s, step))
  {
    var s' := Next(s, step);
    hide FoundAt, SomeKeyVouched;
    StepGrows(s, step);
    forall id | id in s'.sessions && s'.sessions[id].visible ensures SomeKeyVouched(s', id) {
      VisibleStaysVouched(s, step, id);
    }
  }

  ghost predicate IsRun(states: seq<State>, steps: seq<Step>) {
    && |states| == |steps| + 1 && states[0] == State(map[], map[], {})
    && forall k :: 0 <= k < |steps| ==> Enabled(states[k], steps[k]) && states[k + 1] == Next(states[k], steps[k])
  }

  lemma {:induction false} RunKeeps(states: seq<State>, steps: seq<Step>, k: nat)
    requires IsRun(states, steps) && k < |states|
    ensures Inv(states[k])
  {
    hide Inv, Next, Enabled;
    if k == 0 {
      NothingYet();
    } else {
      RunKeeps(states, steps, k - 1);
      assert Enabled(states[k - 1], steps[k - 1]) && states[k] == Next(states[k - 1], steps[k - 1]);
      StepKeeps(states[k - 1], steps[k - 1]);
    }
  }

  lemma NothingYet()
    ensures Inv(State(map[], map[], {}))
  {
  }

  lemma {:induction false} RunGrows(states: seq<State>, steps: seq<Step>, j: nat, k: nat)
    requires IsRun(states, steps) && j <= k < |states|
    ensures KeysGrow(states[j], states[k])
  {
    hide Next, Enabled;
    if j < k {
      RunGrows(states, steps, j, k - 1);
      assert Enabled(states[k - 1], steps[k - 1]) && states[k] == Next(states[k - 1], steps[k - 1]);
      StepGrows(states[k - 1], steps[k - 1]);
    }
  }

  /** Over every run: no stored desktop name starts with the key prefix, approved
      keys are never withdrawn, a controller commands only sessions that approved
      the key it presented, and a session is visible only if one of its approved
      keys was presented for it. */
  lemma KeysGuardSessions(states: seq<State>, steps: seq<Step>, j: nat, k: nat)
    requires IsRun(states, steps) && j <= k < |states|
    ensures forall id :: id in states[k].sessions ==> !(KEY_PREFIX <= states[k].sessions[id].desktop.name)
    ensures KeysGrow(states[j], states[k])
    ensures k < |steps| && steps[k].SetVisible? ==>
              var c := states[k].controllers[steps[k].controller];
              Vouched(states[k], c.session, c.key)
    ensures forall id :: id in states[k].sessions && states[k].sessions[id].visible ==> SomeKeyVouched(states[k], id)
  {
    RunKeeps(states, steps, k);
    RunGrows(states, steps, j, k);
    if k < |steps| {
      assert Enabled(states[k], steps[k]);
    }
  }

  // ---------------------------------------------------------------- who gets in

  /** The session's Xvnc took the key, behind the prefix, as its name in the first k
      steps. */
  ghost predicate KeyNamed(steps: seq<Step>, k: nat, id: int, key: bytes)
    requires k <= |steps|
  {
    exists j :: 0 <= j < k && steps[j] == Named(id, KEY_PREFIX + key)
  }

  /** One step approves the key exactly if it names the session so. */
  lemma ApprovalStep(s: State, step: Step, id: int, key: bytes)
    requires Enabled(s, step)
    ensures id in s.sessions ==>
              id in Next(s, step).sessions
              && (key in Next(s, step).sessions[id].desktop.approvedKeys <==>
                    key in s.sessions[id].desktop.approvedKeys || step == Named(id, KEY_PREFIX + key))
    ensures id !in s.sessions ==> step != Named(id, KEY_PREFIX + key)
    ensures id !in s.sessions && id in Next(s, step).sessions ==> Next(s, step).sessions[id].desktop.approvedKeys == {}
  {
    hide FoundAt;
    if step.Named? && step.id == id {
      if KEY_PREFIX <= step.name {
        var behind := step.name[|KEY_PREFIX|..];
        assert step.name == KEY_PREFIX + behind;
        assert (KEY_PREFIX + key)[|KEY_PREFIX|..] == key;
        KeyApproved(s.sessions[id].desktop, behind);
      } else {
        NameStored(s.sessions[id].desktop, step.name);
        assert KEY_PREFIX <= KEY_PREFIX + key;
      }
    }
  }

  /** In every state of every run the approved keys of a session are exactly those
      its Xvnc named behind the prefix. */
  lemma {:induction false} ApprovedExactly(states: seq<State>, steps: seq<Step>, k: nat, id: int, key: bytes)
    requires IsRun(states, steps) && k < |states|
    ensures id in states[k].sessions ==>
              (key in states[k].sessions[id].desktop.approvedKeys <==> KeyNamed(steps, k, id, key))
    ensures id !in states[k].sessions ==> !KeyNamed(steps, k, id, key)
  {
    hide Next, Enabled;
    if k > 0 {
      ApprovedExactly(states, steps, k - 1, id, key);
      assert Enabled(states[k - 1], steps[k - 1]) && states[k] == Next(states[k - 1], steps[k - 1]);
      ApprovalStep(states[k - 1], steps[k - 1], id, key);
      assert KeyNamed(steps, k, id, key) <==> KeyNamed(steps, k - 1, id, key) || steps[k - 1] == Named(id, KEY_PREFIX + key);
    }
  }

  /** A poll lets a controller in if and only if the session's Xvnc named the key it
      presented, behind the prefix, at some earlier step; it is turned away at the
      101st poll that finds nothing, and otherwise waits on. Who gets in gives the
      session its user name. */
  lemma PollDecides(states: seq<State>, steps: seq<Step>, k: nat)
    requires IsRun(states, steps) && k < |steps| && steps[k].Poll?
    ensures
      var c := steps[k].controller;
      && c in states[k].controllers && states[k].controllers[c].Waiting? && c in states[k + 1].controllers
      && var w, next := states[k].controllers[c], states[k + 1].controllers[c];
         && w.session in states[k + 1].sessions
         && (next == Approved(w.session, w.key) <==> KeyNamed(steps, k, w.session, w.key))
         && (next == Disconnected <==> !KeyNamed(steps, k, w.session, w.key) && w.tries == 100)
         && (next == Waiting(w.session, w.key, w.tries + 1) <==> !KeyNamed(steps, k, w.session, w.key) && w.tries != 100)
         && (next.Approved? ==> states[k + 1].sessions[w.session].username == steps[k].username)
  {
    assert Enabled(states[k], steps[k]) && states[k + 1] == Next(states[k], steps[k]);
    var w := states[k].controllers[steps[k].controller];
    ApprovedExactly(states, steps, k, w.session, w.key);
  }

  /** A controller that names a display is attached to the first session on it, or
      turned away if there is none; an approved one shows or hides its own session and
      no other. */
  lemma CommandsObeyed(s: State, step: Step)
    requires Enabled(s, step)
    ensures step.Choose? ==>
              var c, next := Next(s, step).controllers, Next(s, step);
              && step.controller in c && next.sessions == s.sessions
              && (c[step.controller].Attached? || c[step.controller].Disconnected?)
              && (forall id :: c[step.controller] == Attached(id) <==>
                    && id in s.sessions && s.sessions[id].display == step.display
                    && forall i :: i in s.sessions && i < id ==> s.sessions[i].display != step.display)
    ensures step.Present? ==>
              && Next(s, step).sessions == s.sessions && s.controllers[step.controller].Attached?
              && Next(s, step).controllers[step.controller] == Waiting(s.controllers[step.controller].session, step.key, 0)
    ensures step.SetVisible? ==>
              var mine := s.controllers[step.controller].session;
              forall id :: id in s.sessions ==>
                && id in Next(s, step).sessions
                && Next(s, step).sessions[id] == s.sessions[id].(visible := if id == mine then step.yes else s.sessions[id].visible)
    ensures step.Destroyed? ==>
              forall id :: id in s.sessions ==>
                && id in Next(s, step).sessions
                && Next(s, step).sessions[id] == s.sessions[id].(visible := id != step.id && s.sessions[id].visible)
    ensures step.Close? ==> Next(s, step).controllers[step.controller] == Disconnected && Next(s, step).sessions == s.sessions
  {
    if step.Choose? {
      forall a, b | FoundAt(s, step.display, a) && FoundAt(s, step.display, b) ensures a == b {
      }
      forall id
        ensures FoundAt(s, step.display, id) <==>
                && id in s.sessions && s.sessions[id].display == step.display
                && forall i :: i in s.sessions && i < id ==> s.sessions[i].display != step.display
      {
      }
    }
  }
}
