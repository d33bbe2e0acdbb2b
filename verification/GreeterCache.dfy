/** The session list and its cached copies under interference (Xvnc.cpp:86-138,
    XvncManager.cpp:34-103, GreeterConnection.cpp:121-180). Any number of threads
    run setters, each of them a comparison, a store and a version bump that other
    threads may come between; any number of greeters read the version, copy the
    map, and then read the sessions field by field. The sessions' own locks only
    take interleavings away, so they are not needed here. */
module GreeterCache {
  import opened Bytes

  datatype Session = Session(visible: bool, username: bytes, name: bytes, dying: bool)

  datatype Change = Visible(on: bool) | Username(username: bytes) | Name(name: bytes)

  /** A thread inside markVisible, setSessionUsername or setDesktopName. */
  datatype Writer =
    | Entered(id: int, change: Change)
    | Different(id: int, change: Change)  // compared, about to store
    | Stored(id: int)                     // about to notify the manager

  datatype Entry = Entry(username: bytes, name: bytes)

  datatype Phase =
    | Idle
    | VersionRead                                   // about to copy the map
    | Listing(copied: set<int>, remaining: set<int>) // between two sessions
    | SawVisible(copied: set<int>, remaining: set<int>, id: int)
    | SawUsername(copied: set<int>, remaining: set<int>, id: int, username: bytes)

  /** m_lastSentSessionListVersion and the list written since the last "SESSIONS". */
  datatype Greeter = Greeter(lastSent: int, sent: map<int, Entry>, phase: Phase)

  datatype State = State(
    sessions: map<int, Session>,  // all Xvnc objects not yet freed
    managed: set<int>,            // XvncManager::m_xvncs
    nextId: int,
    version: int,
    writers: map<int, Writer>,
    greeters: map<int, Greeter>)

  // ---------------------------------------------------------------- steps

  predicate Matches(s: Session, c: Change) {
    match c
    case Visible(on) => s.visible == on
    case Username(username) => s.username == username
    case Name(name) => s.name == name
  }

  function Changed(s: Session, c: Change): Session {
    match c
    case Visible(on) => s.(visible := on)
    case Username(username) => s.(username := username)
    case Name(name) => s.(name := name)
  }

  datatype Step =
    | Create
    | ChildDied(id: int)
    | Enter(thread: int, id: int, change: Change)
    | Release(thread: int, id: int)   // the last reference goes: the destructor hides the session
    | Compare(thread: int)
    | Store(thread: int)
    | Notify(thread: int)
    | Free(id: int)
    | NewGreeter(greeter: int)
    | ReadVersion(greeter: int)
    | CopyMap(greeter: int)
    | ReadVisible(greeter: int, next: int)
    | ReadUsername(greeter: int)
    | ReadName(greeter: int)
    | Finish(greeter: int)

  predicate Busy(s: State, id: int) {
    exists t :: t in s.writers && s.writers[t].id == id
  }

  /** A greeter that is going through its copy holds every session in it. */
  predicate HeldByGreeter(s: State, id: int) {
    exists g :: g in s.greeters && Copied(s.greeters[g].phase, id)
  }

  predicate Copied(p: Phase, id: int) {
    match p
    case Idle => false
    case VersionRead => false
    case _ => id in p.copied
  }

  ghost predicate Enabled(s: State, step: Step) {
    match step
    case Create => true
    case ChildDied(id) => id in s.managed
    case Enter(t, id, _) => t !in s.writers && id in s.sessions && !s.sessions[id].dying
    case Release(t, id) =>
      t !in s.writers && id in s.sessions && id !in s.managed && !s.sessions[id].dying && !Busy(s, id) && !HeldByGreeter(s, id)
    case Compare(t) => t in s.writers && s.writers[t].Entered? && s.writers[t].id in s.sessions
    case Store(t) => t in s.writers && s.writers[t].Different? && s.writers[t].id in s.sessions
    case Notify(t) => t in s.writers && s.writers[t].Stored?
    case Free(id) => id in s.sessions && s.sessions[id].dying && !Busy(s, id)
    case NewGreeter(g) => g !in s.greeters
    case ReadVersion(g) => g in s.greeters && s.greeters[g].phase.Idle?
    case CopyMap(g) => g in s.greeters && s.greeters[g].phase.VersionRead?
    case ReadVisible(g, next) =>
      g in s.greeters && s.greeters[g].phase.Listing? && next in s.greeters[g].phase.remaining && next in s.sessions
    case ReadUsername(g) => g in s.greeters && s.greeters[g].phase.SawVisible? && s.greeters[g].phase.id in s.sessions
    case ReadName(g) => g in s.greeters && s.greeters[g].phase.SawUsername? && s.greeters[g].phase.id in s.sessions
    case Finish(g) => g in s.greeters && s.greeters[g].phase.Listing? && s.greeters[g].phase.remaining == {}
  }

  function Advance(s: State, g: int, to: Greeter): State {
    s.(greeters := s.greeters[g := to])
  }

  ghost function Next(s: State, step: Step): State
    requires Enabled(s, step)
  {
    match step
    case Create =>
      s.(sessions := s.sessions[s.nextId := Session(false, [], [], false)],
         managed := s.managed + {s.nextId}, nextId := s.nextId + 1)
    case ChildDied(id) => s.(managed := s.managed - {id})
    case Enter(t, id, change) => s.(writers := s.writers[t := Entered(id, change)])
    case Release(t, id) =>
      s.(sessions := s.sessions[id := s.sessions[id].(dying := true)],
         writers := s.writers[t := Entered(id, Visible(false))])
    case Compare(t) =>
      var w := s.writers[t];
      if Matches(s.sessions[w.id], w.change) then s.(writers := s.writers - {t})
      else s.(writers := s.writers[t := Different(w.id, w.change)])
    case Store(t) =>
      var w := s.writers[t];
      s.(sessions := s.sessions[w.id := Changed(s.sessions[w.id], w.change)],
         writers := s.writers[t := Stored(w.id)])
    case Notify(t) => s.(version := s.version + 1, writers := s.writers - {t})
    case Free(id) => s.(sessions := s.sessions - {id})
    case NewGreeter(g) => Advance(s, g, Greeter(0, map[], Idle))
    case ReadVersion(g) =>
      var old' := s.greeters[g];
      if old'.lastSent < s.version then Advance(s, g, old'.(lastSent := s.version, phase := VersionRead)) else s
    case CopyMap(g) =>
      Advance(s, g, s.greeters[g].(sent := map[], phase := Listing(s.managed, s.managed)))
    case ReadVisible(g, next) =>
      var now := s.greeters[g];
      var rest := now.phase.remaining - {next};
      Advance(s, g, now.(phase :=
        if s.sessions[next].visible then SawVisible(now.phase.copied, rest, next) else Listing(now.phase.copied, rest)))
    case ReadUsername(g) =>
      var now := s.greeters[g];
      Advance(s, g, now.(phase :=
        SawUsername(now.phase.copied, now.phase.remaining, now.phase.id, s.sessions[now.phase.id].username)))
    case ReadName(g) =>
      var now := s.greeters[g];
      var id := now.phase.id;
      Advance(s, g, now.(sent := now.sent[id := Entry(now.phase.username, s.sessions[id].name)],
        phase := Listing(now.phase.copied, now.phase.remaining)))
    case Finish(g) => Advance(s, g, s.greeters[g].(phase := Idle))
  }

  // ---------------------------------------------------------------- the invariant

  const INITIAL := State(map[], {}, 0, 0, map[], map[])

  /** No thread is between its store and its bump. */
  ghost predicate Quiet(s: State) {
    forall t :: t in s.writers ==> !s.writers[t].Stored?
  }

  /** The entry shows a visible session as it is now. */
  ghost predicate Current(s: State, id: int, e: Entry) {
    id in s.sessions && s.sessions[id].visible && e == Entry(s.sessions[id].username, s.sessions[id].name)
  }

  /** Every managed visible session is listed as it is now, and every listed session
      is still visible as listed. */
  ghost predicate Coherent(s: State, sent: map<int, Entry>) {
    && (forall id :: id in s.managed && id in s.sessions && s.sessions[id].visible ==> id in sent)
    && (forall id :: id in sent ==> Current(s, id, sent[id]))
  }

  /** How far a list in the making is coherent. */
  ghost predicate SoFar(s: State, g: Greeter) {
    match g.phase
    case Idle => Coherent(s, g.sent)
    case VersionRead => true
    case Listing(copied, remaining) => Partial(s, g.sent, copied, remaining)
    case SawVisible(copied, remaining, id) =>
      id in s.sessions && s.sessions[id].visible && Partial(s, g.sent, copied, remaining + {id})
    case SawUsername(copied, remaining, id, username) =>
      && id in s.sessions && s.sessions[id].visible && username == s.sessions[id].username
      && Partial(s, g.sent, copied, remaining + {id})
  }

  ghost predicate Partial(s: State, sent: map<int, Entry>, copied: set<int>, remaining: set<int>) {
    && (forall id :: id in s.managed && id in s.sessions && s.sessions[id].visible ==> id in copied)
    && (forall id :: id in copied && id !in remaining && id in s.sessions && s.sessions[id].visible ==> id in sent)
    && (forall id :: id in sent ==> Current(s, id, sent[id]))
  }

  ghost predicate GreeterInv(s: State, g: Greeter) {
    && g.lastSent <= s.version
    && (g.phase.Listing? || g.phase.SawVisible? || g.phase.SawUsername? ==>
          && g.phase.copied <= s.sessions.Keys && g.phase.remaining <= g.phase.copied)
    && (g.phase.SawVisible? || g.phase.SawUsername? ==> g.phase.id in g.phase.copied)
    && (forall id :: id in s.sessions && s.sessions[id].dying ==> !Copied(g.phase, id))
    && (Quiet(s) && g.lastSent == s.version ==> SoFar(s, g))
  }

  ghost predicate SessionInv(s: State) {
    && s.managed <= s.sessions.Keys
    && (forall id :: id in s.sessions ==> 0 <= id < s.nextId)
    && (forall id :: id in s.managed ==> !s.sessions[id].dying)
    && (forall t :: t in s.writers && !s.writers[t].Stored? ==> s.writers[t].id in s.sessions)
    && 0 <= s.version && 0 <= s.nextId
    // A dying session stays visible only until its destructor has stored.
    && (forall id :: id in s.sessions && s.sessions[id].dying && s.sessions[id].visible ==> Hiding(s, id))
    // Before the first bump nothing has become visible.
    && (s.version == 0 && Quiet(s) ==> forall id :: id in s.sessions ==> !s.sessions[id].visible)
  }

  /** The destructor is running on the session and has not hidden it yet. */
  ghost predicate Hiding(s: State, id: int) {
    exists t :: t in s.writers && !s.writers[t].Stored? && s.writers[t].id == id && s.writers[t].change == Visible(false)
  }

  ghost predicate OnlyHiding(s: State) {
    forall t :: t in s.writers && !s.writers[t].Stored? && s.writers[t].id in s.sessions && s.sessions[s.writers[t].id].dying ==>
      s.writers[t].change == Visible(false)
  }

  ghost predicate Inv(s: State) {
    && SessionInv(s)
    && OnlyHiding(s)
    && forall g :: g in s.greeters ==> GreeterInv(s, s.greeters[g])
  }

  // ---------------------------------------------------------------- preservation

  lemma SessionsKept(s: State, step: Step)
    requires Inv(s) && Enabled(s, step)
    ensures SessionInv(Next(s, step)) && OnlyHiding(Next(s, step))
  {
    var s' := Next(s, step);
    hide GreeterInv, Copied, HeldByGreeter;
    match step {
      case Store(t) =>
        assert !Quiet(s') by {
          assert s'.writers[t].Stored?;
        }
        HidingKept(s, step);
      case _ =>
        if !step.Notify? {
          StaysStored(s, step);
        }
        HidingKept(s, step);
    }
  }

  lemma StaysStored(s: State, step: Step)
    requires Enabled(s, step) && !step.Notify?
    ensures !Quiet(s) ==> !Quiet(Next(s, step))
  {
    if t :| t in s.writers && s.writers[t].Stored? {
      assert t in Next(s, step).writers && Next(s, step).writers[t].Stored?;
    }
  }

  lemma HidingKept(s: State, step: Step)
    requires Inv(s) && Enabled(s, step)
    ensures
      var s' := Next(s, step);
      forall id :: id in s'.sessions && s'.sessions[id].dying && s'.sessions[id].visible ==> Hiding(s', id)
  {
    hide GreeterInv, Quiet, HeldByGreeter;
    var s' := Next(s, step);
    forall id | id in s'.sessions && s'.sessions[id].dying && s'.sessions[id].visible
      ensures Hiding(s', id)
    {
      if step.Release? && step.id == id {
        assert s'.writers[step.thread].id == id;
      } else {
        assert id in s.sessions && s.sessions[id].dying;
        assert step.Store? ==> s.writers[step.thread].id != id;
        var t :| t in s.writers && !s.writers[t].Stored? && s.writers[t].id == id && s.writers[t].change == Visible(false);
        assert step.Compare? && step.thread == t ==> !Matches(s.sessions[id], Visible(false));
        assert t in s'.writers && s'.writers[t].id == id;
      }
    }
  }

  lemma NotHeld(s: State, id: int, g: int)
    requires g in s.greeters && !HeldByGreeter(s, id)
    ensures !Copied(s.greeters[g].phase, id)
  {
  }

  /** Nothing a list shows has changed: every visible session is still there and
      looks the same, and whatever is new is invisible. */
  ghost predicate LooksSame(s: State, s': State) {
    && (forall id :: id in s.sessions && s.sessions[id].visible ==> id in s'.sessions)
    && (forall id :: id in s.sessions && id in s'.sessions ==>
          && s'.sessions[id].visible == s.sessions[id].visible
          && s'.sessions[id].username == s.sessions[id].username && s'.sessions[id].name == s.sessions[id].name)
    && (forall id :: id in s'.sessions && id !in s.sessions ==> !s'.sessions[id].visible)
    && (forall id :: id in s'.managed && id in s.sessions ==> id in s.managed)
  }

  lemma OnlyStoresShow(s: State, step: Step)
    requires SessionInv(s) && Enabled(s, step) && !step.Store?
    ensures LooksSame(s, Next(s, step))
  {
    hide HeldByGreeter, Busy, Hiding, Quiet;
    if step.Free? {
      FreedIsHidden(s, step.id);
    }
  }

  lemma FreedIsHidden(s: State, id: int)
    requires SessionInv(s) && Enabled(s, Free(id))
    ensures !s.sessions[id].visible
  {
  }

  lemma PartialKept(s: State, s': State, sent: map<int, Entry>, copied: set<int>, remaining: set<int>)
    requires LooksSame(s, s') && Partial(s, sent, copied, remaining)
    ensures Partial(s', sent, copied, remaining)
  {
  }

  /** Steps that store nothing leave every list as coherent as it was. */
  lemma SoFarKept(s: State, s': State, g: Greeter)
    requires LooksSame(s, s') && SoFar(s, g)
    ensures SoFar(s', g)
  {
    hide Partial;
    match g.phase
    case Idle =>
    case VersionRead =>
    case Listing(copied, remaining) => PartialKept(s, s', g.sent, copied, remaining);
    case SawVisible(copied, remaining, id) => PartialKept(s, s', g.sent, copied, remaining + {id});
    case SawUsername(copied, remaining, id, _) => PartialKept(s, s', g.sent, copied, remaining + {id});
  }

  /** What a greeter not taking part sees. */
  lemma BystanderKept(s: State, step: Step, g: int)
    requires Inv(s) && Enabled(s, step) && g in s.greeters
    requires g in Next(s, step).greeters && Next(s, step).greeters[g] == s.greeters[g]
    ensures GreeterInv(Next(s, step), s.greeters[g])
  {
    var s', now := Next(s, step), s.greeters[g];
    assert GreeterInv(s, now);
    hide HeldByGreeter, Quiet, SoFar, SessionInv, OnlyHiding, Busy, LooksSame;
    if step.Store? {
      NotQuiet(s', step.thread);
    } else if !step.Notify? {
      StaysStored(s, step);
      OnlyStoresShow(s, step);
      if SoFar(s, now) {
        SoFarKept(s, s', now);
      }
    }
    if step.Release? {
      NotHeld(s, step.id, g);
    }
  }

  lemma NotQuiet(s: State, t: int)
    requires t in s.writers && s.writers[t].Stored?
    ensures !Quiet(s)
  {
  }

  /** The greeter whose step it is. */
  lemma ActorKept(s: State, step: Step, g: int)
    requires Inv(s) && Enabled(s, step)
    requires step.NewGreeter? || step.ReadVersion? || step.CopyMap? || step.ReadVisible? || step.ReadUsername? || step.ReadName? || step.Finish?
    requires step.greeter == g
    ensures GreeterInv(Next(s, step), Next(s, step).greeters[g])
  {
    if !step.NewGreeter? {
      assert GreeterInv(s, s.greeters[g]);
    }
  }

  lemma StepKeeps(s: State, step: Step)
    requires Inv(s) && Enabled(s, step)
    ensures Inv(Next(s, step))
  {
    hide GreeterInv, SessionInv, OnlyHiding, Enabled;
    SessionsKept(s, step);
    var s' := Next(s, step);
    forall g | g in s'.greeters ensures GreeterInv(s', s'.greeters[g]) {
      if g in s.greeters && s'.greeters[g] == s.greeters[g] {
        BystanderKept(s, step, g);
      } else {
        ActorKept(s, step, g);
      }
    }
  }

  // ---------------------------------------------------------------- runs

  ghost predicate IsRun(states: seq<State>, steps: seq<Step>) {
    && |states| == |steps| + 1 && states[0] == INITIAL
    && forall k :: 0 <= k < |steps| ==> Enabled(states[k], steps[k]) && states[k + 1] == Next(states[k], steps[k])
  }

  lemma {:induction false} RunKeeps(states: seq<State>, steps: seq<Step>, k: nat)
    requires IsRun(states, steps) && k < |states|
    ensures Inv(states[k])
  {
    if k > 0 {
      RunKeeps(states, steps, k - 1);
      assert Enabled(states[k - 1], steps[k - 1]) && states[k] == Next(states[k - 1], steps[k - 1]);
      StepKeeps(states[k - 1], steps[k - 1]);
    }
  }

  /** MAIN RESULT. In every reachable state, whatever the interleaving: if no setter
      is between its store and its bump and a greeter between updates has sent the
      current version, then its list shows every managed visible session with its
      current username and name; every listed session is still visible as listed;
      and one that is no longer managed is still referenced, unless its destructor
      is about to hide it. */
  lemma CacheCoherent(states: seq<State>, steps: seq<Step>, k: nat, g: int)
    requires IsRun(states, steps) && k < |states|
    requires Quiet(states[k]) && g in states[k].greeters
    requires states[k].greeters[g].phase.Idle? && states[k].greeters[g].lastSent == states[k].version
    ensures
      var s, sent := states[k], states[k].greeters[g].sent;
      && (forall id :: id in s.managed && id in s.sessions && s.sessions[id].visible ==>
            id in sent && sent[id] == Entry(s.sessions[id].username, s.sessions[id].name))
      && (forall id :: id in sent ==> Current(s, id, sent[id]))
      && (forall id :: id in sent && id !in s.managed ==> !s.sessions[id].dying || Hiding(s, id))
  {
    RunKeeps(states, steps, k);
    assert GreeterInv(states[k], states[k].greeters[g]);
  }
}
