/** What module GreeterCache's steps add up to: a setter left alone does what class
    Xvnc's method does, the version counts announcements, and a greeter left alone
    catches up (Xvnc.cpp:97-138, XvncManager.cpp:34-103, GreeterConnection.cpp:121-180). */
module GreeterProgress {
  import opened Bytes
  import opened GreeterCache

  // ---------------------------------------------------------------- runs from any state

  ghost predicate Leads(s: State, steps: seq<Step>, end: State)
    decreases |steps|
  {
    if steps == [] then s == end else Enabled(s, steps[0]) && Leads(Next(s, steps[0]), steps[1..], end)
  }

  lemma LeadsOn(s: State, step: Step, steps: seq<Step>, end: State)
    requires Enabled(s, step) && Leads(Next(s, step), steps, end)
    ensures Leads(s, [step] + steps, end)
  {
    assert ([step] + steps)[1..] == steps;
  }

  // ---------------------------------------------------------------- setters

  /** markVisible, setSessionUsername and setDesktopName, run by a thread that no other
      comes between: the field has the new value, nothing else of any session changes,
      and the version moves exactly if the value is new. */
  lemma SetterAlone(s: State, t: int, id: int, change: Change) returns (steps: seq<Step>, end: State)
    requires t !in s.writers && id in s.sessions && !s.sessions[id].dying
    ensures Leads(s, [Enter(t, id, change)] + steps, end)
    ensures
      var was, now := s.sessions[id], end.sessions;
      && now.Keys == s.sessions.Keys && (forall i :: i in s.sessions && i != id ==> now[i] == s.sessions[i])
      && now[id].dying == was.dying
      && now[id].visible == (match change case Visible(on) => on case _ => was.visible)
      && now[id].username == (match change case Username(username) => username case _ => was.username)
      && now[id].name == (match change case Name(name) => name case _ => was.name)
      && end.version == s.version + (if now[id] == was then 0 else 1)
      && end.managed == s.managed && end.greeters == s.greeters && end.writers == s.writers
  {
    var entered := Next(s, Enter(t, id, change));
    var compared := Next(entered, Compare(t));
    if Matches(s.sessions[id], change) {
      steps, end := [Compare(t)], compared;
      assert end.writers == s.writers;
      LeadsOn(entered, Compare(t), [], end);
    } else {
      var stored := Next(compared, Store(t));
      end := Next(stored, Notify(t));
      assert end.writers == s.writers;
      steps := [Compare(t), Store(t), Notify(t)];
      LeadsOn(stored, Notify(t), [], end);
      LeadsOn(compared, Store(t), [Notify(t)], end);
      LeadsOn(entered, Compare(t), [Store(t), Notify(t)], end);
      assert [Compare(t)] + [Store(t), Notify(t)] == steps;
    }
    LeadsOn(s, Enter(t, id, change), steps, end);
  }

  // ---------------------------------------------------------------- the manager

  function Announcements(steps: seq<Step>): nat {
    if steps == [] then 0 else Announcements(steps[..|steps| - 1]) + (if steps[|steps| - 1].Notify? then 1 else 0)
  }

  /** The version is the number of announcements. */
  lemma {:induction false} VersionCounts(states: seq<State>, steps: seq<Step>, k: nat)
    requires IsRun(states, steps) && k <= |steps|
    ensures states[k].version == Announcements(steps[..k])
  {
    if k > 0 {
      VersionCounts(states, steps, k - 1);
      assert Enabled(states[k - 1], steps[k - 1]) && states[k] == Next(states[k - 1], steps[k - 1]);
      assert steps[..k][..k - 1] == steps[..k - 1];
    }
  }

  lemma ManagedStep(s: State, step: Step, id: int)
    requires Enabled(s, step)
    ensures id in Next(s, step).managed <==>
            (step.Create? && s.nextId == id) || (id in s.managed && step != ChildDied(id))
    ensures Next(s, step).nextId == s.nextId + (if step.Create? then 1 else 0)
  {
    hide Busy, HeldByGreeter, Matches, Changed;
  }

  /** A session is managed exactly from its creation, which gives it a new identifier,
      to the death of its process. */
  lemma {:induction false} ManagedExactly(states: seq<State>, steps: seq<Step>, k: nat, id: int)
    requires IsRun(states, steps) && k <= |steps|
    ensures id in states[k].managed <==>
            exists j :: 0 <= j < k && steps[j].Create? && states[j].nextId == id && forall i :: j < i < k ==> steps[i] != ChildDied(id)
    ensures forall j :: 0 <= j < k && steps[j].Create? ==> states[j].nextId < states[k].nextId
  {
    hide Next, Enabled;
    if k > 0 {
      ManagedExactly(states, steps, k - 1, id);
      assert Enabled(states[k - 1], steps[k - 1]) && states[k] == Next(states[k - 1], steps[k - 1]);
      ManagedStep(states[k - 1], steps[k - 1], id);
    }
  }

  // ---------------------------------------------------------------- greeters

  /** How many lists the greeter has begun to send. */
  function Lists(steps: seq<Step>, g: int): nat {
    if steps == [] then 0 else Lists(steps[..|steps| - 1], g) + (if steps[|steps| - 1] == CopyMap(g) then 1 else 0)
  }

  /** Lists begun, and the one about to be. */
  function Begun(s: State, g: int, lists: nat): nat {
    lists + (if g in s.greeters && s.greeters[g].phase.VersionRead? then 1 else 0)
  }

  lemma ListStep(s: State, step: Step, g: int, lists: nat)
    requires Enabled(s, step)
    requires if g in s.greeters then Begun(s, g, lists) <= s.greeters[g].lastSent <= s.version else lists == 0 <= s.version
    ensures
      var s', lists' := Next(s, step), lists + (if step == CopyMap(g) then 1 else 0);
      if g in s'.greeters then Begun(s', g, lists') <= s'.greeters[g].lastSent <= s'.version else lists' == 0 <= s'.version
  {
    hide Busy, HeldByGreeter, Matches, Changed;
  }

  /** A greeter never sends a list without an announcement since the last one: in every
      run it has begun no more lists than there were announcements. */
  lemma {:induction false} ListsNeedAnnouncements(states: seq<State>, steps: seq<Step>, k: nat, g: int)
    requires IsRun(states, steps) && k <= |steps|
    ensures if g in states[k].greeters
            then Begun(states[k], g, Lists(steps[..k], g)) <= states[k].greeters[g].lastSent <= Announcements(steps[..k])
            else Lists(steps[..k], g) == 0
  {
    VersionCounts(states, steps, k);
    if k > 0 {
      ListsNeedAnnouncements(states, steps, k - 1, g);
      VersionCounts(states, steps, k - 1);
      hide Next, Enabled;
      assert Enabled(states[k - 1], steps[k - 1]) && states[k] == Next(states[k - 1], steps[k - 1]);
      assert steps[..k][..k - 1] == steps[..k - 1];
      ListStep(states[k - 1], steps[k - 1], g, Lists(steps[..k - 1], g));
    }
  }

  predicate StepOf(step: Step, g: int) {
    match step
    case ReadVersion(i) => i == g
    case CopyMap(i) => i == g
    case ReadVisible(i, _) => i == g
    case ReadUsername(i) => i == g
    case ReadName(i) => i == g
    case Finish(i) => i == g
    case _ => false
  }

  /** Whether the greeter has sent the list of the present version and is done. */
  ghost predicate UpToDate(s: State, g: int)
    requires g in s.greeters
  {
    s.greeters[g].phase.Idle? && s.greeters[g].lastSent == s.version
  }

  /** Steps to the end of the list in the making. */
  function InPhase(s: State, p: Phase): nat {
    match p
    case Idle => 0
    case VersionRead => 3 * |s.managed| + 2
    case Listing(_, remaining) => 3 * |remaining| + 1
    case SawVisible(_, remaining, _) => 3 * |remaining| + 3
    case SawUsername(_, remaining, _, _) => 3 * |remaining| + 2
  }

  function Left(s: State, g: int): nat
    requires g in s.greeters
  {
    InPhase(s, s.greeters[g].phase) + (if s.greeters[g].lastSent == s.version then 0 else 3 * |s.managed| + 4)
  }

  lemma NextOf<T>(remaining: set<T>) returns (next: T)
    requires remaining != {}
    ensures next in remaining
  {
    next :| next in remaining;
  }

  /** A greeter that is not up to date can take a step, and gets closer by it. */
  lemma GetsOn(s: State, g: int) returns (step: Step)
    requires Inv(s) && g in s.greeters && !UpToDate(s, g)
    ensures Enabled(s, step) && StepOf(step, g) && g in Next(s, step).greeters && Left(Next(s, step), g) < Left(s, g)
    ensures Next(s, step) == s.(greeters := Next(s, step).greeters)
  {
    var now := s.greeters[g];
    assert GreeterInv(s, now);
    match now.phase
    case Idle => step := ReadVersion(g);
    case VersionRead => step := CopyMap(g);
    case Listing(copied, remaining) =>
      if remaining == {} {
        step := Finish(g);
      } else {
        var next := NextOf(remaining);
        step := ReadVisible(g, next);
        assert |remaining - {next}| == |remaining| - 1;
      }
    case SawVisible(_, _, _) => step := ReadUsername(g);
    case SawUsername(_, _, _, _) => step := ReadName(g);
  }

  /** MAIN RESULT. From every reachable state, a greeter that no other thread comes
      between gets up to date, in a number of steps that the state bounds; and if no
      setter is between its store and its bump, its list then shows every managed
      visible session with its user name and name, and nothing but visible sessions. */
  lemma {:induction false} CatchesUp(s: State, g: int) returns (steps: seq<Step>, end: State)
    requires Inv(s) && g in s.greeters
    ensures Leads(s, steps, end) && |steps| <= Left(s, g) && forall step :: step in steps ==> StepOf(step, g)
    ensures g in end.greeters && UpToDate(end, g) && end == s.(greeters := end.greeters)
    ensures Quiet(s) ==>
              && (forall id :: id in s.managed && id in s.sessions && s.sessions[id].visible ==> id in end.greeters[g].sent)
              && (forall id :: id in end.greeters[g].sent ==>
                    && id in s.sessions && s.sessions[id].visible
                    && end.greeters[g].sent[id].username == s.sessions[id].username
                    && end.greeters[g].sent[id].name == s.sessions[id].name)
    decreases Left(s, g)
  {
    if UpToDate(s, g) {
      steps, end := [], s;
      assert GreeterInv(s, s.greeters[g]);
    } else {
      hide Next, Enabled, Inv, Left, UpToDate;
      var step := GetsOn(s, g);
      StepKeeps(s, step);
      var more;
      more, end := CatchesUp(Next(s, step), g);
      steps := [step] + more;
      LeadsOn(s, step, more, end);
    }
  }
}
