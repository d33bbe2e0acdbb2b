/** ReadSelector.cpp: the handlers of ready descriptors run in ascending order
    until one of them cancels. What handlers do to the rest of the program is an
    arbitrary function on a world W. */
module ReadSelectors {
  import opened Failures

  /** What a handler leaves behind: a new world, whether it called cancel, whether
      it threw. */
  datatype Outcome<W> = Outcome(world: W, cancelled: bool, threw: bool)

  /** The registered descriptors below fd in ascending order that are ready. */
  function ReadyBelow<H>(fds: map<int, H>, ready: set<int>, fd: nat): seq<int> {
    if fd == 0 then []
    else ReadyBelow(fds, ready, fd - 1) + (if fd - 1 in fds && fd - 1 in ready then [fd - 1] else [])
  }

  /** The worlds before each handler call and after the last one, running the
      handlers of `queue` until one cancels or throws. */
  function Dispatch<H, W>(fds: map<int, H>, queue: seq<int>, w: W, run: (H, W) -> Outcome<W>): seq<W>
    requires forall i :: 0 <= i < |queue| ==> queue[i] in fds
  {
    if queue == [] then [w]
    else
      var o := run(fds[queue[0]], w);
      [w] + (if o.cancelled || o.threw then [o.world] else Dispatch(fds, queue[1..], o.world, run))
  }

  /** Whether the last handler that ran threw. */
  ghost predicate LastThrew<H, W>(fds: map<int, H>, queue: seq<int>, trace: seq<W>, run: (H, W) -> Outcome<W>)
    requires forall i :: 0 <= i < |queue| ==> queue[i] in fds
  {
    2 <= |trace| <= |queue| + 1 && run(fds[queue[|trace| - 2]], trace[|trace| - 2]).threw
  }

  class ReadSelector<H, W> {
    var m_fds: map<int, H>
    var m_pendingCancelation: bool

    constructor ()
      ensures m_fds == map[]
    {
      m_fds, m_pendingCancelation := map[], false;
    }

    method Clear()
      modifies this`m_fds
      ensures m_fds == map[]
    {
      m_fds := map[];
    }

    /** Registering a descriptor twice is illegal. */
    method AddFD(fd: int, handler: H)
      requires fd !in m_fds
      modifies this`m_fds
      ensures m_fds == old(m_fds)[fd := handler]
    {
      m_fds := m_fds[fd := handler];
    }

    method Cancel()
      modifies this`m_pendingCancelation
      ensures m_pendingCancelation
    {
      m_pendingCancelation := true;
    }

    /** select, for the ready set that ::select returned. Descriptors are small
        non-negative numbers. The trace lists the worlds around the handler calls. */
    method Select(ready: set<int>, limit: nat, start: W, run: (H, W) -> Outcome<W>) returns (end: W, threw: bool, ghost trace: seq<W>)
      requires forall fd :: fd in m_fds ==> 0 <= fd < limit
      modifies this`m_pendingCancelation
      ensures forall i :: 0 <= i < |ReadyBelow(m_fds, ready, limit)| ==> ReadyBelow(m_fds, ready, limit)[i] in m_fds
      ensures trace == Dispatch(m_fds, ReadyBelow(m_fds, ready, limit), start, run)
      ensures trace != [] && end == trace[|trace| - 1]
      ensures threw == LastThrew(m_fds, ReadyBelow(m_fds, ready, limit), trace, run)
    {
      hide Dispatch, ReadyBelow, ReadyFrom, LastThrew;
      ReadyAreRegistered(m_fds, ready, limit);
      ReadyFromZero(m_fds, ready, limit);
      m_pendingCancelation, end, threw := false, start, false;
      ghost var queue := ReadyBelow(m_fds, ready, limit);
      ghost var all := queue;
      ghost var before: seq<W> := [];
      assert [] + Dispatch(m_fds, queue, start, run) == Dispatch(m_fds, queue, start, run);
      for fd := 0 to limit
        invariant !m_pendingCancelation && !threw
        invariant |before| <= |all| && all[|before|..] == queue
        invariant before != [] ==> !run(m_fds[all[|before| - 1]], before[|before| - 1]).threw
        invariant queue == ReadyFrom(m_fds, ready, fd, limit)
        invariant forall i :: 0 <= i < |queue| ==> queue[i] in m_fds
        invariant before + Dispatch(m_fds, queue, end, run) ==
                  Dispatch(m_fds, ReadyBelow(m_fds, ready, limit), start, run)
      {
        ReadyFromStep(m_fds, ready, fd, limit);
        if fd in m_fds && fd in ready {
          queue := ReadyFrom(m_fds, ready, fd + 1, limit);
          assert ([fd] + queue)[1..] == queue;
          assert forall i :: 0 <= i < |queue| ==> queue[i] == ([fd] + queue)[i + 1];
          DispatchStep(m_fds, fd, queue, end, run, before);
          assert all[|before|] == fd && all[|before| + 1..] == queue;
          var o := run(m_fds[fd], end);
          before, end := before + [end], o.world;
          if o.cancelled {
            Cancel();
          }
          if o.threw || m_pendingCancelation {
            threw, trace := o.threw, before + [end];
            LastThrewMeans(m_fds, all, before, end, run);
            return;
          }
        }
      }
      NothingLeft(m_fds, ready, limit, end, run);
      LastThrewMeans(m_fds, all, before, end, run);
      trace := before + [end];
    }
  }

  lemma LastThrewMeans<H, W>(fds: map<int, H>, queue: seq<int>, before: seq<W>, end: W, run: (H, W) -> Outcome<W>)
    requires (forall i :: 0 <= i < |queue| ==> queue[i] in fds) && |before| <= |queue|
    ensures LastThrew(fds, queue, before + [end], run) <==>
            before != [] && run(fds[queue[|before| - 1]], before[|before| - 1]).threw
  {
  }

  lemma DispatchStep<H, W>(fds: map<int, H>, fd: int, rest: seq<int>, w: W, run: (H, W) -> Outcome<W>, before: seq<W>)
    requires fd in fds && forall i :: 0 <= i < |rest| ==> rest[i] in fds
    ensures
      var o := run(fds[fd], w);
      before + Dispatch(fds, [fd] + rest, w, run) ==
      before + [w] + (if o.cancelled || o.threw then [o.world] else Dispatch(fds, rest, o.world, run))
  {
  }

  lemma NothingLeft<H, W>(fds: map<int, H>, ready: set<int>, limit: nat, w: W, run: (H, W) -> Outcome<W>)
    ensures ReadyFrom(fds, ready, limit, limit) == [] && Dispatch(fds, [], w, run) == [w]
  {
  }

  // ---------------------------------------------------------------- order

  /** The ready registered descriptors from fd up to the limit. */
  ghost function ReadyFrom<H>(fds: map<int, H>, ready: set<int>, fd: nat, limit: nat): seq<int>
    requires fd <= limit
  {
    if limit == fd then []
    else ReadyFrom(fds, ready, fd, limit - 1) + (if limit - 1 in fds && limit - 1 in ready then [limit - 1] else [])
  }

  lemma {:induction false} ReadyFromZero<H>(fds: map<int, H>, ready: set<int>, limit: nat)
    ensures ReadyFrom(fds, ready, 0, limit) == ReadyBelow(fds, ready, limit)
  {
    if limit > 0 {
      ReadyFromZero(fds, ready, limit - 1);
    }
  }

  lemma {:induction false} ReadyFromStep<H>(fds: map<int, H>, ready: set<int>, fd: nat, limit: nat)
    requires fd < limit
    ensures ReadyFrom(fds, ready, fd, limit) ==
            (if fd in fds && fd in ready then [fd] else []) + ReadyFrom(fds, ready, fd + 1, limit)
  {
    if fd + 1 < limit {
      ReadyFromStep(fds, ready, fd, limit - 1);
    } else {
      assert ReadyFrom(fds, ready, fd, fd) == [] && ReadyFrom(fds, ready, fd + 1, limit) == [];
    }
  }

  lemma NothingReady<H>(fds: map<int, H>, ready: set<int>, limit: nat)
    ensures ReadyFrom(fds, ready, limit, limit) == []
  {
  }

  lemma {:induction false} ReadyAreRegistered<H>(fds: map<int, H>, ready: set<int>, fd: nat)
    ensures forall i :: 0 <= i < |ReadyBelow(fds, ready, fd)| ==>
              var f := ReadyBelow(fds, ready, fd)[i]; f in fds && f in ready && 0 <= f < fd
  {
    if fd > 0 {
      ReadyAreRegistered(fds, ready, fd - 1);
    }
  }

  /** The queue is complete: no ready registered descriptor is left out. */
  lemma {:induction false} ReadyComplete<H>(fds: map<int, H>, ready: set<int>, limit: nat, fd: int)
    ensures fd in ReadyBelow(fds, ready, limit) <==> fd in fds && fd in ready && 0 <= fd < limit
  {
    if limit > 0 {
      ReadyComplete(fds, ready, limit - 1, fd);
    }
  }

  /** Handlers run in strictly ascending order of their descriptors. */
  lemma {:induction false} ReadyAscending<H>(fds: map<int, H>, ready: set<int>, fd: nat)
    ensures forall i, j :: 0 <= i < j < |ReadyBelow(fds, ready, fd)| ==>
              ReadyBelow(fds, ready, fd)[i] < ReadyBelow(fds, ready, fd)[j]
  {
    if fd > 0 {
      ReadyAscending(fds, ready, fd - 1);
      ReadyAreRegistered(fds, ready, fd - 1);
    }
  }

  /** Every handler but the last to run neither cancelled nor threw. */
  lemma {:induction false} OnlyLastCancels<H, W>(fds: map<int, H>, queue: seq<int>, w: W, run: (H, W) -> Outcome<W>, k: nat)
    requires forall i :: 0 <= i < |queue| ==> queue[i] in fds
    requires k + 1 < |Dispatch(fds, queue, w, run)|
    ensures k < |queue|
    ensures
      var trace := Dispatch(fds, queue, w, run);
      var o := run(fds[queue[k]], trace[k]);
      trace[k + 1] == o.world && (k + 2 < |trace| ==> !o.cancelled && !o.threw)
  {
    if k > 0 {
      var o := run(fds[queue[0]], w);
      OnlyLastCancels(fds, queue[1..], o.world, run, k - 1);
    }
  }

  /** The handlers of the queue run one after the other, and only one that cancelled or
      threw keeps those behind it from running. */
  lemma {:induction false} OnlyCancelStops<H, W>(fds: map<int, H>, queue: seq<int>, w: W, run: (H, W) -> Outcome<W>)
    requires forall i :: 0 <= i < |queue| ==> queue[i] in fds
    ensures
      var trace := Dispatch(fds, queue, w, run);
      && 1 <= |trace| <= |queue| + 1 && trace[0] == w
      && (|trace| <= |queue| ==>
            && 2 <= |trace|
            && var last := run(fds[queue[|trace| - 2]], trace[|trace| - 2]);
               last.cancelled || last.threw)
  {
    if queue != [] {
      OnlyCancelStops(fds, queue[1..], run(fds[queue[0]], w).world, run);
    }
  }

  // ---------------------------------------------------------------- the tunnel's handlers

  /** What select() binds in VncTunnel.cpp:267-277. */
  datatype Handler = ClientReceive | ServerReceive | GreeterReceive

  /** The part of a tunnel that its handlers rely on: the descriptor of the current
      connection, and that of the greeter if there is one. */
  datatype Pointers = Pointers(serverFd: int, greeterFd: Option<int>)

  /** The descriptors select() registers. */
  function Registered(clientFd: int, p: Pointers): map<int, Handler> {
    var two := map[clientFd := ClientReceive, p.serverFd := ServerReceive];
    if p.greeterFd.Some? then two[p.greeterFd.value := GreeterReceive] else two
  }

  /** Each descriptor has its own handler, and no other descriptor has one. */
  lemma RegisteredExactly(clientFd: int, p: Pointers)
    requires clientFd != p.serverFd
    requires p.greeterFd.Some? ==> p.greeterFd.value != clientFd && p.greeterFd.value != p.serverFd
    ensures
      var fds := Registered(clientFd, p);
      && (forall fd :: fd in fds <==> fd == clientFd || fd == p.serverFd || Some(fd) == p.greeterFd)
      && fds[clientFd] == ClientReceive && fds[p.serverFd] == ServerReceive
      && (p.greeterFd.Some? ==> fds[p.greeterFd.value] == GreeterReceive)
  {
  }

  /** Only the greeter's handler may move the pointers, and when it does it cancels
      the dispatch or throws. Every handler of class VncTunnel promises this. */
  predicate Disciplined(h: Handler, before: Pointers, after: Pointers, cancelled: bool, threw: bool) {
    after != before ==> h.GreeterReceive? && (cancelled || threw)
  }

  ghost predicate Discipline(run: (Handler, Pointers) -> Outcome<Pointers>) {
    forall h, w :: Disciplined(h, w, run(h, w).world, run(h, w).cancelled, run(h, w).threw)
  }

  /** Every handler that runs finds the pointers as they were when the descriptors
      were registered. */
  lemma {:induction false} PointersStillValid(
    fds: map<int, Handler>, queue: seq<int>, w: Pointers, run: (Handler, Pointers) -> Outcome<Pointers>, k: nat)
    requires forall i :: 0 <= i < |queue| ==> queue[i] in fds
    requires Discipline(run) && k + 1 < |Dispatch(fds, queue, w, run)|
    ensures k < |queue| && Dispatch(fds, queue, w, run)[k] == w
  {
    OnlyLastCancels(fds, queue, w, run, k);
    if k > 0 {
      PointersStillValid(fds, queue, w, run, k - 1);
      OnlyLastCancels(fds, queue, w, run, k - 1);
      var o := run(fds[queue[k - 1]], w);
      assert Disciplined(fds[queue[k - 1]], w, o.world, o.cancelled, o.threw);
    }
  }

  /** Whenever serverReceive runs, the descriptor it runs for is that of the
      connection it is about to read from, and whenever the greeter's handler runs
      there is a greeter and the descriptor is its own, whatever is ready and
      whatever disciplined handlers did before. */
  lemma TunnelDispatchSafe(
    clientFd: int, p: Pointers, ready: set<int>, limit: nat, run: (Handler, Pointers) -> Outcome<Pointers>, k: nat)
    requires Discipline(run) && clientFd != p.serverFd
    requires p.greeterFd.Some? ==> p.greeterFd.value != clientFd && p.greeterFd.value != p.serverFd
    requires forall i :: 0 <= i < |ReadyBelow(Registered(clientFd, p), ready, limit)| ==>
               ReadyBelow(Registered(clientFd, p), ready, limit)[i] in Registered(clientFd, p)
    requires k + 1 < |Dispatch(Registered(clientFd, p), ReadyBelow(Registered(clientFd, p), ready, limit), p, run)|
    ensures
      var queue := ReadyBelow(Registered(clientFd, p), ready, limit);
      var now := Dispatch(Registered(clientFd, p), queue, p, run)[k];
      && k < |queue| && queue[k] in Registered(clientFd, p)
      && (match Registered(clientFd, p)[queue[k]]
          case ClientReceive => queue[k] == clientFd
          case ServerReceive => queue[k] == now.serverFd
          case GreeterReceive => now.greeterFd == Some(queue[k]))
  {
    hide Dispatch, ReadyBelow;
    PointersStillValid(Registered(clientFd, p), ReadyBelow(Registered(clientFd, p), ready, limit), p, run, k);
  }

  /** The k-th handler ran for a descriptor of its own: serverReceive for that of the
      connection that was current then, the greeter's for that of the greeter there was. */
  ghost predicate OwnsAt(fds: map<int, Handler>, queue: seq<int>, trace: seq<Pointers>, k: nat)
    requires k < |trace|
  {
    && k < |queue| && queue[k] in fds
    && (fds[queue[k]].ServerReceive? ==> queue[k] == trace[k].serverFd)
    && (fds[queue[k]].GreeterReceive? ==> trace[k].greeterFd == Some(queue[k]))
  }

  ghost predicate OwnersOnly(fds: map<int, Handler>, queue: seq<int>, trace: seq<Pointers>) {
    forall k :: 0 <= k < |trace| - 1 ==> OwnsAt(fds, queue, trace, k)
  }

  lemma EveryDispatchSafe(
    clientFd: int, p: Pointers, ready: set<int>, limit: nat, run: (Handler, Pointers) -> Outcome<Pointers>)
    requires Discipline(run) && clientFd != p.serverFd
    requires p.greeterFd.Some? ==> p.greeterFd.value != clientFd && p.greeterFd.value != p.serverFd
    requires forall i :: 0 <= i < |ReadyBelow(Registered(clientFd, p), ready, limit)| ==>
               ReadyBelow(Registered(clientFd, p), ready, limit)[i] in Registered(clientFd, p)
    ensures
      var fds := Registered(clientFd, p);
      var queue := ReadyBelow(fds, ready, limit);
      OwnersOnly(fds, queue, Dispatch(fds, queue, p, run))
  {
    hide Dispatch, ReadyBelow, Discipline, Registered;
    var fds := Registered(clientFd, p);
    var queue := ReadyBelow(fds, ready, limit);
    var trace := Dispatch(fds, queue, p, run);
    hide OwnersOnly;
    forall k | 0 <= k < |trace| - 1 ensures OwnsAt(fds, queue, trace, k) {
      TunnelDispatchSafe(clientFd, p, ready, limit, run, k);
    }
    OwnersMean(fds, queue, trace);
  }

  lemma OwnersMean(fds: map<int, Handler>, queue: seq<int>, trace: seq<Pointers>)
    requires forall k :: 0 <= k < |trace| - 1 ==> OwnsAt(fds, queue, trace, k)
    ensures OwnersOnly(fds, queue, trace)
  {
  }

  // ---------------------------------------------------------------- dispatches of handlers that are methods

  /** Handlers that do nothing, but for one that does o when it finds p. */
  function Only(one: Handler, p: Pointers, o: Outcome<Pointers>): (Handler, Pointers) -> Outcome<Pointers> {
    (h: Handler, w: Pointers) => if h == one && w == p then o else Outcome(w, false, false)
  }

  function Again(p: Pointers, n: nat): seq<Pointers> {
    seq(n, _ => p)
  }

  lemma EachItsOwn(clientFd: int, p: Pointers, a: int, b: int)
    requires a in Registered(clientFd, p) && b in Registered(clientFd, p) && a != b
    ensures Registered(clientFd, p)[a] != Registered(clientFd, p)[b]
  {
  }

  /** A dispatch that comes to its end without incident, or up to one handler. */
  lemma {:induction false} DispatchOnly(
    fds: map<int, Handler>, done: seq<int>, rest: seq<int>, p: Pointers, one: Handler, o: Outcome<Pointers>)
    requires forall i :: 0 <= i < |done| ==> done[i] in fds && fds[done[i]] != one
    requires forall i :: 0 <= i < |rest| ==> rest[i] in fds
    requires rest != [] ==> fds[rest[0]] == one && (o.cancelled || o.threw)
    ensures Dispatch(fds, done + rest, p, Only(one, p, o)) == Again(p, |done| + 1) + (if rest == [] then [] else [o.world])
    decreases |done|
  {
    if done == [] {
      assert done + rest == rest && Again(p, 1) == [p];
      assert rest != [] ==> Only(one, p, o)(fds[rest[0]], p) == o;
    } else {
      hide Dispatch, Only;
      DispatchOnly(fds, done[1..], rest, p, one, o);
      assert done + rest == [done[0]] + (done[1..] + rest);
      IdleStep(fds, done[0], done[1..] + rest, p, one, o);
      assert Again(p, |done| + 1) == [p] + Again(p, |done|);
    }
  }

  lemma IdleStep(fds: map<int, Handler>, fd: int, rest: seq<int>, p: Pointers, one: Handler, o: Outcome<Pointers>)
    requires fd in fds && fds[fd] != one && forall i :: 0 <= i < |rest| ==> rest[i] in fds
    ensures Dispatch(fds, [fd] + rest, p, Only(one, p, o)) == [p] + Dispatch(fds, rest, p, Only(one, p, o))
  {
    assert ([fd] + rest)[1..] == rest;
  }

  lemma OnlyDisciplined(one: Handler, p: Pointers, o: Outcome<Pointers>)
    requires Disciplined(one, p, o.world, o.cancelled, o.threw)
    ensures Discipline(Only(one, p, o))
  {
  }

  lemma GreeterThere(h: Handler, fd: int, clientFd: int, p: Pointers)
    requires fd in Registered(clientFd, p) && Registered(clientFd, p)[fd] == h
    ensures h.GreeterReceive? ==> p.greeterFd.Some?
  {
  }

  /** A dispatch that stopped at the first handler of the queue. */
  lemma StoppedAt(
    clientFd: int, p: Pointers, all: seq<int>, done: seq<int>, queue: seq<int>, o: Outcome<Pointers>)
    requires all == done + queue && queue != [] && forall i :: 0 <= i < |all| ==> all[i] in Registered(clientFd, p)
    requires forall i :: 0 <= i < |done| ==> done[i] in Registered(clientFd, p) && done[i] < queue[0]
    requires forall i :: 0 <= i < |queue| ==> queue[i] in Registered(clientFd, p)
    requires o.cancelled || o.threw
    requires Disciplined(Registered(clientFd, p)[queue[0]], p, o.world, o.cancelled, o.threw)
    ensures
      var fds := Registered(clientFd, p);
      var run, trace := Only(fds[queue[0]], p, o), Again(p, |done| + 1) + [o.world];
      && Discipline(run) && trace == Dispatch(fds, all, p, run)
      && (o.threw <==> LastThrew(fds, all, trace, run))
  {
    var fds := Registered(clientFd, p);
    var one := fds[queue[0]];
    forall i | 0 <= i < |done| ensures fds[done[i]] != one {
      EachItsOwn(clientFd, p, done[i], queue[0]);
    }
    DispatchOnly(fds, done, queue, p, one, o);
    OnlyDisciplined(one, p, o);
  }

  /** A dispatch that nothing stopped. */
  lemma {:induction false} RanThrough(fds: map<int, Handler>, all: seq<int>, p: Pointers)
    requires forall i :: 0 <= i < |all| ==> all[i] in fds
    ensures
      var run := Only(ClientReceive, p, Outcome(p, false, false));
      && Discipline(run) && Again(p, |all| + 1) == Dispatch(fds, all, p, run)
      && !LastThrew(fds, all, Again(p, |all| + 1), run)
    decreases |all|
  {
    if all != [] {
      RanThrough(fds, all[1..], p);
      assert Again(p, |all| + 1) == [p] + Again(p, |all|);
    } else {
      assert Again(p, 1) == [p];
    }
  }

  /** The discipline is needed: a greeter's handler that makes another connection
      current without cancelling lets serverReceive run for a descriptor that is
      not the current connection's. */
  lemma UndisciplinedDispatchUnsafe()
    ensures
      var p := Pointers(7, Some(5));
      var run: (Handler, Pointers) -> Outcome<Pointers> :=
        (h: Handler, w: Pointers) => Outcome(if h.GreeterReceive? then Pointers(9, None) else w, false, false);
      var fds := Registered(3, p);
      && fds[7] == ServerReceive && ReadyBelow(fds, {5, 7}, 8) == [5, 7]
      && |Dispatch(fds, [5, 7], p, run)| == 3 && Dispatch(fds, [5, 7], p, run)[1].serverFd != 7
  {
    var fds := Registered(3, Pointers(7, Some(5)));
    assert ReadyBelow(fds, {5, 7}, 2) == [];
    assert ReadyBelow(fds, {5, 7}, 4) == [];
    assert ReadyBelow(fds, {5, 7}, 6) == [5];
    assert ReadyBelow(fds, {5, 7}, 8) == [5, 7];
  }
}
