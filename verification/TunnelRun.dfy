/** Whole runs of a tunnel: client messages, server messages, switch attempts and
    their outcomes, names set by other tunnels, and exceptions, in any order
    (VncTunnel.cpp:86-118, 279-653, 720-810). */
module TunnelRun {
  import opened Bytes
  import opened ClientMessages
  import opened ClientRelay
  import opened ClientRelayProofs
  import D = Desktop
  import EL = EncodingLists
  import opened Failures
  import opened FormatFraming
  import opened Intended
  import ML = MainLoop
  import R = Relay
  import opened Rfb
  import opened ServerMessages
  import SP = ServerRelayProofs
  import opened Standard
  import opened Switching
  import opened UpdateProofs
  import Z = ZlibStreams

  /** A message the server has sent and the tunnel not yet read, with the format it
      was drawn in. */
  datatype Drawn = Drawn(pf: PixelFormat, message: ServerMessage)

  /** A tunnel with what its peers know: the list the client last asked for and
      whether Tight was then held back, the client's format, the format the current
      server draws in, the formats it has been told and not yet taken up, what it
      has sent and the tunnel not yet read, both ends of the zlib streams as far as
      the tunnel has read, counts of switches and of DesktopName rectangles made up
      by the tunnel, and whether it has disconnected the client. */
  datatype World = World(
    t: Tunnel,
    requested: Option<seq<s32>>,
    heldBack: bool,
    clientFormat: PixelFormat,
    serverFormat: PixelFormat,
    told: seq<PixelFormat>,
    unread: seq<Drawn>,
    serverZlib: Z.Histories,
    clientZlib: Z.Histories,
    switches: nat,
    madeUpNames: nat,
    ended: bool)

  datatype Event =
    | Client(message: ClientMessage) // the tunnel reads a client message
    | Obeys                          // the server takes up the next format it was told
    | Sends(sent: ServerMessage)     // the server sends a message
    | Reads                          // the tunnel reads the next message from the server
    | Attempt                        // the greeter asks for a new or an existing session
    | Completed(link: Link)          // the potential connection is initialized
    | Failed(error: Error)           // the handshake of the potential connection throws
    | Raised(raised: Error)          // anything else in the main loop throws
    | Renamed(name: bytes)           // another tunnel sets the desktop name of the session

  ghost predicate LinkOk(l: Link) {
    l.pf.WellSized() && l.pf.Valid() && l.pf.bigEndianFlag == 0 && l.desktop.Valid()
  }

  /** start() up to its main loop. */
  function Start(link: Link, greeter: bool): World {
    World(Tunnel(Settings(link.pf, {}, [], greeter), link, false, greeter, false, false),
      None, false, link.pf, link.pf, [], [], Z.FRESH, Z.FRESH, 0, 0, false)
  }

  /** The last format the server has been told, or the one it started with. */
  function LastTold(w: World): PixelFormat {
    if w.told == [] then w.serverFormat else w.told[|w.told| - 1]
  }

  /** What the tunnel sends the client for a server message. */
  function ForClient(w: World, m: ServerMessage): ServerMessage {
    SP.ForClient(w.t.Cfg(), w.t.nameQueued, w.t.Fields(), m)
  }

  /** The tunnel reads the message where the server wrote it, and does not refuse it. */
  ghost predicate Accepted(w: World, d: Drawn) {
    && SP.Relayable(w.t.Cfg(), w.t.nameQueued, d.message)
    && (d.message.FramebufferUpdate? ==> AllReadAlike(d.pf, w.t.settings.pf, d.message.update.rects))
  }

  /** No more records are sent than announced. */
  predicate Fits(w: World, m: ServerMessage) {
    m.FramebufferUpdate? ==> |Shown(w, m.update)| <= R.Announced(m.update.count, w.t.nameQueued)
  }

  /** What may happen: relayable messages with little-endian formats, well-formed
      server messages, of which the tunnel reads those it accepts and can announce,
      greeter commands while there is a greeter, outcomes of the attempt in progress,
      names that came over the wire, and exceptions, of which only a handshake can
      throw a ConnectionException. Nothing happens to a tunnel that has ended. */
  ghost predicate Enabled(w: World, e: Event) {
    !w.ended && Possible(w, e)
  }

  ghost predicate Possible(w: World, e: Event) {
    match e
    case Client(m) => Relayable(w.t.settings.tightDisabled, m) && (m.SetPixelFormat? ==> m.format.bigEndianFlag == 0)
    case Obeys => w.told != []
    case Sends(m) => ServerOk(w.serverFormat, m)
    case Reads => w.unread != [] && Accepted(w, w.unread[0]) && Fits(w, w.unread[0].message)
    case Attempt => w.t.greeter
    case Completed(link) => w.t.potential && LinkOk(link)
    case Failed(error) => w.t.potential && error in {ConnectionFailed, Eof, Errno}
    case Raised(error) => error != ConnectionFailed
    case Renamed(name) => |name| < 0x1_0000_0000
  }

  /** The rectangles the client is sent for an update. */
  function Shown(w: World, u: Update): seq<Rect> {
    ClientView(w.t.Cfg(), w.t.nameQueued, w.t.Fields(), u)
  }

  /** After an update the tunnel has read. */
  function AfterReading(w: World, u: Update): World {
    w.(t := AfterUpdate(w.t, AfterAll(w.t.Fields(), u.rects)),
       serverZlib := Z.ProcessAll(w.serverZlib, u.rects),
       clientZlib := Z.ProcessAll(w.clientZlib, Shown(w, u)),
       madeUpNames := w.madeUpNames + (if w.t.nameQueued then 1 else 0))
  }

  /** After an exception. */
  function AfterException(w: World, e: Error, faulty: ML.Faulty): World {
    match ML.Caught(w.t, e, faulty)
    case GoesOn(t) => w.(t := t)
    case Disconnects => w.(ended := true)
  }

  ghost function Next(w: World, e: Event): World
    requires Enabled(w, e)
  {
    match e
    case Client(m) =>
      var t := AfterClient(w.t, AfterMessage(w.t.settings, m), m.SetPixelFormat?);
      (match m
       case SetEncodings(_, l) => w.(t := t, requested := Some(l), heldBack := w.t.settings.tightDisabled)
       case SetPixelFormat(_, format) => w.(t := t, clientFormat := format, told := w.told + [format.Ntoh().Hton()])
       case _ => w.(t := t))
    case Obeys => w.(serverFormat := w.told[0], told := w.told[1..])
    case Sends(m) => w.(unread := w.unread + [Drawn(w.serverFormat, m)])
    case Reads =>
      var rest := w.(unread := w.unread[1..]);
      (match w.unread[0].message
       case FramebufferUpdate(u) => AfterReading(rest, u)
       case _ => rest)
    case Attempt => w.(t := SwitchStarted(w.t))
    case Completed(link) =>
      w.(t := Switched(w.t, link), serverFormat := link.pf,
         told := if link.pf.Same(w.t.settings.pf) then [] else [w.t.settings.pf.Hton()],
         unread := [], serverZlib := Z.FRESH, switches := w.switches + 1)
    case Failed(error) => AfterException(w, error, ML.PotentialConnection)
    case Raised(error) => AfterException(w, error, ML.AnotherConnection)
    case Renamed(name) => w.(t := w.t.(current := w.t.current.(desktop := D.SetName(w.t.current.desktop, name))))
  }

  // ---------------------------------------------------------------- the invariant

  /** Only a tunnel with a greeter attempts a switch, it completes at most one, and
      makes up at most one name. */
  ghost predicate SwitchInv(w: World) {
    && (w.t.potential ==> w.t.greeter)
    && (w.t.settings.tightDisabled ==> w.t.greeter && !w.t.potential)
    && (w.t.greeter ==> w.switches == 0)
    && w.switches <= 1
    && w.madeUpNames + (if w.t.nameQueued then 1 else 0) <= w.switches
  }

  /** The encodings offered for the list l, in the client's order, behind Tight if
      it was held back when l arrived and has been released since. */
  function OfferedFor(l: seq<s32>, heldBack: bool, tightDisabled: bool): seq<s32> {
    (if heldBack && !tightDisabled && TIGHT in l then [TIGHT] else []) +
    Kept(heldBack, l) +
    (if DESKTOP_NAME in l then [] else [DESKTOP_NAME])
  }

  ghost predicate EncodingInv(w: World) {
    && (w.t.settings.tightDisabled && w.requested.Some? ==> w.heldBack)
    && (match w.requested
        case None => w.t.settings.clientEncodings == {} && w.t.settings.serverEncodings == []
        case Some(l) =>
          && |l| <= U16_MAX
          && w.t.settings.clientEncodings == KnownOnes(l)
          && w.t.settings.serverEncodings == OfferedFor(l, w.heldBack, w.t.settings.tightDisabled))
  }

  /** The tunnel's format is its connection's, the client's, and the one the server
      will draw in when it has taken up what it was told, padding aside. */
  ghost predicate FormatInv(w: World) {
    && w.t.settings.pf.WellSized() && w.t.settings.pf.Valid() && w.t.settings.pf.bigEndianFlag == 0
    && w.t.current.pf.Same(w.t.settings.pf)
    && w.clientFormat.Same(w.t.settings.pf)
    && LastTold(w).Same(w.t.settings.pf)
  }

  /** Whatever is unread was well formed when it was drawn. */
  ghost predicate UnreadInv(w: World) {
    forall d :: d in w.unread ==> ServerOk(d.pf, d.message)
  }

  ghost predicate Inv(w: World) {
    && SwitchInv(w) && EncodingInv(w) && FormatInv(w) && UnreadInv(w)
    && w.t.current.desktop.Valid()
    && Z.InStep(w.t.resetQueued, w.serverZlib, w.clientZlib)
  }

  lemma StartInv(link: Link, greeter: bool)
    requires LinkOk(link)
    ensures Inv(Start(link, greeter))
  {
  }

  lemma {:induction false} DesktopKept(pf: PixelFormat, f: R.Fields, rs: seq<Rect>)
    requires f.desktop.Valid() && RectsOk(pf, rs)
    ensures AfterAll(f, rs).desktop.Valid()
    decreases |rs|
  {
    hide RectOk, After;
    if rs != [] {
      KeptByOne(pf, f, rs[0]);
      DesktopKept(pf, After(f, rs[0]), rs[1..]);
    }
  }

  lemma KeptByOne(pf: PixelFormat, f: R.Fields, r: Rect)
    requires f.desktop.Valid() && RectOk(pf, r)
    ensures After(f, r).desktop.Valid()
  {
  }

  lemma ClientStep(w: World, m: ClientMessage)
    requires Inv(w) && Enabled(w, Client(m))
    ensures Inv(Next(w, Client(m)))
  {
    hide Kept, KnownOnes, Z.InStep, D.Desktop.Valid;
    if m.SetPixelFormat? {
      NtohKeepsShape(m.format);
    }
  }

  lemma ObeysStep(w: World)
    requires Inv(w) && Enabled(w, Obeys)
    ensures Inv(Next(w, Obeys))
  {
    hide Z.InStep, D.Desktop.Valid, ServerOk, Kept, KnownOnes;
  }

  lemma SendsStep(w: World, m: ServerMessage)
    requires Inv(w) && Enabled(w, Sends(m))
    ensures Inv(Next(w, Sends(m)))
  {
    hide Z.InStep, D.Desktop.Valid, ServerOk, Kept, KnownOnes;
  }

  /** What the tunnel accepts is well formed in its own format. */
  lemma AcceptedOk(w: World, d: Drawn)
    requires ServerOk(d.pf, d.message) && Accepted(w, d)
    ensures ServerOk(w.t.settings.pf, d.message)
  {
    hide UpdateOk, AllReadAlike, SP.Relayable;
    if d.message.FramebufferUpdate? {
      AllReadAlikeExactly(d.pf, w.t.settings.pf, d.message.update);
    }
  }

  lemma UpdateStep(w: World, u: Update)
    requires Inv(w) && UpdateOk(w.t.settings.pf, u)
    ensures Inv(AfterReading(w, u))
  {
    hide ClientView, AfterAll, Z.ProcessAll, Z.InStep, RectOk, Kept, KnownOnes, D.Desktop.Valid;
    DesktopKept(w.t.settings.pf, w.t.Fields(), u.rects);
    Z.ViewInStep(w.t.Cfg(), w.t.nameQueued, w.t.Fields(), u, w.serverZlib, w.clientZlib);
  }

  lemma ReadsStep(w: World)
    requires Inv(w) && Enabled(w, Reads)
    ensures Inv(Next(w, Reads))
  {
    hide AfterReading, UpdateOk, Accepted, Fits, SwitchInv, EncodingInv, FormatInv, Z.InStep, D.Desktop.Valid;
    var d, rest := w.unread[0], w.(unread := w.unread[1..]);
    AcceptedOk(w, d);
    assert SwitchInv(rest) && EncodingInv(rest) && FormatInv(rest) by {
      SameButUnread(w, rest);
    }
    if d.message.FramebufferUpdate? {
      UpdateStep(rest, d.message.update);
    }
  }

  lemma SameButUnread(w: World, rest: World)
    requires rest == w.(unread := rest.unread) && SwitchInv(w) && EncodingInv(w) && FormatInv(w)
    ensures SwitchInv(rest) && EncodingInv(rest) && FormatInv(rest)
  {
  }

  lemma AttemptStep(w: World)
    requires Inv(w) && Enabled(w, Attempt)
    ensures Inv(Next(w, Attempt))
  {
    if w.requested.Some? && w.t.settings.tightDisabled && TIGHT in w.t.settings.clientEncodings {
      var l := w.requested.value;
      assert OfferedFor(l, true, false) == [TIGHT] + OfferedFor(l, true, true);
    }
  }

  lemma CompletedStep(w: World, link: Link)
    requires Inv(w) && Enabled(w, Completed(link))
    ensures Inv(Next(w, Completed(link)))
  {
  }

  lemma RefusedKeeps(w: World)
    requires Inv(w)
    ensures Inv(w.(t := SwitchFailed(w.t)))
  {
    hide Z.InStep, D.Desktop.Valid, ServerOk;
  }

  lemma EndedKeeps(w: World)
    requires Inv(w)
    ensures Inv(w.(ended := true))
  {
    hide Z.InStep, D.Desktop.Valid, ServerOk;
  }

  lemma ExceptionStep(w: World, e: Event)
    requires Inv(w) && Enabled(w, e) && (e.Failed? || e.Raised?)
    ensures Inv(Next(w, e))
  {
    hide Inv;
    RefusedKeeps(w);
    EndedKeeps(w);
  }

  lemma RenamedStep(w: World, name: bytes)
    requires Inv(w) && Enabled(w, Renamed(name))
    ensures Inv(Next(w, Renamed(name)))
  {
    hide Kept, KnownOnes, Z.InStep, ServerOk;
  }

  /** Every step keeps the invariant. */
  lemma StepKeeps(w: World, e: Event)
    requires Inv(w) && Enabled(w, e)
    ensures Inv(Next(w, e))
  {
    hide Inv, Next;
    match e
    case Client(m) => ClientStep(w, m);
    case Obeys => ObeysStep(w);
    case Sends(m) => SendsStep(w, m);
    case Reads => ReadsStep(w);
    case Attempt => AttemptStep(w);
    case Completed(link) => CompletedStep(w, link);
    case Failed(_) => ExceptionStep(w, e);
    case Raised(_) => ExceptionStep(w, e);
    case Renamed(name) => RenamedStep(w, name);
  }

  // ---------------------------------------------------------------- runs

  /** ws is the sequence of worlds that the events es lead through. */
  ghost predicate IsRun(ws: seq<World>, es: seq<Event>) {
    && |ws| == |es| + 1
    && forall k :: 0 <= k < |es| ==> Enabled(ws[k], es[k]) && ws[k + 1] == Next(ws[k], es[k])
  }

  ghost predicate IsRunFrom(ws: seq<World>, es: seq<Event>, link: Link, greeter: bool) {
    IsRun(ws, es) && LinkOk(link) && ws[0] == Start(link, greeter)
  }

  /** The invariant holds in every world of every run. */
  lemma {:induction false} RunKeeps(ws: seq<World>, es: seq<Event>, link: Link, greeter: bool, k: nat)
    requires IsRunFrom(ws, es, link, greeter) && k < |ws|
    ensures Inv(ws[k])
  {
    hide Inv, Next, Enabled, Start, LinkOk;
    if k == 0 {
      StartInv(link, greeter);
    } else {
      RunKeeps(ws, es, link, greeter, k - 1);
      assert Enabled(ws[k - 1], es[k - 1]) && ws[k] == Next(ws[k - 1], es[k - 1]);
      StepKeeps(ws[k - 1], es[k - 1]);
    }
  }

  /** The world at the end of the events, if each of them may happen. */
  ghost function RunTo(w: World, es: seq<Event>): Option<World>
    decreases |es|
  {
    if es == [] then Some(w)
    else if Enabled(w, es[0]) then RunTo(Next(w, es[0]), es[1..])
    else None
  }

  lemma RunStep(w: World, e: Event, es: seq<Event>)
    requires Enabled(w, e)
    ensures RunTo(w, [e] + es) == RunTo(Next(w, e), es)
  {
  }

  lemma {:induction false} RunToKeeps(w: World, es: seq<Event>)
    requires Inv(w) && RunTo(w, es).Some?
    ensures Inv(RunTo(w, es).value)
    decreases |es|
  {
    hide Inv, Enabled, Next;
    if es != [] {
      StepKeeps(w, es[0]);
      RunToKeeps(Next(w, es[0]), es[1..]);
    }
  }

  /** The event throws something that the main loop does not survive. */
  predicate Fatal(e: Event) {
    e.Raised? || (e.Failed? && e.error != ConnectionFailed)
  }

  lemma EndsAtOnce(w: World, e: Event)
    requires Enabled(w, e)
    ensures Next(w, e).ended <==> Fatal(e)
  {
    hide ClientView, AfterAll, Z.ProcessAll, ServerOk, Accepted, Fits, Relayable;
  }

  /** MAIN RESULT. A run has disconnected the client if and only if something was
      thrown in it other than the refusal of an attempt, and that came last. */
  lemma {:induction false} EndsExactly(w: World, es: seq<Event>)
    requires !w.ended && RunTo(w, es).Some?
    ensures RunTo(w, es).value.ended <==> exists e :: e in es && Fatal(e)
    ensures forall k :: 0 <= k < |es| - 1 ==> !Fatal(es[k])
    decreases |es|
  {
    hide Possible, Next;
    if es != [] {
      var e, more := es[0], es[1..];
      EndsAtOnce(w, e);
      assert es == [e] + more;
      if Fatal(e) {
        assert more == [];
      } else {
        EndsExactly(Next(w, e), more);
        assert forall k :: 0 < k < |es| - 1 ==> es[k] == more[k - 1];
      }
    }
  }

  // ---------------------------------------------------------------- octets

  /** A client message of a run as serverward octets: clientReceive consumes it,
      leaves the settings of the next world and sends the server its image. */
  lemma ClientEventRelayed(w: World, m: ClientMessage, rest: bytes, out: bytes)
    requires Inv(w) && Enabled(w, Client(m))
    ensures MessageOk(ForServer(w.t.settings, m))
    ensures RelayClient(w.t.settings, R.Io(EncodeClient(m) + rest, out)) ==
            Success((Next(w, Client(m)).t.settings, R.Io(rest, out + EncodeClient(ForServer(w.t.settings, m)))))
  {
    hide Inv, RelayClient, EncodeClient;
    MessageRelayed(w.t.settings, m, rest, out);
  }

  /** Messages on their way from the server. */
  function Octets(ds: seq<Drawn>): bytes {
    if ds == [] then [] else EncodeServer(ds[0].message) + Octets(ds[1..])
  }

  /** A server message of a run as clientward octets: serverReceive consumes it and
      leaves the rest unread and the fields of the next world, and a standard reader
      with the client's format finds in what the client was sent what it was meant
      to find. */
  lemma ServerEventRelayed(w: World, out: bytes, tail: bytes)
    requires Inv(w) && Enabled(w, Reads)
    ensures
      var next, mine := Next(w, Reads), ForClient(w, w.unread[0].message);
      && R.RelayServer(w.t.Cfg(), w.t.nameQueued, w.t.Fields(), R.Io(Octets(w.unread), out)) ==
         Success(((next.t.nameQueued, next.t.Fields()), R.Io(Octets(next.unread), out + EncodeServer(mine))))
      && ServerOk(w.clientFormat, mine)
      && DecodeServer(w.clientFormat, EncodeServer(mine) + tail) == Some((mine, tail))
  {
    hide R.RelayServer, EncodeServer, DecodeServer, AfterAll, Z.ProcessAll, Z.InStep, EncodingInv, SwitchInv, ClientView, UpdateOk, SP.Relayable;
    var d := w.unread[0];
    assert UnreadInv(w) && ServerOk(d.pf, d.message);
    AcceptedOk(w, d);
    SP.ServerMessageRelayed(w.t.Cfg(), w.t.nameQueued, w.t.Fields(), d.message, Octets(w.unread[1..]), out);
    SP.ForClientReadsBack(w.t.Cfg(), w.t.nameQueued, w.t.Fields(), d.message, tail);
    ClientReadsAlike(w.t.settings.pf, w.clientFormat, ForClient(w, d.message));
    DecodeEncodedServer(w.clientFormat, ForClient(w, d.message), tail);
  }

  lemma SamePadded(pf: PixelFormat, other: PixelFormat)
    requires pf.Same(other)
    ensures SameFraming(pf, other) && SameFraming(other, pf)
  {
  }

  lemma ClientReadsAlike(pf: PixelFormat, other: PixelFormat, m: ServerMessage)
    requires other.Same(pf) && ServerOk(pf, m)
    ensures ServerOk(other, m)
  {
    hide UpdateOk, SameFraming, PixelFormat.Same;
    SamePadded(other, pf);
    if m.FramebufferUpdate? {
      SameFramingReadsAlike(pf, other, m.update);
    }
  }

  // ---------------------------------------------------------------- consequences

  lemma {:induction false} KeptMembers(tightDisabled: bool, l: seq<s32>, e: s32)
    ensures e in Kept(tightDisabled, l) <==> e in l && Offered(tightDisabled, e)
  {
    if l != [] {
      KeptMembers(tightDisabled, l[..|l| - 1], e);
      assert e in l <==> e in l[..|l| - 1] || e == l[|l| - 1];
    }
  }

  /** Once the client has sent its list, the server is offered, as a set, what the
      client supports, plus DesktopName, minus Tight while it is held back; and in
      the client's order, apart from a Tight released in front. */
  lemma ListsAgree(ws: seq<World>, es: seq<Event>, link: Link, greeter: bool, k: nat)
    requires IsRunFrom(ws, es, link, greeter) && k < |ws| && ws[k].requested.Some?
    ensures
      var s, l := ws[k].t.settings, ws[k].requested.value;
      && (set e | e in s.serverEncodings) ==
         s.clientEncodings + {DESKTOP_NAME} - (if s.tightDisabled then {TIGHT} else {})
      && s.serverEncodings == OfferedFor(l, ws[k].heldBack, s.tightDisabled)
      && s.serverEncodings ==
         (if ws[k].heldBack && !s.tightDisabled && 7 in l then [7] else []) +
         EL.PassedOn(ws[k].heldBack, l) + (if -307 in l then [] else [-307])
      && (forall e :: e in s.clientEncodings <==> e in l && EL.Listed(e))
  {
    RunKeeps(ws, es, link, greeter, k);
    hide IsRunFrom, Kept;
    var s, l, held := ws[k].t.settings, ws[k].requested.value, ws[k].heldBack;
    EL.KeptIsPassedOn(held, l);
    forall e
      ensures e in s.serverEncodings <==> e in s.clientEncodings + {DESKTOP_NAME} - (if s.tightDisabled then {TIGHT} else {})
    {
      KeptMembers(held, l, e);
    }
  }

  /** In every world the tunnel's format is its connection's and the client's, and
      that of the server once it has taken up everything it was told, in every field
      but the padding; the sizes of pixels and Tight pixels agree accordingly. */
  lemma FormatsAgree(ws: seq<World>, es: seq<Event>, link: Link, greeter: bool, k: nat)
    requires IsRunFrom(ws, es, link, greeter) && k < |ws|
    ensures
      var pf := ws[k].t.settings.pf;
      && FieldsAgree(ws[k].t.current.pf, pf) && FieldsAgree(ws[k].clientFormat, pf) && FieldsAgree(LastTold(ws[k]), pf)
      && ws[k].t.current.pf.Same(pf) && ws[k].clientFormat.Same(pf) && LastTold(ws[k]).Same(pf)
      && SameFraming(LastTold(ws[k]), pf) && SameFraming(ws[k].clientFormat, pf)
  {
    RunKeeps(ws, es, link, greeter, k);
    SameExactly(ws[k].t.current.pf, ws[k].t.settings.pf);
    SameExactly(ws[k].clientFormat, ws[k].t.settings.pf);
    SameExactly(LastTold(ws[k]), ws[k].t.settings.pf);
    hide SameFraming;
    SamePadded(LastTold(ws[k]), ws[k].t.settings.pf);
    SamePadded(ws[k].clientFormat, ws[k].t.settings.pf);
  }

  /** What is unread and was well formed when drawn is found by a reader with the
      tunnel's present format exactly when each of its rectangles has the same
      extent in both formats. */
  lemma UnreadFound(ws: seq<World>, es: seq<Event>, link: Link, greeter: bool, k: nat, d: Drawn, tail: bytes)
    requires IsRunFrom(ws, es, link, greeter) && k < |ws| && d in ws[k].unread && d.message.FramebufferUpdate?
    ensures
      var u := d.message.update;
      DecodeUpdate(ws[k].t.settings.pf, EncodeUpdate(u) + tail) == Some((u, tail)) <==>
        AllReadAlike(d.pf, ws[k].t.settings.pf, u.rects)
  {
    RunKeeps(ws, es, link, greeter, k);
    hide DecodeUpdate, EncodeUpdate, AllReadAlike, UpdateOk;
    assert ServerOk(d.pf, d.message);
    UnreadReadsBack(d.pf, ws[k].t.settings.pf, d.message.update, tail);
  }

  /** The client changes the size of pixels only while nothing is unread, and the
      server sends only after taking up such changes. */
  ghost predicate Calm(w: World, e: Event) {
    match e
    case Client(SetPixelFormat(_, format)) => w.unread == [] || SameFraming(w.t.settings.pf, format)
    case Sends(_) => SameFraming(w.serverFormat, LastTold(w))
    case _ => true
  }

  ghost predicate CalmRun(ws: seq<World>, es: seq<Event>) {
    IsRun(ws, es) && forall k :: 0 <= k < |es| ==> Calm(ws[k], es[k])
  }

  ghost predicate CalmInv(w: World) {
    forall d :: d in w.unread ==> SameFraming(d.pf, w.t.settings.pf)
  }

  /** Only SetPixelFormat changes the tunnel's format, and only the server adds to
      what is unread. */
  lemma FormatKept(w: World, e: Event)
    requires Enabled(w, e)
    ensures
      var next := Next(w, e);
      if e.Client? && e.message.SetPixelFormat? then next.t.settings.pf == e.message.format && next.unread == w.unread
      else next.t.settings.pf == w.t.settings.pf
           && forall d :: d in next.unread ==> d in w.unread || (e.Sends? && d == Drawn(w.serverFormat, e.sent))
  {
    hide Z.ProcessAll, ClientView, AfterAll, ServerOk, Accepted, Fits, ListFits, PixelFormat.Same;
  }

  lemma CalmStep(w: World, e: Event)
    requires FormatInv(w) && CalmInv(w) && Enabled(w, e) && Calm(w, e)
    ensures CalmInv(Next(w, e))
  {
    hide Next, Enabled, BytesPerPixel, TPixelSize, PixelFormat.Same;
    FormatKept(w, e);
    SamePadded(LastTold(w), w.t.settings.pf);
  }

  /** In calm runs the tunnel reads every update where the server wrote it: whatever
      is unread has pixels and Tight pixels of the tunnel's size, and is well formed
      in the tunnel's format. */
  lemma {:induction false} CalmUnread(ws: seq<World>, es: seq<Event>, link: Link, greeter: bool, k: nat)
    requires IsRunFrom(ws, es, link, greeter) && CalmRun(ws, es) && k < |ws|
    ensures CalmInv(ws[k])
    ensures forall d :: d in ws[k].unread ==> ServerOk(ws[k].t.settings.pf, d.message)
  {
    hide Next, Enabled, Calm, UpdateOk, SameFraming, SwitchInv, EncodingInv, UnreadInv, Z.InStep;
    if k > 0 {
      CalmUnread(ws, es, link, greeter, k - 1);
      RunKeeps(ws, es, link, greeter, k - 1);
      assert Calm(ws[k - 1], es[k - 1]);
      assert Enabled(ws[k - 1], es[k - 1]) && ws[k] == Next(ws[k - 1], es[k - 1]);
      CalmStep(ws[k - 1], es[k - 1]);
    }
    RunKeeps(ws, es, link, greeter, k);
    forall d | d in ws[k].unread ensures ServerOk(ws[k].t.settings.pf, d.message) {
      UnreadKept(ws[k], d);
      if d.message.FramebufferUpdate? {
        SameFramingReadsAlike(d.pf, ws[k].t.settings.pf, d.message.update);
      }
    }
  }

  lemma UnreadKept(w: World, d: Drawn)
    requires Inv(w) && d in w.unread
    ensures ServerOk(d.pf, d.message)
  {
  }

  function Attempts(es: seq<Event>): nat {
    if es == [] then 0 else Attempts(es[..|es| - 1]) + (if es[|es| - 1].Attempt? then 1 else 0)
  }

  function Outcomes(es: seq<Event>): nat {
    if es == [] then 0
    else Outcomes(es[..|es| - 1]) + (if es[|es| - 1].Completed? || es[|es| - 1].Failed? then 1 else 0)
  }

  /** An attempt opens the way for one outcome, and nothing else does. */
  lemma OutcomeStep(w: World, e: Event)
    requires Enabled(w, e)
    ensures !Next(w, e).ended ==>
              (Next(w, e).t.potential <==> e.Attempt? || (w.t.potential && !e.Completed? && !e.Failed?))
    ensures e.Completed? || e.Failed? ==> w.t.potential
  {
    hide AfterMessage, AfterAll, ClientView, Z.ProcessAll, ServerOk, Relayable, Accepted, Fits, PixelFormat.Same;
  }

  /** In every run there are no more outcomes than attempts, with one attempt to spare
      while one is in progress; and whenever an attempt has been made and had no outcome,
      the next outcome may be either. */
  lemma {:induction false} OutcomesNeedAttempts(ws: seq<World>, es: seq<Event>, link: Link, greeter: bool, k: nat)
    requires IsRunFrom(ws, es, link, greeter) && k <= |es|
    ensures Outcomes(es[..k]) + (if ws[k].t.potential && !ws[k].ended then 1 else 0) <= Attempts(es[..k])
    ensures k > 0 && es[k - 1].Attempt? && !ws[k].ended ==>
              Enabled(ws[k], Failed(ConnectionFailed)) && forall l :: LinkOk(l) ==> Enabled(ws[k], Completed(l))
  {
    hide Next, LinkOk, Enabled;
    if k > 0 {
      OutcomesNeedAttempts(ws, es, link, greeter, k - 1);
      assert Enabled(ws[k - 1], es[k - 1]) && ws[k] == Next(ws[k - 1], es[k - 1]);
      OutcomeStep(ws[k - 1], es[k - 1]);
      NotEnded(ws[k - 1], es[k - 1]);
      assert es[..k][..k - 1] == es[..k - 1];
      if ws[k].t.potential && !ws[k].ended {
        MayEnd(ws[k]);
      }
    } else {
      NoAttemptYet(link, greeter);
    }
  }

  lemma NotEnded(w: World, e: Event)
    requires Enabled(w, e)
    ensures !w.ended
  {
  }

  lemma MayEnd(w: World)
    requires w.t.potential && !w.ended
    ensures Enabled(w, Failed(ConnectionFailed)) && forall l :: LinkOk(l) ==> Enabled(w, Completed(l))
  {
  }

  lemma NoAttemptYet(link: Link, greeter: bool)
    ensures !Start(link, greeter).t.potential
  {
  }

  /** No run switches twice or makes up two names; every attempt and every outcome
      finds the greeter that switchToConnection and connectionSwitched assert; and
      without a greeter at the start nothing is ever switched. */
  lemma SwitchesOnce(ws: seq<World>, es: seq<Event>, link: Link, greeter: bool, k: nat)
    requires IsRunFrom(ws, es, link, greeter) && k < |ws|
    ensures ws[k].switches <= 1 && ws[k].madeUpNames <= ws[k].switches
    ensures k < |es| && (es[k].Attempt? || es[k].Completed? || es[k].Failed?) ==> ws[k].t.greeter && ws[k].switches == 0
    ensures !greeter ==> !ws[k].t.greeter && ws[k].switches == 0
  {
    RunKeeps(ws, es, link, greeter, k);
    if !greeter {
      NeverSwitches(ws, es, link, k);
    }
  }

  lemma {:induction false} NeverSwitches(ws: seq<World>, es: seq<Event>, link: Link, k: nat)
    requires IsRunFrom(ws, es, link, false) && k < |ws|
    ensures !ws[k].t.greeter && ws[k].switches == 0
  {
    if k > 0 {
      NeverSwitches(ws, es, link, k - 1);
      RunKeeps(ws, es, link, false, k - 1);
      hide Next, Enabled, EncodingInv, FormatInv, UnreadInv, Z.InStep;
      assert Enabled(ws[k - 1], es[k - 1]) && ws[k] == Next(ws[k - 1], es[k - 1]);
      NoGreeterKept(ws[k - 1], es[k - 1]);
    }
  }

  lemma NoGreeterKept(w: World, e: Event)
    requires SwitchInv(w) && Enabled(w, e) && !w.t.greeter && w.switches == 0
    ensures !Next(w, e).t.greeter && Next(w, e).switches == 0
  {
    hide AfterMessage, AfterAll, ClientView, Z.ProcessAll, ServerOk, Relayable, Accepted, Fits, PixelFormat.Same;
  }

  /** Between any two events both zlib ends are in step, as far as the tunnel has
      read: each update of a run is one that the client reads as a whole. */
  lemma ZlibAgrees(ws: seq<World>, es: seq<Event>, link: Link, greeter: bool, k: nat)
    requires IsRunFrom(ws, es, link, greeter) && k < |ws|
    ensures if ws[k].t.resetQueued then ws[k].serverZlib == Z.FRESH else ws[k].serverZlib == ws[k].clientZlib
  {
    RunKeeps(ws, es, link, greeter, k);
  }

  // ---------------------------------------------------------------- what the client is shown

  /** The event hands an update to the client. */
  predicate ReadsUpdate(w: World, e: Event) {
    e.Reads? && w.unread != [] && w.unread[0].message.FramebufferUpdate?
  }

  ghost predicate Within(rs: seq<Rect>, encodings: set<s32>) {
    forall r :: r in rs ==> Encoding(r.body) in encodings
  }

  lemma {:induction false} ImagesWithin(cfg: R.Config, f: R.Fields, rs: seq<Rect>)
    requires Within(rs, cfg.encodings + {DESKTOP_NAME}) && AllSubstitutable(cfg, rs)
    ensures Within(Images(cfg, f, rs), cfg.encodings)
    decreases |rs|
  {
    if rs != [] {
      assert rs[0] in rs && Substitutable(cfg, rs[0]);
      ImageWithin(cfg, f, rs[0]);
      assert forall r :: r in rs[1..] ==> r in rs;
      assert forall k :: 0 <= k < |rs[1..]| ==> rs[1..][k] == rs[k + 1];
      hide Image, After, Substitutable;
      ImagesWithin(cfg, After(f, rs[0]), rs[1..]);
    }
  }

  lemma ImageWithin(cfg: R.Config, f: R.Fields, r: Rect)
    requires Encoding(r.body) in cfg.encodings + {DESKTOP_NAME} && Substitutable(cfg, r)
    ensures Within(Image(cfg, f, r), cfg.encodings)
  {
  }

  /** What the tunnel reads keeps to the list it last sent, and the client does not
      retract DesktopName while a made-up name is due. */
  ghost predicate Loyal(w: World, e: Event) {
    match e
    case Reads =>
      w.unread != [] && w.unread[0].message.FramebufferUpdate? ==>
        forall r :: r in w.unread[0].message.update.rects ==> Encoding(r.body) in w.t.settings.serverEncodings
    case Client(SetEncodings(_, l)) => w.t.nameQueued ==> DESKTOP_NAME in l
    case _ => true
  }

  ghost predicate LoyalRun(ws: seq<World>, es: seq<Event>) {
    IsRun(ws, es) && forall k :: 0 <= k < |es| ==> Loyal(ws[k], es[k])
  }

  lemma QueuedNameKept(w: World, e: Event)
    requires Enabled(w, e) && Loyal(w, e)
    requires w.t.nameQueued ==> DESKTOP_NAME in w.t.settings.clientEncodings
    ensures Next(w, e).t.nameQueued ==> DESKTOP_NAME in Next(w, e).t.settings.clientEncodings
  {
    hide Kept, AfterAll, ClientView, Z.ProcessAll, ServerOk, ListFits, Accepted, Fits, PixelFormat.Same;
  }

  lemma {:induction false} QueuedNameWanted(ws: seq<World>, es: seq<Event>, link: Link, greeter: bool, k: nat)
    requires IsRunFrom(ws, es, link, greeter) && LoyalRun(ws, es) && k < |ws|
    ensures ws[k].t.nameQueued ==> DESKTOP_NAME in ws[k].t.settings.clientEncodings
  {
    hide Enabled, Next, Loyal;
    if k > 0 {
      QueuedNameWanted(ws, es, link, greeter, k - 1);
      assert Loyal(ws[k - 1], es[k - 1]);
      assert Enabled(ws[k - 1], es[k - 1]) && ws[k] == Next(ws[k - 1], es[k - 1]);
      QueuedNameKept(ws[k - 1], es[k - 1]);
    }
  }

  /** Every rectangle of every loyal run, made up, substituted or passed on, has an
      encoding the client asked for. */
  lemma AdvertisedOnly(ws: seq<World>, es: seq<Event>, link: Link, greeter: bool, k: nat)
    requires IsRunFrom(ws, es, link, greeter) && LoyalRun(ws, es) && k < |es| && ReadsUpdate(ws[k], es[k])
    ensures Within(Shown(ws[k], ws[k].unread[0].message.update), ws[k].t.settings.clientEncodings)
  {
    QueuedNameWanted(ws, es, link, greeter, k);
    RunKeeps(ws, es, link, greeter, k);
    assert Loyal(ws[k], es[k]) && Enabled(ws[k], es[k]);
    hide IsRunFrom, IsRun, LoyalRun, SwitchInv, FormatInv, UpdateOk, AllFramed, ClientView;
    ShownWithin(ws[k], ws[k].unread[0].message.update);
  }

  lemma ShownWithin(w: World, u: Update)
    requires EncodingInv(w) && AllSubstitutable(w.t.Cfg(), u.rects)
    requires w.t.nameQueued ==> DESKTOP_NAME in w.t.settings.clientEncodings
    requires forall r :: r in u.rects ==> Encoding(r.body) in w.t.settings.serverEncodings
    ensures Within(Shown(w, u), w.t.settings.clientEncodings)
  {
    hide AllSubstitutable, Images;
    forall r | r in u.rects ensures Encoding(r.body) in w.t.settings.clientEncodings + {DESKTOP_NAME} {
      if w.requested.Some? {
        KeptMembers(w.heldBack, w.requested.value, Encoding(r.body));
      }
    }
    ImagesWithin(w.t.Cfg(), w.t.Fields(), u.rects);
  }

  ghost predicate NoKeys(rs: seq<Rect>) {
    forall r :: r in rs && r.body.DesktopName? ==> !(D.KEY_PREFIX <= r.body.name)
  }

  lemma {:induction false} ImagesNoKeys(cfg: R.Config, f: R.Fields, pf: PixelFormat, rs: seq<Rect>)
    requires f.desktop.Valid() && RectsOk(pf, rs)
    ensures NoKeys(Images(cfg, f, rs))
    decreases |rs|
  {
    hide RectOk;
    if rs != [] {
      KeptByOne(pf, f, rs[0]);
      ImagesNoKeys(cfg, After(f, rs[0]), pf, rs[1..]);
    }
  }

  /** No run ever shows the client a controller key as a desktop name. */
  lemma KeysStayHidden(ws: seq<World>, es: seq<Event>, link: Link, greeter: bool, k: nat)
    requires IsRunFrom(ws, es, link, greeter) && k < |es| && ReadsUpdate(ws[k], es[k])
    ensures NoKeys(Shown(ws[k], ws[k].unread[0].message.update))
  {
    RunKeeps(ws, es, link, greeter, k);
    assert Enabled(ws[k], es[k]);
    var d := ws[k].unread[0];
    UnreadKept(ws[k], d);
    AcceptedOk(ws[k], d);
    ImagesNoKeys(ws[k].t.Cfg(), ws[k].t.Fields(), ws[k].t.settings.pf, d.message.update.rects);
  }
}
