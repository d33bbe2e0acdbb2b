/** What runs of a tunnel look like from outside: the stream of octets each peer
    receives, across format changes and a switch. */
module TunnelStreams {
  import opened Bytes
  import opened ClientMessages
  import opened ClientRelay
  import opened ClientRelayProofs
  import opened Failures
  import opened FormatFraming
  import opened FramingProofs
  import opened Intended
  import R = Relay
  import opened Rfb
  import opened ServerMessages
  import SP = ServerRelayProofs
  import opened Standard
  import opened StandardCodec
  import opened Switching
  import opened TunnelRun
  import opened UpdateProofs
  import Z = ZlibStreams

  // ---------------------------------------------------------------- the client's stream

  /** Everything serverReceive has sent the client in the first k events. */
  ghost function ToClient(ws: seq<World>, es: seq<Event>, k: nat): bytes
    requires IsRun(ws, es) && k <= |es|
  {
    if k == 0 then []
    else
      var w, sent := ws[k - 1], ToClient(ws, es, k - 1);
      if !es[k - 1].Reads? then sent
      else
        match R.RelayServer(w.t.Cfg(), w.t.nameQueued, w.t.Fields(), R.Io(Octets(w.unread), sent))
        case Success(v) => v.1.output
        case Failure(_) => sent
  }

  /** The messages the client is meant to find in it. */
  ghost function Seen(ws: seq<World>, es: seq<Event>, k: nat): seq<ServerMessage>
    requires IsRun(ws, es) && k <= |es|
  {
    if k == 0 then []
    else if es[k - 1].Reads? && ws[k - 1].unread != [] then
      Seen(ws, es, k - 1) + [ForClient(ws[k - 1], ws[k - 1].unread[0].message)]
    else Seen(ws, es, k - 1)
  }

  /** The client's format when each of them was sent. */
  ghost function Formats(ws: seq<World>, es: seq<Event>, k: nat): seq<PixelFormat>
    requires IsRun(ws, es) && k <= |es|
  {
    if k == 0 then []
    else if es[k - 1].Reads? && ws[k - 1].unread != [] then Formats(ws, es, k - 1) + [ws[k - 1].clientFormat]
    else Formats(ws, es, k - 1)
  }

  lemma {:induction false} ToClientMeans(ws: seq<World>, es: seq<Event>, link: Link, greeter: bool, k: nat)
    requires IsRunFrom(ws, es, link, greeter) && k <= |es|
    ensures ToClient(ws, es, k) == EncodeServers(Seen(ws, es, k))
    ensures ServersOk(Formats(ws, es, k), Seen(ws, es, k))
  {
    hide Inv, Next, Enabled, ServerOk, EncodeServer, ForClient, R.RelayServer, LinkOk, Start, DecodeServer;
    if k > 0 {
      ToClientMeans(ws, es, link, greeter, k - 1);
      RunKeeps(ws, es, link, greeter, k - 1);
      var w, sent := ws[k - 1], ToClient(ws, es, k - 1);
      assert Enabled(w, es[k - 1]) && ws[k] == Next(w, es[k - 1]);
      if es[k - 1].Reads? {
        UnreadIsThere(w);
        ServerEventRelayed(w, sent, []);
        var mine := ForClient(w, w.unread[0].message);
        EncodeServersAppend(Seen(ws, es, k - 1), [mine]);
        assert EncodeServers([mine]) == EncodeServer(mine) + EncodeServers([]) == EncodeServer(mine);
      }
    }
  }

  lemma UnreadIsThere(w: World)
    requires Enabled(w, Reads)
    ensures w.unread != []
  {
  }

  /** MAIN RESULT. In every run, across format changes and a switch: a standard
      reader of everything the client was sent, using for each message the client's
      format of that moment, finds exactly the intended messages in order, and then
      whatever is sent next. */
  lemma ClientStreamReads(ws: seq<World>, es: seq<Event>, link: Link, greeter: bool, k: nat, tail: bytes)
    requires IsRunFrom(ws, es, link, greeter) && k <= |es|
    ensures DecodeServers(Formats(ws, es, k), ToClient(ws, es, k) + tail) == Some((Seen(ws, es, k), tail))
  {
    hide IsRun, LinkOk, Start, ToClient, Seen, Formats, DecodeServers, EncodeServers;
    ToClientMeans(ws, es, link, greeter, k);
    DecodeEncodedServers(Formats(ws, es, k), Seen(ws, es, k), tail);
  }

  // ---------------------------------------------------------------- the list at a switch

  /** Whether the list for l can still be announced once Tight is no longer held
      back. */
  ghost predicate ReleasedFits(heldBack: bool, l: seq<s32>) {
    || |l| < U16_MAX
    || DESKTOP_NAME in l
    || (exists e :: e in l && !Known(e))
    || (heldBack && multiset(l)[TIGHT] >= 2)
  }

  lemma {:induction false} KeptCount(l: seq<s32>)
    ensures |Kept(true, l)| + multiset(l)[TIGHT] <= |l|
    ensures |Kept(true, l)| + multiset(l)[TIGHT] == |l| <==> forall e :: e in l ==> Known(e)
  {
    if l != [] {
      var before, last := l[..|l| - 1], l[|l| - 1];
      KeptCount(before);
      assert l == before + [last];
      assert forall e :: e in l <==> e in before || e == last;
    }
  }

  lemma AllKept(l: seq<s32>)
    ensures |Kept(false, l)| <= |l|
    ensures |Kept(false, l)| == |l| <==> forall e :: e in l ==> Known(e)
  {
    KeptLength(false, l);
    assert forall e :: Offered(false, e) == Known(e);
  }

  /** The list a new server is sent fits its count exactly under ReleasedFits: a full
      list that could be announced only because Tight was held back cannot be once
      Tight is released. */
  lemma ReleasedFitsExactly(heldBack: bool, l: seq<s32>)
    requires |l| <= U16_MAX
    ensures |OfferedFor(l, heldBack, false)| <= U16_MAX <==> ReleasedFits(heldBack, l)
  {
    KeptCount(l);
    AllKept(l);
    if TIGHT !in l {
      SameKept(l);
    }
  }

  lemma {:induction false} SameKept(l: seq<s32>)
    requires TIGHT !in l
    ensures Kept(true, l) == Kept(false, l)
  {
    if l != [] {
      assert l[|l| - 1] in l;
      SameKept(l[..|l| - 1]);
    }
  }

  /** Such lists exist: Tight, and then Raw up to the full length, is announced while
      Tight is held back, and overflows the count at the switch. */
  lemma ReleasedListOverflows()
    ensures
      var l := [TIGHT] + seq(U16_MAX - 1, _ => RAW);
      && ListFits(true, l) && |OfferedFor(l, true, true)| <= U16_MAX
      && |OfferedFor(l, true, false)| == 0x1_0000
      && SetEncodingsBytes(OfferedFor(l, true, false))[2..4] == [0, 0]
  {
    var raws := seq(U16_MAX - 1, _ => RAW);
    var l := [TIGHT] + raws;
    OnlyRaw(U16_MAX - 1);
    assert multiset(l) == multiset([TIGHT]) + multiset(raws);
    assert l[0] == TIGHT && !Offered(true, TIGHT);
    KeptCount(l);
    assert forall e :: e in l ==> e == TIGHT || e == RAW;
    assert |Kept(true, l)| == U16_MAX - 1;
  }

  lemma OnlyRaw(n: nat)
    ensures multiset(seq(n, _ => RAW))[TIGHT] == 0
  {
    assert TIGHT !in seq(n, _ => RAW);
  }

  // ---------------------------------------------------------------- the server's stream

  /** What SwitchBytes says. */
  ghost function SwitchMessages(s: Settings, link: Link): seq<ClientMessage> {
    (if FieldsAgree(link.pf, s.pf) then [] else [SetPixelFormat([0, 0, 0], s.pf.Hton())]) +
    [SetEncodings(0, s.serverEncodings)] +
    [FramebufferUpdateRequest([0] + PutU16(0) + PutU16(0) + PutU16(link.width) + PutU16(link.height))]
  }

  lemma {:induction false} EncodeClientsAppend(a: seq<ClientMessage>, b: seq<ClientMessage>)
    requires MessagesOk(a) && MessagesOk(b)
    ensures MessagesOk(a + b) && EncodeClients(a + b) == EncodeClients(a) + EncodeClients(b)
  {
    hide EncodeClient, MessageOk;
    if a == [] {
      assert a + b == b;
    } else {
      assert (a + b)[1..] == a[1..] + b;
      EncodeClientsAppend(a[1..], b);
    }
  }

  lemma EncodeOneClient(m: ClientMessage)
    requires MessageOk(m)
    ensures MessagesOk([m]) && EncodeClients([m]) == EncodeClient(m)
  {
    hide EncodeClient, MessageOk;
    assert EncodeClients([m]) == EncodeClient(m) + EncodeClients([]);
  }

  lemma FormatSaid(pf: PixelFormat)
    requires pf.WellSized()
    ensures MessageOk(SetPixelFormat([0, 0, 0], pf.Hton())) && EncodeClient(SetPixelFormat([0, 0, 0], pf.Hton())) == SetPixelFormatBytes(pf)
  {
  }

  lemma RequestSaid(width: u16, height: u16)
    ensures
      var m := FramebufferUpdateRequest([0] + PutU16(0) + PutU16(0) + PutU16(width) + PutU16(height));
      MessageOk(m) && EncodeClient(m) == FullUpdateRequest(width, height)
  {
    hide PutU16;
  }

  /** A server that is told of a switch reads the client's format, if it has
      another one, the list of encodings, and a request for everything -- provided
      the list can be announced. */
  lemma SwitchSaid(s: Settings, link: Link)
    requires s.pf.WellSized() && |s.serverEncodings| <= U16_MAX
    ensures MessagesOk(SwitchMessages(s, link)) && EncodeClients(SwitchMessages(s, link)) == SwitchBytes(s, link)
  {
    hide SetPixelFormatBytes, SetEncodingsBytes, FullUpdateRequest, EncodeClient, MessageOk, PutU16, PixelFormat.Same, EncodeList, FieldsAgree;
    var format, list := SetPixelFormat([0, 0, 0], s.pf.Hton()), SetEncodings(0, s.serverEncodings);
    var request := FramebufferUpdateRequest([0] + PutU16(0) + PutU16(0) + PutU16(link.width) + PutU16(link.height));
    SameExactly(link.pf, s.pf);
    FormatSaid(s.pf);
    ListSaid(s.serverEncodings);
    RequestSaid(link.width, link.height);
    EncodeOneClient(format);
    EncodeOneClient(list);
    EncodeOneClient(request);
    var first := if FieldsAgree(link.pf, s.pf) then [] else [format];
    EncodeClientsAppend(first, [list]);
    EncodeClientsAppend(first + [list], [request]);
  }

  lemma ListSaid(l: seq<s32>)
    requires |l| <= U16_MAX
    ensures MessageOk(SetEncodings(0, l)) && EncodeClient(SetEncodings(0, l)) == SetEncodingsBytes(l)
  {
    hide PutU16, EncodeList;
    EncodingsBytes(0, l);
  }

  /** Everything clientReceive has sent the server that is current after k events,
      from the end of its handshake on. */
  ghost function ToServer(ws: seq<World>, es: seq<Event>, link: Link, greeter: bool, k: nat): bytes
    requires IsRunFrom(ws, es, link, greeter) && k <= |es|
  {
    if k == 0 then []
    else
      var w, sent := ws[k - 1], ToServer(ws, es, link, greeter, k - 1);
      RunKeeps(ws, es, link, greeter, k - 1);
      assert Enabled(w, es[k - 1]);
      match es[k - 1]
      case Client(m) =>
        (match RelayClient(w.t.settings, R.Io(EncodeClient(m), sent))
         case Success(v) => v.1.output
         case Failure(_) => sent)
      case Completed(potential) => SwitchBytes(w.t.settings, potential)
      case _ => sent
  }

  /** The messages that server is meant to find in it. */
  ghost function Heard(ws: seq<World>, es: seq<Event>, k: nat): seq<ClientMessage>
    requires IsRun(ws, es) && k <= |es|
  {
    if k == 0 then []
    else
      assert Enabled(ws[k - 1], es[k - 1]);
      match es[k - 1]
      case Client(m) => Heard(ws, es, k - 1) + [ForServer(ws[k - 1].t.settings, m)]
      case Completed(potential) => SwitchMessages(ws[k - 1].t.settings, potential)
      case _ => Heard(ws, es, k - 1)
  }

  /** The list passed on at a switch can be announced. */
  ghost predicate SwitchesFit(ws: seq<World>, es: seq<Event>) {
    forall k :: 0 <= k < |es| && k < |ws| && es[k].Completed? && ws[k].requested.Some? ==>
      ReleasedFits(ws[k].heldBack, ws[k].requested.value)
  }

  lemma SwitchFits(w: World)
    requires SwitchInv(w) && EncodingInv(w) && w.t.potential
    ensures |w.t.settings.serverEncodings| <= U16_MAX <==> w.requested.None? || ReleasedFits(w.heldBack, w.requested.value)
  {
    if w.requested.Some? {
      ReleasedFitsExactly(w.heldBack, w.requested.value);
    }
  }

  lemma {:induction false} ToServerMeans(ws: seq<World>, es: seq<Event>, link: Link, greeter: bool, k: nat)
    requires IsRunFrom(ws, es, link, greeter) && SwitchesFit(ws, es) && k <= |es|
    ensures MessagesOk(Heard(ws, es, k)) && ToServer(ws, es, link, greeter, k) == EncodeClients(Heard(ws, es, k))
  {
    hide Next, SwitchBytes, SwitchMessages, EncodeClient, MessageOk, RelayClient, ForServer, SwitchInv, EncodingInv, UnreadInv, Z.InStep, ReleasedFits;
    if k > 0 {
      ToServerMeans(ws, es, link, greeter, k - 1);
      RunKeeps(ws, es, link, greeter, k - 1);
      var w, sent := ws[k - 1], ToServer(ws, es, link, greeter, k - 1);
      assert Enabled(w, es[k - 1]);
      match es[k - 1]
      case Client(m) =>
        assert EncodeClient(m) + [] == EncodeClient(m);
        ClientEventRelayed(w, m, [], sent);
        EncodeOneClient(ForServer(w.t.settings, m));
        EncodeClientsAppend(Heard(ws, es, k - 1), [ForServer(w.t.settings, m)]);
      case Completed(potential) =>
        SwitchFits(w);
        SwitchSaid(w.t.settings, potential);
      case _ =>
    }
  }

  /** MAIN RESULT. In every run whose lists can be announced: a standard reader of
      everything the current server was sent finds exactly the images of the client's
      messages, behind what the switch had to say if there was one, and then whatever
      is sent next. */
  lemma ServerStreamReads(ws: seq<World>, es: seq<Event>, link: Link, greeter: bool, k: nat, tail: bytes)
    requires IsRunFrom(ws, es, link, greeter) && SwitchesFit(ws, es) && k <= |es|
    ensures DecodeClients(|Heard(ws, es, k)|, ToServer(ws, es, link, greeter, k) + tail) == Some((Heard(ws, es, k), tail))
  {
    hide IsRun, LinkOk, Start, ToServer, Heard, DecodeClients, EncodeClients, SwitchesFit;
    ToServerMeans(ws, es, link, greeter, k);
    DecodeEncodedClients(Heard(ws, es, k), tail);
  }
}
