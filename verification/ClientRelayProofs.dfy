/** Whole runs of client messages: every dispatch consumes exactly one message,
    and what the server reads is the message-by-message image of what the client
    said. */
module ClientRelayProofs {
  import opened Bytes
  import opened ClientMessages
  import opened ClientRelay
  import opened Failures
  import opened FramingProofs
  import opened Relay
  import opened Rfb
  import opened Standard
  import opened StandardCodec

  /** The settings after a message. */
  ghost function AfterMessage(s: Settings, m: ClientMessage): Settings
    requires MessageOk(m)
  {
    match m
    case SetPixelFormat(_, format) => s.(pf := format.Ntoh())
    case SetEncodings(_, encodings) => Choose(s, encodings)
    case _ => s
  }

  /** The message the server is to read in place of m. */
  ghost function ForServer(s: Settings, m: ClientMessage): ClientMessage
    requires MessageOk(m)
  {
    match m
    case SetPixelFormat(_, format) => SetPixelFormat([0, 0, 0], format.Ntoh().Hton())
    case SetEncodings(_, encodings) => SetEncodings(0, Choose(s, encodings).serverEncodings)
    case _ => m
  }

  /** Whether the server's list still fits 16 bits: it can only be too long when a
      list of full length loses nothing and has DesktopName appended. */
  ghost predicate ListFits(tightDisabled: bool, l: seq<s32>) {
    || |l| < U16_MAX
    || (|l| == U16_MAX && (DESKTOP_NAME in l || exists e :: e in l && !Offered(tightDisabled, e)))
  }

  /** What the tunnel can relay: a pixel format it does not refuse, and an
      encoding list that it can announce. Whether Tight is held back does not
      change with client messages. */
  ghost predicate Relayable(tightDisabled: bool, m: ClientMessage) {
    && MessageOk(m)
    && (m.SetPixelFormat? ==> m.format.Valid())
    && (m.SetEncodings? ==> ListFits(tightDisabled, m.encodings))
  }

  ghost predicate AllRelayable(tightDisabled: bool, ms: seq<ClientMessage>) {
    forall k :: 0 <= k < |ms| ==> Relayable(tightDisabled, ms[k])
  }

  /** A list loses nothing, or it gets shorter. */
  lemma {:induction false} KeptLength(tightDisabled: bool, l: seq<s32>)
    ensures |Kept(tightDisabled, l)| <= |l|
    ensures |Kept(tightDisabled, l)| == |l| <==> forall e :: e in l ==> Offered(tightDisabled, e)
  {
    if l != [] {
      var before := l[..|l| - 1];
      KeptLength(tightDisabled, before);
      assert forall e :: e in l <==> e in before || e == l[|l| - 1];
    }
  }

  /** The list the server is sent fits its 16-bit count exactly under ListFits. */
  lemma ListFitsExactly(s: Settings, l: seq<s32>)
    requires |l| <= U16_MAX
    ensures |Choose(s, l).serverEncodings| <= U16_MAX <==> ListFits(s.tightDisabled, l)
  {
    KeptLength(s.tightDisabled, l);
  }

  lemma ForServerOk(s: Settings, m: ClientMessage)
    requires Relayable(s.tightDisabled, m)
    ensures MessageOk(ForServer(s, m))
  {
    if m.SetEncodings? {
      ListFitsExactly(s, m.encodings);
    }
  }

  lemma NtohKeepsShape(pf: PixelFormat)
    requires pf.WellSized()
    ensures pf.Ntoh().WellSized() && pf.Ntoh().Hton().WellSized() && pf.Ntoh().Valid() == pf.Valid()
  {
  }

  lemma FormatCut(m: ClientMessage)
    requires m.SetPixelFormat? && MessageOk(m)
    ensures |EncodeClient(m)| == 20 && EncodeClient(m)[4..] == m.format.Bytes()
    ensures EncodeClient(m) == [SET_PIXEL_FORMAT] + m.padding + m.format.Bytes()
  {
  }

  lemma FormatRelayed(s: Settings, m: ClientMessage, rest: bytes, out: bytes)
    requires m.SetPixelFormat? && Relayable(s.tightDisabled, m)
    ensures MessageOk(ForServer(s, m))
    ensures RelaySetPixelFormat(s, Io(EncodeClient(m) + rest, out))
            == Success((AfterMessage(s, m), Io(rest, out + EncodeClient(ForServer(s, m)))))
  {
    hide PixelFormat.Bytes, PixelFormat.Ntoh, PixelFormat.Hton, Take;
    var b := EncodeClient(m);
    TakeAppend(b, rest, out);
    FormatCut(m);
    FormatReadsBack(m.format);
    NtohKeepsShape(m.format);
    FormatCut(ForServer(s, m));
    assert [SET_PIXEL_FORMAT] + [0, 0, 0] == [SET_PIXEL_FORMAT, 0, 0, 0];
  }

  lemma EncodingsBytes(spare: byte, l: seq<s32>)
    requires |l| <= U16_MAX
    ensures EncodeClient(SetEncodings(spare, l)) == [SET_ENCODINGS, spare] + PutU16(|l|) + EncodeList(l)
    ensures ([SET_ENCODINGS, spare] + PutU16(|l|))[2..] == PutU16(|l|)
  {
    hide PutU16, EncodeList;
    FlattenHead(SET_ENCODINGS, spare, PutU16(|l|), EncodeList(l));
  }

  lemma FlattenHead(a: byte, b: byte, count: bytes, list: bytes)
    ensures [a] + ([b] + (count + list)) == [a, b] + count + list
  {
  }

  lemma EncodingsRelayed(s: Settings, m: ClientMessage, rest: bytes, out: bytes)
    requires m.SetEncodings? && Relayable(s.tightDisabled, m)
    ensures MessageOk(ForServer(s, m))
    ensures RelaySetEncodings(s, Io(EncodeClient(m) + rest, out))
            == Success((AfterMessage(s, m), Io(rest, out + EncodeClient(ForServer(s, m)))))
  {
    hide PutU16, GetU16, Choose, EncodeList, DecodeList, EncodeClient, Take;
    ForServerOk(s, m);
    var head, list := [SET_ENCODINGS, m.spare] + PutU16(|m.encodings|), EncodeList(m.encodings);
    EncodingsBytes(m.spare, m.encodings);
    EncodingsBytes(0, Choose(s, m.encodings).serverEncodings);
    TakeSecond(head, list, rest, out);
    TakeAppend(list, rest, out);
    ListReadsBack(m.encodings);
  }

  lemma TextRelayed(s: Settings, m: ClientMessage, rest: bytes, out: bytes)
    requires m.ClientCutText? && MessageOk(m)
    ensures RelayCutText(s, Io(EncodeClient(m) + rest, out)) == Success((s, Io(rest, out + EncodeClient(m))))
  {
    hide PutU32, GetU32, Copy, Forward, Take;
    var length := PutU32(|m.text|);
    var head := [CLIENT_CUT_TEXT] + m.padding + length;
    TextShape(CLIENT_CUT_TEXT, m.padding, length, m.text);
    TakeSecond(head, m.text, rest, out);
  }

  lemma TextShape(kind: byte, padding: bytes, length: bytes, text: bytes)
    requires |padding| == 3
    ensures [kind] + (padding + (length + text)) == [kind] + padding + length + text
    ensures ([kind] + padding + length)[4..] == length
  {
  }

  lemma ScreensRelayed(s: Settings, m: ClientMessage, rest: bytes, out: bytes)
    requires m.SetDesktopSize? && MessageOk(m)
    ensures RelaySetDesktopSize(s, Io(EncodeClient(m) + rest, out)) == Success((s, Io(rest, out + EncodeClient(m))))
  {
    hide Copy, Forward, Take;
    var head := [SET_DESKTOP_SIZE] + m.size + [m.screens, m.spare];
    ScreensShape(SET_DESKTOP_SIZE, m.size, m.screens, m.spare, m.layout);
    TakeSecond(head, m.layout, rest, out);
  }

  lemma ScreensShape(kind: byte, size: bytes, screens: byte, spare: byte, layout: bytes)
    requires |size| == 5
    ensures [kind] + (size + ([screens] + ([spare] + layout))) == [kind] + size + [screens, spare] + layout
    ensures ([kind] + size + [screens, spare])[6] == screens
  {
  }

  lemma TakeFirst(m: ClientMessage, rest: bytes, out: bytes)
    requires MessageOk(m)
    ensures Take(Io(EncodeClient(m) + rest, out), 1).Success?
    ensures Take(Io(EncodeClient(m) + rest, out), 1).value.0 == [Kind(m)]
  {
  }

  /** One dispatch consumes one message and sends its image. */
  lemma MessageRelayed(s: Settings, m: ClientMessage, rest: bytes, out: bytes)
    requires Relayable(s.tightDisabled, m)
    ensures MessageOk(ForServer(s, m))
    ensures RelayClient(s, Io(EncodeClient(m) + rest, out))
            == Success((AfterMessage(s, m), Io(rest, out + EncodeClient(ForServer(s, m)))))
  {
    hide RelaySetPixelFormat, RelaySetEncodings, RelayCutText, RelaySetDesktopSize, Choose, EncodeClient, Take;
    TakeFirst(m, rest, out);
    match m
    case SetPixelFormat(_, _) => FormatRelayed(s, m, rest, out);
    case SetEncodings(_, _) => EncodingsRelayed(s, m, rest, out);
    case ClientCutText(_, _) => TextRelayed(s, m, rest, out);
    case SetDesktopSize(_, _, _, _) => ScreensRelayed(s, m, rest, out);
    case _ =>
      TakeAppend(EncodeClient(m), rest, out);
      FixedLength(m);
  }

  lemma FixedLength(m: ClientMessage)
    requires MessageOk(m)
    ensures m.FramebufferUpdateRequest? ==> |EncodeClient(m)| == 10
    ensures m.KeyEvent? ==> |EncodeClient(m)| == 8
    ensures m.PointerEvent? ==> |EncodeClient(m)| == 6
  {
  }

  lemma StillHeldBack(s: Settings, m: ClientMessage)
    requires MessageOk(m)
    ensures AfterMessage(s, m).tightDisabled == s.tightDisabled
  {
  }

  ghost function AfterMessages(s: Settings, ms: seq<ClientMessage>): Settings
    requires AllRelayable(s.tightDisabled, ms)
    decreases |ms|
  {
    if ms == [] then s else AfterMessages(AfterMessage(s, ms[0]), ms[1..])
  }

  ghost function AllForServer(s: Settings, ms: seq<ClientMessage>): seq<ClientMessage>
    requires AllRelayable(s.tightDisabled, ms)
    decreases |ms|
  {
    if ms == [] then [] else [ForServer(s, ms[0])] + AllForServer(AfterMessage(s, ms[0]), ms[1..])
  }

  lemma {:induction false} AllForServerOk(s: Settings, ms: seq<ClientMessage>)
    requires AllRelayable(s.tightDisabled, ms)
    ensures MessagesOk(ms)
    ensures MessagesOk(AllForServer(s, ms)) && |AllForServer(s, ms)| == |ms|
    decreases |ms|
  {
    hide MessageOk, ForServer, AfterMessage;
    if ms != [] {
      ForServerOk(s, ms[0]);
      StillHeldBack(s, ms[0]);
      AllForServerOk(AfterMessage(s, ms[0]), ms[1..]);
      forall k | 0 <= k < |ms| ensures MessageOk(ms[k]) {
        assert Relayable(s.tightDisabled, ms[k]);
      }
    }
  }

  /** A whole run on the octet level. */
  lemma {:induction false} RunRelayed(s: Settings, ms: seq<ClientMessage>, rest: bytes, out: bytes)
    requires AllRelayable(s.tightDisabled, ms)
    ensures MessagesOk(ms) && MessagesOk(AllForServer(s, ms))
    ensures RelayClients(s, |ms|, Io(EncodeClients(ms) + rest, out))
            == Success((AfterMessages(s, ms), Io(rest, out + EncodeClients(AllForServer(s, ms)))))
    decreases |ms|
  {
    hide MessageOk, ForServer, AfterMessage, EncodeClient, RelayClient;
    AllForServerOk(s, ms);
    if ms == [] {
      assert EncodeClients(ms) + rest == rest && out + EncodeClients(AllForServer(s, ms)) == out;
    } else {
      var m, more := ms[0], ms[1..];
      var s1, image := AfterMessage(s, m), ForServer(s, m);
      Regroup(EncodeClient(m), EncodeClients(more), rest);
      MessageRelayed(s, m, EncodeClients(more) + rest, out);
      StillHeldBack(s, m);
      RunRelayed(s1, more, rest, out + EncodeClient(image));
      var images := AllForServer(s1, more);
      assert AllForServer(s, ms) == [image] + images && AllForServer(s, ms)[1..] == images;
      Regroup(out, EncodeClient(image), EncodeClients(images));
    }
  }

  /** MAIN RESULT. Whenever the standard reads n relayable messages from the
      client's octets, n dispatches consume exactly those, and the standard reads
      from what the server was sent exactly their images, in order, followed by
      whatever is sent next. */
  lemma RunPreserved(s: Settings, n: nat, input: bytes, ms: seq<ClientMessage>, rest: bytes, tail: bytes)
    requires DecodeClients(n, input) == Some((ms, rest)) && AllRelayable(s.tightDisabled, ms)
    ensures
      var run := RelayClients(s, n, Io(input, []));
      && run.Success?
      && run.value.0 == AfterMessages(s, ms)
      && run.value.1.input == rest
      && DecodeClients(n, run.value.1.output + tail) == Some((AllForServer(s, ms), tail))
  {
    hide DecodeClients, RelayClients, EncodeClients, AfterMessages, AllForServer;
    EncodeDecodedClients(n, input, ms, rest);
    RunRelayed(s, ms, rest, []);
    AllForServerOk(s, ms);
    assert [] + EncodeClients(AllForServer(s, ms)) == EncodeClients(AllForServer(s, ms));
    DecodeEncodedClients(AllForServer(s, ms), tail);
  }

  /** A format passes through unchanged exactly when it is little-endian. */
  lemma FormatUnchanged(pf: PixelFormat)
    requires pf.WellSized()
    ensures pf.Ntoh().Hton() == pf <==> pf.bigEndianFlag == 0
  {
  }

  /** What the server then reads in the announcement: the length of the list,
      exactly when it fits, and 0 otherwise. */
  lemma AnnouncedCount(s: Settings, l: seq<s32>)
    requires |l| <= U16_MAX
    ensures
      var sent := Choose(s, l).serverEncodings;
      GetU16(SetEncodingsBytes(sent)[2..4]) == if ListFits(s.tightDisabled, l) then |sent| else 0
  {
    hide Choose, EncodeList, PutU16, GetU16, ListFits;
    var sent := Choose(s, l).serverEncodings;
    ListFitsExactly(s, l);
    assert |sent| <= U16_MAX + 1 by {
      KeptLength(s.tightDisabled, l);
      ChosenLength(s, l);
    }
    assert SetEncodingsBytes(sent)[2..4] == PutU16(|sent| % 0x1_0000);
  }

  lemma ChosenLength(s: Settings, l: seq<s32>)
    ensures |Choose(s, l).serverEncodings| <= |Kept(s.tightDisabled, l)| + 1
  {
  }

  /** Such lists exist: one of full length without DesktopName and with nothing to
      filter out is announced to the server with a count of zero. */
  lemma FullListTruncated(s: Settings, l: seq<s32>)
    requires |l| == U16_MAX && (forall e :: e in l ==> Offered(s.tightDisabled, e)) && DESKTOP_NAME !in l
    ensures |Choose(s, l).serverEncodings| == 0x1_0000
    ensures SetEncodingsBytes(Choose(s, l).serverEncodings)[2..4] == [0, 0]
  {
    KeptLength(s.tightDisabled, l);
  }
}
