/** The messages a client may send, read from the standard: section 7.5 of
    RFC 6143, and SetDesktopSize of the community RFB specification. */
module ClientMessages {
  import opened Bytes
  import opened Failures
  import opened Rfb
  import opened Standard
  import opened StandardCodec

  datatype ClientMessage =
    | SetPixelFormat(padding: bytes, format: PixelFormat)
    | SetEncodings(spare: byte, encodings: seq<s32>)
    | FramebufferUpdateRequest(fields: bytes)
    | KeyEvent(fields: bytes)
    | PointerEvent(fields: bytes)
    | ClientCutText(padding: bytes, text: bytes)
    | SetDesktopSize(size: bytes, screens: byte, spare: byte, layout: bytes)

  // ---------------------------------------------------------------- lists of encodings

  function EncodeList(l: seq<s32>): (b: bytes)
    ensures |b| == 4 * |l|
  {
    if l == [] then [] else PutU32(ToUnsigned(l[0])) + EncodeList(l[1..])
  }

  function DecodeList(b: bytes): (l: seq<s32>)
    requires |b| % 4 == 0
    ensures |l| == |b| / 4
  {
    if b == [] then [] else [ToSigned(GetU32(b[..4]))] + DecodeList(b[4..])
  }

  lemma {:induction false} ListReadsBack(l: seq<s32>)
    ensures DecodeList(EncodeList(l)) == l
  {
    if l != [] {
      CutPrefix(PutU32(ToUnsigned(l[0])), EncodeList(l[1..]));
      ListReadsBack(l[1..]);
    }
  }

  lemma {:induction false} ListRoundTrip(b: bytes)
    requires |b| % 4 == 0
    ensures EncodeList(DecodeList(b)) == b
  {
    if b != [] {
      PutGetU32(b[..4]);
      ListRoundTrip(b[4..]);
      var l := DecodeList(b);
      assert l[1..] == DecodeList(b[4..]);
      assert ToUnsigned(l[0]) == GetU32(b[..4]);
      assert b == b[..4] + b[4..];
    }
  }

  // ---------------------------------------------------------------- decoding

  function DecodeSetPixelFormat(input: bytes): Option<(ClientMessage, bytes)> {
    var (padding, afterPadding) :- Read(input, 3);
    var (format, rest) :- Read(afterPadding, 16);
    Some((SetPixelFormat(padding, ReadPixelFormat(format)), rest))
  }

  function DecodeSetEncodings(input: bytes): Option<(ClientMessage, bytes)> {
    var (padding, afterPadding) :- Read(input, 1);
    var (count, afterCount) :- Read(afterPadding, 2);
    var (list, rest) :- Read(afterCount, 4 * GetU16(count));
    Some((SetEncodings(padding[0], DecodeList(list)), rest))
  }

  function DecodeClientCutText(input: bytes): Option<(ClientMessage, bytes)> {
    var (padding, afterPadding) :- Read(input, 3);
    var (length, afterLength) :- Read(afterPadding, 4);
    var (text, rest) :- Read(afterLength, GetU32(length));
    Some((ClientCutText(padding, text), rest))
  }

  function DecodeSetDesktopSize(input: bytes): Option<(ClientMessage, bytes)> {
    var (size, afterSize) :- Read(input, 5);
    var (screens, afterScreens) :- Read(afterSize, 1);
    var (padding, afterPadding) :- Read(afterScreens, 1);
    var (layout, rest) :- Read(afterPadding, 16 * (screens[0] as int));
    Some((SetDesktopSize(size, screens[0], padding[0], layout), rest))
  }

  function DecodeClient(input: bytes): Option<(ClientMessage, bytes)> {
    var (kind, afterKind) :- Read(input, 1);
    if kind[0] == SET_PIXEL_FORMAT then DecodeSetPixelFormat(afterKind)
    else if kind[0] == SET_ENCODINGS then DecodeSetEncodings(afterKind)
    else if kind[0] == FRAMEBUFFER_UPDATE_REQUEST then
      var (fields, rest) :- Read(afterKind, 9);
      Some((FramebufferUpdateRequest(fields), rest))
    else if kind[0] == KEY_EVENT then
      var (fields, rest) :- Read(afterKind, 7);
      Some((KeyEvent(fields), rest))
    else if kind[0] == POINTER_EVENT then
      var (fields, rest) :- Read(afterKind, 5);
      Some((PointerEvent(fields), rest))
    else if kind[0] == CLIENT_CUT_TEXT then DecodeClientCutText(afterKind)
    else if kind[0] == SET_DESKTOP_SIZE then DecodeSetDesktopSize(afterKind)
    else None
  }

  function DecodeClients(n: nat, input: bytes): Option<(seq<ClientMessage>, bytes)> {
    if n == 0 then
      Some(([], input))
    else
      var (m, afterMessage) :- DecodeClient(input);
      var (ms, rest) :- DecodeClients(n - 1, afterMessage);
      Some(([m] + ms, rest))
  }

  // ---------------------------------------------------------------- encoding

  ghost predicate MessageOk(m: ClientMessage) {
    match m
    case SetPixelFormat(padding, format) => |padding| == 3 && format.WellSized()
    case SetEncodings(_, encodings) => |encodings| <= U16_MAX
    case FramebufferUpdateRequest(fields) => |fields| == 9
    case KeyEvent(fields) => |fields| == 7
    case PointerEvent(fields) => |fields| == 5
    case ClientCutText(padding, text) => |padding| == 3 && |text| < 0x1_0000_0000
    case SetDesktopSize(size, screens, _, layout) => |size| == 5 && |layout| == 16 * screens
  }

  ghost predicate MessagesOk(ms: seq<ClientMessage>) {
    forall k :: 0 <= k < |ms| ==> MessageOk(ms[k])
  }

  function Kind(m: ClientMessage): byte {
    match m
    case SetPixelFormat(_, _) => SET_PIXEL_FORMAT
    case SetEncodings(_, _) => SET_ENCODINGS
    case FramebufferUpdateRequest(_) => FRAMEBUFFER_UPDATE_REQUEST
    case KeyEvent(_) => KEY_EVENT
    case PointerEvent(_) => POINTER_EVENT
    case ClientCutText(_, _) => CLIENT_CUT_TEXT
    case SetDesktopSize(_, _, _, _) => SET_DESKTOP_SIZE
  }

  ghost function MessageBody(m: ClientMessage): bytes
    requires MessageOk(m)
  {
    match m
    case SetPixelFormat(padding, format) => padding + format.Bytes()
    case SetEncodings(padding, encodings) => [padding] + (PutU16(|encodings|) + EncodeList(encodings))
    case FramebufferUpdateRequest(fields) => fields
    case KeyEvent(fields) => fields
    case PointerEvent(fields) => fields
    case ClientCutText(padding, text) => padding + (PutU32(|text|) + text)
    case SetDesktopSize(size, screens, padding, layout) => size + ([screens] + ([padding] + layout))
  }

  ghost function EncodeClient(m: ClientMessage): bytes
    requires MessageOk(m)
  {
    [Kind(m)] + MessageBody(m)
  }

  ghost function EncodeClients(ms: seq<ClientMessage>): bytes
    requires MessagesOk(ms)
  {
    if ms == [] then [] else EncodeClient(ms[0]) + EncodeClients(ms[1..])
  }

  // ---------------------------------------------------------------- the codec is a bijection

  lemma DecodeEncodedClient(m: ClientMessage, tail: bytes)
    requires MessageOk(m)
    ensures DecodeClient(EncodeClient(m) + tail) == Some((m, tail))
  {
    hide PutU16, GetU16, PutU32, GetU32;
    ReadPair([Kind(m)], MessageBody(m), tail);
    match m
    case SetPixelFormat(padding, format) =>
      ReadPair(padding, format.Bytes(), tail);
      ReadAppend(format.Bytes(), tail);
      FormatReadsBack(format);
    case SetEncodings(padding, encodings) =>
      ReadPair([padding], PutU16(|encodings|) + EncodeList(encodings), tail);
      ReadPair(PutU16(|encodings|), EncodeList(encodings), tail);
      ReadAppend(EncodeList(encodings), tail);
      ListReadsBack(encodings);
    case ClientCutText(padding, text) =>
      ReadPair(padding, PutU32(|text|) + text, tail);
      ReadPair(PutU32(|text|), text, tail);
      ReadAppend(text, tail);
    case SetDesktopSize(size, screens, padding, layout) =>
      ReadPair(size, [screens] + ([padding] + layout), tail);
      ReadPair([screens], [padding] + layout, tail);
      ReadPair([padding], layout, tail);
      ReadAppend(layout, tail);
    case _ =>
      ReadAppend(MessageBody(m), tail);
  }

  lemma FormatReadsBack(pf: PixelFormat)
    requires pf.WellSized()
    ensures ReadPixelFormat(pf.Bytes()) == pf
  {
  }

  lemma EncodeDecodedFormat(input: bytes, m: ClientMessage, rest: bytes)
    requires DecodeSetPixelFormat(input) == Some((m, rest))
    ensures m.SetPixelFormat? && MessageOk(m) && input == MessageBody(m) + rest
  {
  }

  lemma EncodeDecodedList(input: bytes, m: ClientMessage, rest: bytes)
    requires DecodeSetEncodings(input) == Some((m, rest))
    ensures m.SetEncodings? && MessageOk(m) && input == MessageBody(m) + rest
  {
    hide Read, PutU16, GetU16, EncodeList, DecodeList;
    ReadLength(input);
    var (spare, afterSpare) := Read(input, 1).value;
    ReadLength(afterSpare);
    var (count, afterCount) := Read(afterSpare, 2).value;
    var (list, end) := Read(afterCount, 4 * GetU16(count)).value;
    ReadGives(input, 1, spare, afterSpare);
    ReadGives(afterSpare, 2, count, afterCount);
    ReadGives(afterCount, 4 * GetU16(count), list, end);
    assert spare == [m.spare];
    PutGetU16(count);
    ListRoundTrip(list);
    Regroup(count, list, rest);
    Regroup(spare, count + list, rest);
  }

  lemma EncodeDecodedText(input: bytes, m: ClientMessage, rest: bytes)
    requires DecodeClientCutText(input) == Some((m, rest))
    ensures m.ClientCutText? && MessageOk(m) && input == MessageBody(m) + rest
  {
    hide Read, PutU32, GetU32;
    var (padding, afterPadding) := Read(input, 3).value;
    ReadLength(afterPadding);
    var (length, afterLength) := Read(afterPadding, 4).value;
    ReadGives(input, 3, padding, afterPadding);
    ReadGives(afterPadding, 4, length, afterLength);
    var (text, end) := Read(afterLength, GetU32(length)).value;
    ReadGives(afterLength, GetU32(length), text, end);
    PutGetU32(length);
    Regroup(length, m.text, rest);
    Regroup(padding, length + m.text, rest);
  }

  lemma EncodeDecodedScreens(input: bytes, m: ClientMessage, rest: bytes)
    requires DecodeSetDesktopSize(input) == Some((m, rest))
    ensures m.SetDesktopSize? && MessageOk(m) && input == MessageBody(m) + rest
  {
  }

  lemma EncodeDecodedBodies(kind: byte, input: bytes, m: ClientMessage, rest: bytes)
    requires DecodeClient([kind] + input) == Some((m, rest))
    ensures MessageOk(m) && Kind(m) == kind && input == MessageBody(m) + rest
  {
    hide DecodeSetPixelFormat, DecodeSetEncodings, DecodeClientCutText, DecodeSetDesktopSize;
    assert ([kind] + input)[1..] == input;
    if kind == SET_PIXEL_FORMAT {
      EncodeDecodedFormat(input, m, rest);
    } else if kind == SET_ENCODINGS {
      EncodeDecodedList(input, m, rest);
    } else if kind == CLIENT_CUT_TEXT {
      EncodeDecodedText(input, m, rest);
    } else if kind == SET_DESKTOP_SIZE {
      EncodeDecodedScreens(input, m, rest);
    }
  }

  lemma EncodeDecodedClient(input: bytes, m: ClientMessage, rest: bytes)
    requires DecodeClient(input) == Some((m, rest))
    ensures MessageOk(m) && input == EncodeClient(m) + rest
  {
    hide DecodeClient, MessageBody, MessageOk;
    assert input != [] by {
      NothingDecodes();
    }
    assert input == [input[0]] + input[1..];
    EncodeDecodedBodies(input[0], input[1..], m, rest);
    Regroup([input[0]], MessageBody(m), rest);
  }

  lemma NothingDecodes()
    ensures DecodeClient([]).None?
  {
  }

  lemma {:induction false} EncodeDecodedClients(n: nat, input: bytes, ms: seq<ClientMessage>, rest: bytes)
    requires DecodeClients(n, input) == Some((ms, rest))
    ensures MessagesOk(ms) && |ms| == n && input == EncodeClients(ms) + rest
  {
    hide DecodeClient, EncodeClient, MessageOk;
    if n > 0 {
      var (m, afterMessage) := DecodeClient(input).value;
      var (more, end) := DecodeClients(n - 1, afterMessage).value;
      EncodeDecodedClient(input, m, afterMessage);
      EncodeDecodedClients(n - 1, afterMessage, more, rest);
      assert ms == [m] + more && ms[1..] == more;
      Regroup(EncodeClient(m), EncodeClients(more), rest);
    }
  }

  lemma {:induction false} DecodeEncodedClients(ms: seq<ClientMessage>, tail: bytes)
    requires MessagesOk(ms)
    ensures DecodeClients(|ms|, EncodeClients(ms) + tail) == Some((ms, tail))
  {
    hide DecodeClient, EncodeClient, MessageOk;
    if ms == [] {
      assert EncodeClients(ms) + tail == tail;
    } else {
      Regroup(EncodeClient(ms[0]), EncodeClients(ms[1..]), tail);
      DecodeEncodedClient(ms[0], EncodeClients(ms[1..]) + tail);
      DecodeEncodedClients(ms[1..], tail);
      assert ms == [ms[0]] + ms[1..];
    }
  }
}
