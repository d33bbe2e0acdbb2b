/** The messages a server may send to a client that uses true colour: sections 7.6
    of RFC 6143. Each is read in the pixel format in force when it was sent. */
module ServerMessages {
  import opened Bytes
  import opened Failures
  import opened Rfb
  import opened Standard
  import opened StandardCodec
  import opened UpdateProofs

  datatype ServerMessage =
    | FramebufferUpdate(update: Update)
    | Bell
    | ServerCutText(padding: bytes, text: bytes)

  function DecodeText(input: bytes): Option<(ServerMessage, bytes)> {
    var (padding, afterPadding) :- Read(input, 3);
    var (length, afterLength) :- Read(afterPadding, 4);
    var (text, rest) :- Read(afterLength, GetU32(length));
    Some((ServerCutText(padding, text), rest))
  }

  function DecodeServer(pf: PixelFormat, input: bytes): Option<(ServerMessage, bytes)> {
    var (kind, afterKind) :- Read(input, 1);
    if kind[0] == FRAMEBUFFER_UPDATE then
      var (u, rest) :- DecodeUpdate(pf, input);
      Some((FramebufferUpdate(u), rest))
    else if kind[0] == BELL then Some((Bell, afterKind))
    else if kind[0] == SERVER_CUT_TEXT then DecodeText(afterKind)
    else None
  }

  /** A stream of messages, the k-th in the k-th format. */
  function DecodeServers(formats: seq<PixelFormat>, input: bytes): Option<(seq<ServerMessage>, bytes)> {
    if formats == [] then
      Some(([], input))
    else
      var (m, afterMessage) :- DecodeServer(formats[0], input);
      var (ms, rest) :- DecodeServers(formats[1..], afterMessage);
      Some(([m] + ms, rest))
  }

  function EncodeServer(m: ServerMessage): bytes {
    match m
    case FramebufferUpdate(u) => EncodeUpdate(u)
    case Bell => [BELL]
    case ServerCutText(padding, text) => [SERVER_CUT_TEXT] + (padding + (PutU32(|text| % 0x1_0000_0000) + text))
  }

  function EncodeServers(ms: seq<ServerMessage>): bytes {
    if ms == [] then [] else EncodeServer(ms[0]) + EncodeServers(ms[1..])
  }

  ghost predicate ServerOk(pf: PixelFormat, m: ServerMessage) {
    match m
    case FramebufferUpdate(u) => UpdateOk(pf, u)
    case Bell => true
    case ServerCutText(padding, text) => |padding| == 3 && |text| < 0x1_0000_0000
  }

  ghost predicate ServersOk(formats: seq<PixelFormat>, ms: seq<ServerMessage>) {
    |formats| == |ms| && forall k :: 0 <= k < |ms| ==> ServerOk(formats[k], ms[k])
  }

  lemma DecodeEncodedServer(pf: PixelFormat, m: ServerMessage, tail: bytes)
    requires ServerOk(pf, m)
    ensures DecodeServer(pf, EncodeServer(m) + tail) == Some((m, tail))
  {
    hide DecodeUpdate, EncodeRects, RectsOk, LastRectLast, EndsInLastRect, PutU32, GetU32;
    match m
    case FramebufferUpdate(u) =>
      assert (EncodeUpdate(u) + tail)[0] == FRAMEBUFFER_UPDATE;
      ReadsBack(pf, u, tail);
    case Bell => ReadAppend([BELL], tail);
    case ServerCutText(padding, text) =>
      ReadPair([SERVER_CUT_TEXT], padding + (PutU32(|text|) + text), tail);
      ReadPair(padding, PutU32(|text|) + text, tail);
      ReadPair(PutU32(|text|), text, tail);
      ReadAppend(text, tail);
  }

  lemma {:induction false} DecodeEncodedServers(formats: seq<PixelFormat>, ms: seq<ServerMessage>, tail: bytes)
    requires ServersOk(formats, ms)
    ensures DecodeServers(formats, EncodeServers(ms) + tail) == Some((ms, tail))
  {
    hide DecodeServer, EncodeServer, ServerOk;
    if ms == [] {
      assert EncodeServers(ms) + tail == tail;
    } else {
      Regroup(EncodeServer(ms[0]), EncodeServers(ms[1..]), tail);
      DecodeEncodedServer(formats[0], ms[0], EncodeServers(ms[1..]) + tail);
      DecodeEncodedServers(formats[1..], ms[1..], tail);
      assert ms == [ms[0]] + ms[1..];
    }
  }

  /** A decoded message is well formed and exactly the octets read. */
  lemma EncodeDecodedServer(pf: PixelFormat, input: bytes, m: ServerMessage, rest: bytes)
    requires DecodeServer(pf, input) == Some((m, rest))
    ensures ServerOk(pf, m) && input == EncodeServer(m) + rest
  {
    hide DecodeUpdate, EncodeUpdate, UpdateOk, DecodeText;
    assert input == [input[0]] + input[1..];
    if input[0] == FRAMEBUFFER_UPDATE {
      var (u, end) := DecodeUpdate(pf, input).value;
      assert m == FramebufferUpdate(u) && end == rest;
      EncodeDecodedUpdate(pf, input, u, end);
    } else if input[0] == SERVER_CUT_TEXT {
      EncodeDecodedText(input[1..], m, rest);
    }
  }

  lemma EncodeDecodedText(input: bytes, m: ServerMessage, rest: bytes)
    requires DecodeText(input) == Some((m, rest))
    ensures m.ServerCutText? && |m.padding| == 3 && |m.text| < 0x1_0000_0000
    ensures [SERVER_CUT_TEXT] + input == EncodeServer(m) + rest
  {
    hide Read, PutU32, GetU32;
    var (padding, afterPadding) := Read(input, 3).value;
    ReadLength(afterPadding);
    var (length, afterLength) := Read(afterPadding, 4).value;
    ReadGives(input, 3, padding, afterPadding);
    ReadGives(afterPadding, 4, length, afterLength);
    var (text, end) := Read(afterLength, GetU32(length)).value;
    ReadGives(afterLength, GetU32(length), text, end);
    PutGetU32(length);
    Regroup(length, m.text, rest);
    Regroup(padding, length + m.text, rest);
    Regroup([SERVER_CUT_TEXT], padding + (length + m.text), rest);
  }

  lemma {:induction false} EncodeServersAppend(a: seq<ServerMessage>, b: seq<ServerMessage>)
    ensures EncodeServers(a + b) == EncodeServers(a) + EncodeServers(b)
  {
    if a == [] {
      assert a + b == b;
    } else {
      assert (a + b)[1..] == a[1..] + b;
      EncodeServersAppend(a[1..], b);
    }
  }
}
