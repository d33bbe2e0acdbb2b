/** One dispatch of a server message of any kind: what is consumed and what the
    client is sent (VncTunnel.cpp:413-440, 442-672). */
module ServerRelayProofs {
  import opened Bytes
  import opened Failures
  import opened FramingProofs
  import opened Intended
  import opened Relay
  import opened Rfb
  import opened ServerMessages
  import opened Standard
  import opened StandardCodec
  import opened UpdateProofs

  /** What the client is sent in place of a server message. */
  function ForClient(cfg: Config, nameQueued: bool, f: Fields, m: ServerMessage): ServerMessage {
    match m
    case FramebufferUpdate(u) => FramebufferUpdate(Rewritten(cfg, nameQueued, f, u))
    case _ => m
  }

  function StillQueued(nameQueued: bool, m: ServerMessage): bool {
    nameQueued && !m.FramebufferUpdate?
  }

  function FieldsAfter(f: Fields, m: ServerMessage): Fields {
    match m
    case FramebufferUpdate(u) => AfterAll(f, u.rects)
    case _ => f
  }

  /** Updates that the tunnel frames as the standard does and does not refuse. */
  ghost predicate Relayable(cfg: Config, nameQueued: bool, m: ServerMessage) {
    match m
    case FramebufferUpdate(u) =>
      && AllFramed(cfg.pf, u.rects) && AllSubstitutable(cfg, u.rects)
      && (Saturates(u.count, nameQueued) ==> LAST_RECT in cfg.encodings)
    case _ => true
  }

  lemma TextShape(padding: bytes, length: bytes, text: bytes)
    requires |padding| == 3
    ensures [SERVER_CUT_TEXT] + (padding + (length + text)) == [SERVER_CUT_TEXT] + padding + length + text
    ensures ([SERVER_CUT_TEXT] + padding + length)[4..] == length
  {
  }

  lemma TextForwarded(m: ServerMessage, rest: bytes, out: bytes)
    requires m.ServerCutText? && |m.padding| == 3 && |m.text| < 0x1_0000_0000
    ensures RelayServerCutText(Io(EncodeServer(m) + rest, out)) == Success(Io(rest, out + EncodeServer(m)))
  {
    hide PutU32, GetU32, Copy, Forward, Take;
    var length := PutU32(|m.text|);
    TextShape(m.padding, length, m.text);
    TakeSecond([SERVER_CUT_TEXT] + m.padding + length, m.text, rest, out);
  }

  lemma KindOf(m: ServerMessage, rest: bytes, out: bytes)
    ensures Take(Io(EncodeServer(m) + rest, out), 1).Success?
    ensures Take(Io(EncodeServer(m) + rest, out), 1).value.0 ==
            [match m case FramebufferUpdate(_) => FRAMEBUFFER_UPDATE case Bell => BELL case ServerCutText(_, _) => SERVER_CUT_TEXT]
  {
    hide EncodeRects, PutU16, PutU32;
  }

  /** One dispatch consumes one message and sends what the client is to have. */
  lemma ServerMessageRelayed(cfg: Config, nameQueued: bool, f: Fields, m: ServerMessage, rest: bytes, out: bytes)
    requires cfg.pf.Valid() && f.desktop.Valid() && ServerOk(cfg.pf, m) && Relayable(cfg, nameQueued, m)
    ensures RelayServer(cfg, nameQueued, f, Io(EncodeServer(m) + rest, out)) ==
            Success(((StillQueued(nameQueued, m), FieldsAfter(f, m)), Io(rest, out + EncodeServer(ForClient(cfg, nameQueued, f, m)))))
  {
    hide Take, RelayUpdate, RelayServerCutText, EncodeUpdate, UpdateOk, AllFramed, AllSubstitutable, AfterAll, Rewritten;
    KindOf(m, rest, out);
    match m
    case FramebufferUpdate(u) => UpdateOutcome(cfg, nameQueued, f, u, rest, out);
    case Bell => TakeAppend([BELL], rest, out);
    case ServerCutText(_, _) => TextForwarded(m, rest, out);
  }

  /** The client can read what it is sent as that very message exactly when its
      records fit the announced count, which they do unless the count saturated. */
  lemma ForClientReadsBack(cfg: Config, nameQueued: bool, f: Fields, m: ServerMessage, tail: bytes)
    requires cfg.pf.Valid() && f.desktop.Valid() && ServerOk(cfg.pf, m) && Relayable(cfg, nameQueued, m)
    ensures
      var mine := ForClient(cfg, nameQueued, f, m);
      && (ServerOk(cfg.pf, mine) <==> (m.FramebufferUpdate? ==> |mine.update.rects| <= mine.update.count))
      && (DecodeServer(cfg.pf, EncodeServer(mine) + tail) == Some((mine, tail)) <==> ServerOk(cfg.pf, mine))
  {
    hide DecodeServer, EncodeServer, ClientView, RectsOk, LastRectLast, EndsInLastRect, AllFramed, AllSubstitutable;
    var mine := ForClient(cfg, nameQueued, f, m);
    if m.FramebufferUpdate? {
      ViewShape(cfg, nameQueued, f, m.update);
    }
    if ServerOk(cfg.pf, mine) {
      DecodeEncodedServer(cfg.pf, mine, tail);
    } else if DecodeServer(cfg.pf, EncodeServer(mine) + tail) == Some((mine, tail)) {
      EncodeDecodedServer(cfg.pf, EncodeServer(mine) + tail, mine, tail);
    }
  }
}
