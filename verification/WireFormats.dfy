/** The wire formats octet by octet, against the standard's tables (sections 7.1.1,
    7.3.2, 7.4, 7.5 and 7.6 of RFC 6143), and what the program makes of each field. */
module WireFormats {
  import opened Bytes
  import opened ClientMessages
  import C = ClientRelay
  import opened Desktop
  import opened Failures
  import opened FramingProofs
  import H = Handshake
  import opened Intended
  import opened Relay
  import opened RelayProofs
  import opened Rfb
  import opened ServerMessages
  import opened Standard
  import opened StandardCodec
  import S = Switching

  // ---------------------------------------------------------------- integers and texts

  /** A number with its most significant octet first. */
  function Value(b: bytes): nat {
    if b == [] then 0 else Value(b[..|b| - 1]) * 256 + b[|b| - 1]
  }

  lemma MostSignificantFirst(b: bytes)
    ensures |b| == 2 ==> GetU16(b) == Value(b)
    ensures |b| == 4 ==> GetU32(b) == Value(b) && ToSigned(GetU32(b)) == Value(b) - (if b[0] >= 128 then 4294967296 else 0)
  {
    if |b| == 2 {
      Two(b);
    } else if |b| == 4 {
      Two(b[..2]);
      Two(b[2..]);
      assert b[..3][..2] == b[..2] && b[..4] == b && b[..4][..3] == b[..3];
      assert Value(b[..3]) == Value(b[..2]) * 256 + b[2];
    }
  }

  lemma Two(b: bytes)
    requires |b| == 2
    ensures GetU16(b) == Value(b) == (b[0] as int) * 256 + b[1]
  {
    assert b[..1][..0] == [];
    assert Value(b[..1]) == b[0];
  }

  lemma Texts()
    ensures H.VERSION == H.Ascii("RFB 003.008\n")
    ensures KEY_PREFIX == H.Ascii("CONTROLLER_KEY:")
  {
  }

  // ---------------------------------------------------------------- structures

  /** FramebufferUpdateRectangle: x, y, width, height and the signed encoding. */
  lemma HeaderLayout(b: bytes)
    requires |b| == 12
    ensures
      var hd := GetHeader(b);
      && hd.x == Value(b[0..2]) && hd.y == Value(b[2..4]) && hd.w == Value(b[4..6]) && hd.h == Value(b[6..8])
      && hd.encoding == Value(b[8..12]) - (if b[8] >= 128 then 4294967296 else 0)
  {
    MostSignificantFirst(b[..2]);
    MostSignificantFirst(b[2..4]);
    MostSignificantFirst(b[4..6]);
    MostSignificantFirst(b[6..8]);
    MostSignificantFirst(b[8..12]);
    assert b[8..] == b[8..12];
  }

  /** PixelFormat: four octets, three maxima of two, three shifts and padding. */
  lemma FormatLayout(pf: PixelFormat)
    requires pf.WellSized()
    ensures
      var b := pf.Bytes();
      && |b| == 16
      && b[0] == pf.bitsPerPixel && b[1] == pf.depth && b[2] == pf.bigEndianFlag && b[3] == pf.trueColourFlag
      && b[4..10] == pf.maxima && b[10..13] == pf.shifts && b[13..16] == pf.padding
  {
  }

  /** What the server is sent of a client's format, field by field: always marked
      little-endian, and with the octets of the maxima exchanged for a big-endian one. */
  lemma FormatPassedOn(pf: PixelFormat)
    requires pf.WellSized()
    ensures
      var sent, m := pf.Ntoh().Hton(), pf.maxima;
      && sent.bitsPerPixel == pf.bitsPerPixel && sent.depth == pf.depth && sent.bigEndianFlag == 0
      && sent.trueColourFlag == pf.trueColourFlag && sent.shifts == pf.shifts && sent.padding == pf.padding
      && sent.maxima == if pf.bigEndianFlag == 0 then m else [m[1], m[0], m[3], m[2], m[5], m[4]]
  {
  }

  /** ServerInit: the size, the format and the length of the name behind it. */
  lemma ServerInitLayout(d: H.Display)
    requires d.pf.WellSized() && |d.name| < 0x1_0000_0000
    ensures
      var b := H.ServerInit(d);
      && Value(b[0..2]) == d.width && Value(b[2..4]) == d.height
      && b[4..20] == d.pf.(bigEndianFlag := 0).Bytes() && Value(b[20..24]) == |d.name|
  {
    MostSignificantFirst(PutU16(d.width));
    MostSignificantFirst(PutU16(d.height));
    MostSignificantFirst(PutU32(|d.name|));
    hide PutU16, PutU32, Value;
    var b := H.ServerInit(d);
    assert b[0..2] == PutU16(d.width) && b[2..4] == PutU16(d.height) && b[20..24] == PutU32(|d.name|);
  }

  /** What a new server is told behind the format: the list, and a request that is not
      incremental for everything from the top left corner to its whole size. */
  lemma SwitchLayout(l: seq<s32>, width: u16, height: u16)
    ensures C.SetEncodingsBytes(l)[..2] == [2, 0] && Value(C.SetEncodingsBytes(l)[2..4]) == |l| % 65536
    ensures
      var b := S.FullUpdateRequest(width, height);
      |b| == 10 && b[..6] == [3, 0, 0, 0, 0, 0] && Value(b[6..8]) == width && Value(b[8..10]) == height
  {
    MostSignificantFirst(PutU16(|l| % 0x1_0000));
    MostSignificantFirst(PutU16(width));
    MostSignificantFirst(PutU16(height));
    assert PutU16(0) == [0, 0];
    hide PutU16, Value, EncodeList;
    assert C.SetEncodingsBytes(l)[2..4] == PutU16(|l| % 0x1_0000);
    var b := S.FullUpdateRequest(width, height);
    assert b[6..8] == PutU16(width) && b[8..10] == PutU16(height);
  }

  // ---------------------------------------------------------------- message types and lengths

  /** A client message by its first octet, with the octets it takes. */
  lemma ClientMessageLayout(b: bytes, m: ClientMessage, rest: bytes)
    requires DecodeClient(b) == Some((m, rest))
    ensures b != [] && b[0] ==
            match m
            case SetPixelFormat(_, _) => 0
            case SetEncodings(_, _) => 2
            case FramebufferUpdateRequest(_) => 3
            case KeyEvent(_) => 4
            case PointerEvent(_) => 5
            case ClientCutText(_, _) => 6
            case SetDesktopSize(_, _, _, _) => 251
    ensures |b| - |rest| ==
            match m
            case SetPixelFormat(_, _) => 20
            case SetEncodings(_, l) => 4 + 4 * |l|
            case FramebufferUpdateRequest(_) => 10
            case KeyEvent(_) => 8
            case PointerEvent(_) => 6
            case ClientCutText(_, text) => 8 + |text|
            case SetDesktopSize(_, screens, _, _) => 8 + 16 * screens
  {
  }

  /** A server message by its first octet. */
  lemma ServerMessageLayout(pf: PixelFormat, b: bytes, m: ServerMessage, rest: bytes)
    requires DecodeServer(pf, b) == Some((m, rest))
    ensures b != [] && b[0] ==
            match m
            case FramebufferUpdate(_) => 0
            case Bell => 2
            case ServerCutText(_, _) => 3
    ensures m.Bell? ==> |b| == |rest| + 1
    ensures m.ServerCutText? ==> |b| == |rest| + 8 + |m.text|
  {
    hide DecodeUpdate;
  }

  /** A rectangle by the number of its encoding. */
  lemma EncodingNumbers(r: Rect)
    ensures r.Header().encoding ==
            match r.body
            case Raw(_) => 0
            case CopyRect(_, _) => 1
            case Rre(_, _, _) => 2
            case Tight(_, _) => 7
            case DesktopSize => -223
            case LastRect => -224
            case Cursor(_, _) => -239
            case XCursor(_, _, _) => -240
            case DesktopName(_) => -307
            case ExtendedDesktopSize(_, _, _) => -308
  {
  }

  // ---------------------------------------------------------------- what is refused by number

  /** A SetPixelFormat is refused exactly for pixels of other than 8, 16, 24 or 32 bits. */
  lemma FormatRefused(s: C.Settings, io: Io)
    requires |io.input| >= 20
    ensures C.RelaySetPixelFormat(s, io) == Failure(InvalidPixelFormat) <==> io.input[4] !in {8, 16, 24, 32}
    ensures io.input[4] in {8, 16, 24, 32} ==> C.RelaySetPixelFormat(s, io).Success?
  {
    hide C.SetPixelFormatBytes;
    var b := io.input[..20];
    assert ReadPixelFormat(b[4..]).bitsPerPixel == io.input[4];
  }

  /** The client's message types. */
  lemma ClientTypes(s: C.Settings, io: Io)
    requires io.input != []
    ensures C.RelayClient(s, io) == Failure(UnknownMessage) <==> io.input[0] !in {0, 2, 3, 4, 5, 6, 251}
  {
    hide C.SetPixelFormatBytes, C.SetEncodingsBytes, C.Choose, GetU16, GetU32;
    assert io.input[..1] == [io.input[0]];
  }

  /** The server's message types; colour maps are known but never accepted. */
  lemma ServerTypes(cfg: Config, nameQueued: bool, f: Fields, io: Io)
    requires io.input != []
    ensures io.input[0] !in {0, 1, 2, 3} ==> RelayServer(cfg, nameQueued, f, io) == Failure(UnknownMessage)
    ensures io.input[0] in {1, 2, 3} ==> RelayServer(cfg, nameQueued, f, io) != Failure(UnknownMessage)
    ensures io.input[0] == 0 && RelayServer(cfg, nameQueued, f, io).Failure? ==>
              RelayServer(cfg, nameQueued, f, io).error == RelayUpdate(cfg, nameQueued, f, io).error
    ensures io.input[0] == 1 ==> RelayServer(cfg, nameQueued, f, io).Failure?
  {
    hide RelayUpdate, GetU16, GetU32;
    assert io.input[..1] == [io.input[0]];
  }

  /** Colour map entries are read to their end, three numbers of two octets each, before
      the dispatch throws for them; the stream ends before that exactly when some are
      missing. */
  lemma ColourMapRead(io: Io)
    ensures RelayColourMap(io) ==
            if |io.input| >= 6 && |io.input| >= 6 + 6 * Value(io.input[4..6]) then ColourMapUnsupported else Eof
  {
    if |io.input| >= 6 {
      MostSignificantFirst(io.input[4..6]);
      assert io.input[..6][4..] == io.input[4..6];
      hide GetU16, Value;
    }
  }

  // ---------------------------------------------------------------- made-up rectangles

  /** The dummy: one black pixel in the top left corner for clients that take Raw, and
      otherwise the pixel to its right copied over it. */
  lemma DummyWritten(cfg: Config)
    ensures 0 in cfg.encodings ==>
              EncodeRect(Dummy(cfg)) == [0, 0, 0, 0, 0, 1, 0, 1, 0, 0, 0, 0] + seq(cfg.pf.bitsPerPixel / 8, _ => 0)
    ensures 0 !in cfg.encodings ==>
              EncodeRect(Dummy(cfg)) == [0, 0, 0, 0, 0, 1, 0, 1, 0, 0, 0, 1] + [0, 1, 0, 0]
  {
    HeaderNumbers(0, 0, 1, 1, 0);
    HeaderNumbers(0, 0, 1, 1, 1);
    assert PutU16(1) + PutU16(0) == [0, 1, 0, 0];
    hide PutHeader, PutU16;
  }

  lemma HeaderNumbers(x: byte, y: byte, w: byte, h: byte, encoding: byte)
    ensures PutHeader(RectHeader(x, y, w, h, encoding)) == [0, x, 0, y, 0, w, 0, h, 0, 0, 0, encoding]
  {
  }

  lemma LastRectWritten()
    ensures EncodeRect(LAST) == [0, 0, 0, 0, 0, 0, 0, 0, 255, 255, 255, 32]
  {
    PseudoNumbers(-224, 32);
    hide PutHeader;
  }

  lemma PseudoNumbers(encoding: s32, low: byte)
    requires -256 <= encoding < 0 && low == 256 + encoding
    ensures PutHeader(RectHeader(0, 0, 0, 0, encoding)) == [0, 0, 0, 0, 0, 0, 0, 0, 255, 255, 255, low]
  {
  }

  lemma NameWritten(name: bytes)
    requires |name| < 0x1_0000_0000
    ensures EncodeRect(NameRect(name)) == [0, 0, 0, 0, 0, 0, 0, 0, 255, 255, 254, 205] + PutU32(|name|) + name
  {
    assert PutHeader(NameRect(name).Header()) == [0, 0, 0, 0, 0, 0, 0, 0, 255, 255, 254, 205] by {
      assert NameRect(name).Header() == RectHeader(0, 0, 0, 0, -307);
      NameNumbers();
    }
    hide PutHeader, PutU32;
    Regroup([0, 0, 0, 0, 0, 0, 0, 0, 255, 255, 254, 205], PutU32(|name|), name);
  }

  lemma NameNumbers()
    ensures PutHeader(RectHeader(0, 0, 0, 0, -307)) == [0, 0, 0, 0, 0, 0, 0, 0, 255, 255, 254, 205]
  {
  }

  // ---------------------------------------------------------------- rectangles that are changed

  /** What the client is shown in place of a rectangle, number by number: a name that is
      no key is shown as it came and a key as the name before it; all four streams are
      reset if a reset is queued; and nothing else is touched. */
  lemma ImageNumbers(cfg: Config, f: Fields, r: Rect)
    ensures Image(cfg, f, r) ==
            match r.body
            case DesktopName(name) =>
              if -307 in cfg.encodings then [r.(body := DesktopName(if KEY_PREFIX <= name then f.desktop.name else name))]
              else if -224 in cfg.encodings then []
              else if 0 in cfg.encodings then [Rect(0, 0, 1, 1, Raw(seq(cfg.pf.bitsPerPixel / 8, _ => 0)))]
              else [Rect(0, 0, 1, 1, CopyRect(1, 0))]
            case Tight(resets, image) => [r.(body := Tight(if f.resetQueued then 15 else resets, image))]
            case _ => [r]
  {
    if r.body.DesktopName? {
      if KEY_PREFIX <= r.body.name {
        var key := r.body.name[|KEY_PREFIX|..];
        assert r.body.name == KEY_PREFIX + key;
        KeyApproved(f.desktop, key);
      } else {
        NameStored(f.desktop, r.body.name);
      }
    }
  }

  // ---------------------------------------------------------------- names and keys

  predicate Names(r: Rect, name: bytes) {
    r.body == DesktopName(name)
  }

  /** After an update the session has approved exactly the keys it had approved before
      and those that stood behind the prefix in some DesktopName rectangle. */
  lemma {:induction false} KeysApproved(f: Fields, rs: seq<Rect>, key: bytes)
    ensures key in AfterAll(f, rs).desktop.approvedKeys <==>
            key in f.desktop.approvedKeys || exists r :: r in rs && Names(r, KEY_PREFIX + key)
    decreases |rs|
  {
    if rs != [] {
      KeysApproved(After(f, rs[0]), rs[1..], key);
      assert forall r :: r in rs <==> r == rs[0] || r in rs[1..];
      assert key in After(f, rs[0]).desktop.approvedKeys <==>
             key in f.desktop.approvedKeys || Names(rs[0], KEY_PREFIX + key) by {
        OneName(f, rs[0], key);
      }
    }
  }

  lemma OneName(f: Fields, r: Rect, key: bytes)
    ensures key in After(f, r).desktop.approvedKeys <==> key in f.desktop.approvedKeys || Names(r, KEY_PREFIX + key)
  {
    assert (KEY_PREFIX + key)[|KEY_PREFIX|..] == key && KEY_PREFIX <= KEY_PREFIX + key;
    if r.body.DesktopName? && KEY_PREFIX <= r.body.name {
      assert r.body.name == KEY_PREFIX + r.body.name[|KEY_PREFIX|..];
    }
  }

  /** The rectangle carries a name that is not a key. */
  predicate Renames(r: Rect) {
    r.body.DesktopName? && !(KEY_PREFIX <= r.body.name)
  }

  lemma {:induction false} NameStays(f: Fields, rs: seq<Rect>)
    requires forall r :: r in rs ==> !Renames(r)
    ensures AfterAll(f, rs).desktop.name == f.desktop.name
    decreases |rs|
  {
    if rs != [] {
      assert rs[0] in rs && !Renames(rs[0]);
      NameStays(After(f, rs[0]), rs[1..]);
    }
  }

  /** After an update the session has the last name that was not a key; NameStays is
      about updates without any. */
  lemma {:induction false} NameIsLastNamed(f: Fields, rs: seq<Rect>, k: nat)
    requires k < |rs| && Renames(rs[k]) && forall r :: r in rs[k + 1..] ==> !Renames(r)
    ensures AfterAll(f, rs).desktop.name == rs[k].body.name
    decreases |rs|
  {
    if k == 0 {
      NameStays(After(f, rs[0]), rs[1..]);
    } else {
      assert rs[1..][k..] == rs[k + 1..];
      NameIsLastNamed(After(f, rs[0]), rs[1..], k - 1);
    }
  }

  // ---------------------------------------------------------------- the size of the framebuffer

  /** The server announces a new size: DesktopSize always does, ExtendedDesktopSize
      only with status 0, which stands in place of y. */
  predicate Resizes(r: Rect) {
    r.body.DesktopSize? || (r.body.ExtendedDesktopSize? && r.y == 0)
  }

  lemma {:induction false} SizeStays(f: Fields, rs: seq<Rect>)
    requires forall r :: r in rs ==> !Resizes(r)
    ensures AfterAll(f, rs).width == f.width && AfterAll(f, rs).height == f.height
    decreases |rs|
  {
    if rs != [] {
      assert rs[0] in rs && !Resizes(rs[0]);
      SizeStays(After(f, rs[0]), rs[1..]);
    }
  }

  /** After an update the tunnel has the size of the last rectangle that announced
      one; SizeStays is about updates without any. */
  lemma {:induction false} SizeIsLastAnnounced(f: Fields, rs: seq<Rect>, k: nat)
    requires k < |rs| && Resizes(rs[k]) && forall r :: r in rs[k + 1..] ==> !Resizes(r)
    ensures AfterAll(f, rs).width == rs[k].w && AfterAll(f, rs).height == rs[k].h
    decreases |rs|
  {
    if k == 0 {
      SizeStays(After(f, rs[0]), rs[1..]);
    } else {
      assert rs[1..][k..] == rs[k + 1..];
      SizeIsLastAnnounced(After(f, rs[0]), rs[1..], k - 1);
    }
  }
}
