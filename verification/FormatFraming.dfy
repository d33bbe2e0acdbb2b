/** What a change of pixel format does to updates drawn in the old format and not
    yet read (VncTunnel.cpp:319-330): when they are still read where they end. */
module FormatFraming {
  import opened Bytes
  import opened Failures
  import opened FramingProofs
  import opened Intended
  import opened Relay
  import opened RelayProofs
  import opened Rfb
  import opened Standard
  import opened StandardCodec
  import opened UpdateProofs

  /** The two formats give pixels and Tight pixels the same size. */
  predicate SameFraming(pf: PixelFormat, other: PixelFormat) {
    BytesPerPixel(pf) == BytesPerPixel(other) && TPixelSize(pf) == TPixelSize(other)
  }

  // ---------------------------------------------------------------- one rectangle

  /** A rectangle drawn in pf has the same extent in the other format. */
  predicate ReadsAlike(pf: PixelFormat, other: PixelFormat, r: Rect) {
    match r.body
    case Raw(_) => r.w * r.h == 0 || BytesPerPixel(pf) == BytesPerPixel(other)
    case Cursor(_, _) => r.w * r.h == 0 || BytesPerPixel(pf) == BytesPerPixel(other)
    case Rre(_, _, _) => BytesPerPixel(pf) == BytesPerPixel(other)
    case Tight(_, image) => TightReadsAlike(pf, other, r.w, r.h, image)
    case _ => true
  }

  /** Compressed data carries its own length, so only its minimum counts. */
  predicate TightReadsAlike(pf: PixelFormat, other: PixelFormat, w: nat, h: nat, i: TightImage) {
    match i
    case Fill(_) => TPixelSize(pf) == TPixelSize(other)
    case Jpeg(_) => true
    case Basic(_, Palette(_, _), _) => TPixelSize(pf) == TPixelSize(other)
    case Basic(_, _, Plain(_)) => w * h == 0 || TPixelSize(pf) == TPixelSize(other)
    case Basic(_, _, Deflated(_)) => w * h * TPixelSize(other) >= 12
  }

  lemma SameProduct(area: nat, a: nat, b: nat)
    ensures area * a == area * b <==> area == 0 || a == b
  {
    if area != 0 && a != b {
      if a < b {
        assert area * (b - a) > 0;
        assert area * b == area * a + area * (b - a);
      } else {
        assert area * (a - b) > 0;
        assert area * a == area * b + area * (a - b);
      }
    }
  }

  lemma RreSizes(count: nat, a: nat, b: nat)
    ensures Times(count, a + 8) == Times(count, b + 8) <==> count == 0 || a == b
  {
    SameProduct(count, a + 8, b + 8);
  }

  lemma TightReadsAlikeExactly(pf: PixelFormat, other: PixelFormat, w: nat, h: nat, i: TightImage)
    requires ImageOk(pf, w, h, i)
    ensures ImageOk(other, w, h, i) <==> TightReadsAlike(pf, other, w, h, i)
  {
    hide TPixelSize, MaskSize, ChunkOk;
    match i
    case Basic(_, Palette(count, _), _) =>
      SameProduct(count + 1, TPixelSize(pf), TPixelSize(other));
    case Basic(_, _, _) =>
      SameProduct(w * h, TPixelSize(pf), TPixelSize(other));
    case _ =>
  }

  /** A rectangle drawn in pf is well formed in the other format exactly when it
      has the same extent there. */
  lemma ReadsAlikeExactly(pf: PixelFormat, other: PixelFormat, r: Rect)
    requires RectOk(pf, r)
    ensures RectOk(other, r) <==> ReadsAlike(pf, other, r)
  {
    hide TightReadsAlike, ImageOk, MaskSize, BytesPerPixel, Times;
    SameProduct(r.w * r.h, BytesPerPixel(pf), BytesPerPixel(other));
    match r.body
    case Tight(_, image) => TightReadsAlikeExactly(pf, other, r.w, r.h, image);
    case Rre(count, _, _) => RreSizes(count, BytesPerPixel(pf), BytesPerPixel(other));
    case _ =>
  }

  // ---------------------------------------------------------------- one update

  predicate AllReadAlike(pf: PixelFormat, other: PixelFormat, rs: seq<Rect>) {
    forall k :: 0 <= k < |rs| ==> ReadsAlike(pf, other, rs[k])
  }

  lemma AllReadAlikeExactly(pf: PixelFormat, other: PixelFormat, u: Update)
    requires UpdateOk(pf, u)
    ensures UpdateOk(other, u) <==> AllReadAlike(pf, other, u.rects)
  {
    hide RectOk, ReadsAlike;
    forall k | 0 <= k < |u.rects| ensures RectOk(other, u.rects[k]) <==> ReadsAlike(pf, other, u.rects[k]) {
      ReadsAlikeExactly(pf, other, u.rects[k]);
    }
  }

  /** A reader who expects the other format finds an update drawn in pf, and finds
      its end, exactly when every rectangle has the same extent in both. */
  lemma UnreadReadsBack(pf: PixelFormat, other: PixelFormat, u: Update, tail: bytes)
    requires UpdateOk(pf, u)
    ensures DecodeUpdate(other, EncodeUpdate(u) + tail) == Some((u, tail)) <==> AllReadAlike(pf, other, u.rects)
  {
    hide DecodeUpdate, EncodeUpdate, AllReadAlike, RectsOk, LastRectLast, EndsInLastRect;
    AllReadAlikeExactly(pf, other, u);
    if UpdateOk(other, u) {
      ReadsBack(other, u, tail);
    } else if DecodeUpdate(other, EncodeUpdate(u) + tail) == Some((u, tail)) {
      EncodeDecodedUpdate(other, EncodeUpdate(u) + tail, u, tail);
    }
  }

  lemma SameFramingReadsAlike(pf: PixelFormat, other: PixelFormat, u: Update)
    requires SameFraming(pf, other) && UpdateOk(pf, u)
    ensures UpdateOk(other, u)
  {
    hide TPixelSize, BytesPerPixel, RectOk, ReadsAlike;
    forall k | 0 <= k < |u.rects| ensures ReadsAlike(pf, other, u.rects[k]) {
      SameFramingReadsRect(pf, other, u.rects[k]);
    }
    AllReadAlikeExactly(pf, other, u);
  }

  lemma SameFramingReadsRect(pf: PixelFormat, other: PixelFormat, r: Rect)
    requires SameFraming(pf, other) && RectOk(pf, r)
    ensures ReadsAlike(pf, other, r)
  {
    hide TPixelSize, BytesPerPixel;
  }

  // ---------------------------------------------------------------- all updates

  /** An update of one rectangle of one pixel. */
  function OnePixel(body: Body): Update {
    Update(0, 1, [Rect(0, 0, 1, 1, body)])
  }

  /** Updates that are well formed in pf and too long in a format with smaller
      pixels, or the other way around. */
  lemma FormatsTellApart(pf: PixelFormat, other: PixelFormat)
    requires !SameFraming(pf, other)
    ensures exists u :: UpdateOk(pf, u) && !AllReadAlike(pf, other, u.rects)
  {
    var u := if BytesPerPixel(pf) != BytesPerPixel(other)
             then OnePixel(Raw(Zeros(BytesPerPixel(pf)))) else OnePixel(Tight(0, Fill(Zeros(TPixelSize(pf)))));
    assert RectOk(pf, u.rects[0]) && !ReadsAlike(pf, other, u.rects[0]);
    assert UpdateOk(pf, u);
  }

  /** The standard reads every octet sequence alike in two formats if and only if
      they agree on the sizes of a pixel and of a Tight pixel. */
  lemma FormatFramingExact(pf: PixelFormat, other: PixelFormat)
    ensures (forall input: bytes :: DecodeUpdate(pf, input) == DecodeUpdate(other, input)) <==> SameFraming(pf, other)
  {
    hide DecodeUpdate, SameFraming, AllReadAlike, UpdateOk;
    if SameFraming(pf, other) {
      forall input: bytes ensures DecodeUpdate(pf, input) == DecodeUpdate(other, input) {
        if DecodeUpdate(pf, input).Some? {
          SameReading(pf, other, input);
        } else if DecodeUpdate(other, input).Some? {
          assert SameFraming(other, pf) by { Symmetric(pf, other); }
          SameReading(other, pf, input);
        }
      }
    } else {
      FormatsTellApart(pf, other);
      var u :| UpdateOk(pf, u) && !AllReadAlike(pf, other, u.rects);
      ReadsItself(pf, u);
      UnreadReadsBack(pf, other, u, []);
      assert DecodeUpdate(pf, EncodeUpdate(u) + []) != DecodeUpdate(other, EncodeUpdate(u) + []);
    }
  }

  lemma Symmetric(pf: PixelFormat, other: PixelFormat)
    requires SameFraming(pf, other)
    ensures SameFraming(other, pf)
  {
  }

  lemma ReadsItself(pf: PixelFormat, u: Update)
    requires UpdateOk(pf, u)
    ensures DecodeUpdate(pf, EncodeUpdate(u) + []) == Some((u, []))
  {
    hide DecodeUpdate, EncodeUpdate, RectsOk, LastRectLast, EndsInLastRect;
    ReadsBack(pf, u, []);
  }

  lemma SameReading(pf: PixelFormat, other: PixelFormat, input: bytes)
    requires SameFraming(pf, other) && DecodeUpdate(pf, input).Some?
    ensures DecodeUpdate(other, input) == DecodeUpdate(pf, input)
  {
    hide DecodeUpdate, EncodeUpdate, RectsOk, LastRectLast, EndsInLastRect, SameFraming;
    var (u, rest) := DecodeUpdate(pf, input).value;
    EncodeDecodedUpdate(pf, input, u, rest);
    SameFramingReadsAlike(pf, other, u);
    ReadsBack(other, u, rest);
  }

  // ---------------------------------------------------------------- the tunnel itself

  lemma SameBitsRect(encodings: set<s32>, pf: PixelFormat, other: PixelFormat, p: Progress, io: Io)
    requires pf.bitsPerPixel == other.bitsPerPixel
    ensures RelayRect(Config(encodings, pf), p, io) == RelayRect(Config(encodings, other), p, io)
  {
    hide Take, Copy, Forward, PutHeader, GetHeader, RelayChunk, TightDataSize;
  }

  lemma {:induction false} SameBitsRects(encodings: set<s32>, pf: PixelFormat, other: PixelFormat, p: Progress, n: nat, io: Io)
    requires pf.bitsPerPixel == other.bitsPerPixel
    ensures RelayRects(Config(encodings, pf), p, n, io) == RelayRects(Config(encodings, other), p, n, io)
    decreases n
  {
    hide RelayRect;
    if n > 0 && !p.lastRectReceived {
      SameBitsRect(encodings, pf, other, p, io);
      match RelayRect(Config(encodings, pf), p, io)
      case Success((p1, io1)) => SameBitsRects(encodings, pf, other, p1, n - 1, io1);
      case Failure(_) =>
    }
  }

  /** The same update in the same state of the tunnel, with either format stored. */
  ghost predicate RelaysAlike(encodings: set<s32>, pf: PixelFormat, other: PixelFormat, f: Fields, input: bytes) {
    RelayUpdate(Config(encodings, pf), false, f, Io(input, [])) == RelayUpdate(Config(encodings, other), false, f, Io(input, []))
  }

  /** The tunnel treats every octet sequence alike under two formats if and only if
      they have the same number of bits per pixel. */
  lemma RelayFormatExact(encodings: set<s32>, pf: PixelFormat, other: PixelFormat, f: Fields)
    requires pf.Valid() && other.Valid() && f.desktop.Valid()
    ensures (forall input: bytes :: RelaysAlike(encodings, pf, other, f, input)) <==> pf.bitsPerPixel == other.bitsPerPixel
  {
    hide RelayRects, RelayUpdate;
    if pf.bitsPerPixel == other.bitsPerPixel {
      forall input: bytes ensures RelaysAlike(encodings, pf, other, f, input) {
        SameBitsUpdate(encodings, pf, other, f, input);
      }
    } else {
      RelaysRawOnly(encodings, pf, f);
      RelaysRawOnly(encodings, other, f);
      var mine, theirs := EncodeUpdate(OnePixel(Raw(Zeros(BytesPerPixel(pf))))), EncodeUpdate(OnePixel(Raw(Zeros(BytesPerPixel(other)))));
      if BytesPerPixel(pf) < BytesPerPixel(other) {
        RawLonger(BytesPerPixel(pf), BytesPerPixel(other));
        assert !RelaysAlike(encodings, pf, other, f, theirs);
      } else {
        RawLonger(BytesPerPixel(other), BytesPerPixel(pf));
        assert !RelaysAlike(encodings, pf, other, f, mine);
      }
    }
  }

  lemma SameBitsUpdate(encodings: set<s32>, pf: PixelFormat, other: PixelFormat, f: Fields, input: bytes)
    requires pf.bitsPerPixel == other.bitsPerPixel
    ensures RelaysAlike(encodings, pf, other, f, input)
  {
    hide RelayRects, PutU16, GetU16;
    if Take(Io(input, []), 4).Success? {
      var (b, io1) := Take(Io(input, []), 4).value;
      var io2 := Put(io1, [b[0], b[1]] + PutU16(Announced(GetU16(b[2..]), false)));
      SameBitsRects(encodings, pf, other, Progress(f, Saturates(GetU16(b[2..]), false), false), GetU16(b[2..]), io2);
    }
  }

  /** One Raw pixel of the stored format's size, and then anything, leaves just that. */
  lemma RelaysRawOnly(encodings: set<s32>, pf: PixelFormat, f: Fields)
    requires pf.Valid() && f.desktop.Valid()
    ensures forall rest: bytes ::
              var r := RelayUpdate(Config(encodings, pf), false, f, Io(EncodeUpdate(OnePixel(Raw(Zeros(BytesPerPixel(pf))))) + rest, []));
              r.Success? && r.value.1.input == rest
  {
    var u := OnePixel(Raw(Zeros(BytesPerPixel(pf))));
    assert RectOk(pf, u.rects[0]) && Framed(pf, u.rects[0]) && Substitutable(Config(encodings, pf), u.rects[0]);
    forall rest: bytes
      ensures
        var r := RelayUpdate(Config(encodings, pf), false, f, Io(EncodeUpdate(u) + rest, []));
        r.Success? && r.value.1.input == rest
    {
      hide RelayUpdate, EncodeUpdate, AfterAll, ClientView;
      UpdateOutcome(Config(encodings, pf), false, f, u, rest, []);
    }
  }

  lemma RawLonger(shorter: nat, longer: nat)
    requires shorter < longer
    ensures EncodeUpdate(OnePixel(Raw(Zeros(longer)))) == EncodeUpdate(OnePixel(Raw(Zeros(shorter)))) + Zeros(longer - shorter)
    ensures EncodeUpdate(OnePixel(Raw(Zeros(longer)))) == EncodeUpdate(OnePixel(Raw(Zeros(longer)))) + []
  {
    hide PutHeader, PutU16;
    EncodeOne(Rect(0, 0, 1, 1, Raw(Zeros(longer))));
    EncodeOne(Rect(0, 0, 1, 1, Raw(Zeros(shorter))));
    assert Zeros(longer) == Zeros(shorter) + Zeros(longer - shorter);
  }

  // ---------------------------------------------------------------- an update overtaken by a format

  /** One pixel drawn with 32 bits and read by a tunnel that has stored a 16-bit
      format in the meantime: the tunnel accepts the update, and leaves half of the
      pixel on the stream to be taken for a message. */
  lemma LateUpdateMisread(pf: PixelFormat, other: PixelFormat, f: Fields)
    requires pf.bitsPerPixel == 32 && other.bitsPerPixel == 16 && f.desktop.Valid()
    ensures
      var u := OnePixel(Raw(Zeros(4)));
      && UpdateOk(pf, u) && AllFramed(pf, u.rects)
      && RelayUpdate(Config({}, other), false, f, Io(EncodeUpdate(u), [])).Success?
      && RelayUpdate(Config({}, other), false, f, Io(EncodeUpdate(u), [])).value.1.input == [0, 0]
  {
    hide EncodeUpdate, RelayUpdate, AfterAll, ClientView;
    var u, shorter := OnePixel(Raw(Zeros(4))), OnePixel(Raw(Zeros(2)));
    assert RectOk(pf, u.rects[0]) && Framed(pf, u.rects[0]);
    assert RectOk(other, shorter.rects[0]) && Framed(other, shorter.rects[0]);
    RawLonger(2, 4);
    assert Zeros(2) == [0, 0];
    UpdateOutcome(Config({}, other), false, f, shorter, [0, 0], []);
  }

}
