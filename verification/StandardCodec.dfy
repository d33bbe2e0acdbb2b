/** The decoder of module Standard and its encoder are inverse to each other:
    a decoded update is exactly the octets that were read, and an encoded one
    decodes back with nothing left over. */
module StandardCodec {
  import opened Bytes
  import opened Failures
  import opened Rfb
  import opened Standard

  lemma Regroup(a: bytes, b: bytes, c: bytes)
    ensures a + (b + c) == (a + b) + c
  {
  }

  // ---------------------------------------------------------------- decode after encode

  lemma ReadAppend(a: bytes, tail: bytes)
    ensures Read(a + tail, |a|) == Some((a, tail))
  {
  }

  lemma ReadPair(a: bytes, b: bytes, tail: bytes)
    ensures Read(a + b + tail, |a|) == Some((a, b + tail))
  {
    assert a + b + tail == a + (b + tail);
    ReadAppend(a, b + tail);
  }

  lemma DecodeEncodedChunk(c: Chunk, tail: bytes)
    requires ChunkOk(c)
    ensures DecodeChunk(EncodeChunk(c) + tail) == Some((c, tail))
  {
    ReadPair(c.length, c.data, tail);
    ReadAppend(c.data, tail);
    var input := EncodeChunk(c) + tail;
    assert forall k :: 0 <= k < |c.length| ==> input[k] == c.length[k];
  }

  lemma DecodeEncodedFilter(pf: PixelFormat, f: TightFilter, tail: bytes)
    requires f.Palette? ==> |f.colours| == (f.count + 1) * TPixelSize(pf)
    ensures DecodeFilter(pf, !f.Implicit?, FilterBytes(f) + tail) == Some((f, tail))
  {
    match f
    case Palette(count, colours) =>
      assert FilterBytes(f) + tail == [1] + ([count] + (colours + tail));
      ReadAppend([1], [count] + (colours + tail));
      ReadAppend([count], colours + tail);
      ReadAppend(colours, tail);
    case Implicit =>
      assert FilterBytes(f) + tail == tail;
    case _ =>
      ReadAppend(FilterBytes(f), tail);
  }

  lemma DecodeEncodedData(size: nat, d: TightData, tail: bytes)
    requires DataOk(size, d)
    ensures DecodeTightData(size, TightDataBytes(d) + tail) == Some((d, tail))
  {
    match d
    case Plain(pixels) => ReadAppend(pixels, tail);
    case Deflated(chunk) => DecodeEncodedChunk(chunk, tail);
  }

  lemma DecodeEncodedBasic(pf: PixelFormat, w: u16, h: u16, i: TightImage, tail: bytes)
    requires i.Basic? && ImageOk(pf, w, h, i)
    ensures DecodeBasic(pf, w, h, !i.filter.Implicit?, i.stream, ImageBytes(i) + tail) == Some((i, tail))
  {
    var d := TightDataBytes(i.data);
    assert ImageBytes(i) + tail == FilterBytes(i.filter) + (d + tail);
    DecodeEncodedFilter(pf, i.filter, d + tail);
    DecodeEncodedData(TightSize(pf, w, h, i.filter), i.data, tail);
  }

  lemma DecodeEncodedImage(pf: PixelFormat, w: u16, h: u16, i: TightImage, tail: bytes)
    requires ImageOk(pf, w, h, i)
    ensures DecodeImage(pf, w, h, ImageRest(i), ImageBytes(i) + tail) == Some((i, tail))
  {
    match i
    case Fill(colour) => ReadAppend(colour, tail);
    case Jpeg(chunk) => DecodeEncodedChunk(chunk, tail);
    case Basic(_, _, _) => DecodeEncodedBasic(pf, w, h, i, tail);
  }

  lemma DecodeEncodedTight(pf: PixelFormat, w: u16, h: u16, b: Body, tail: bytes)
    requires b.Tight? && BodyOk(pf, w, h, b)
    ensures DecodeTight(pf, w, h, EncodeBody(b) + tail) == Some((b, tail))
  {
    var control: byte := ImageRest(b.image) * 0x10 + b.resets;
    assert control / 0x10 == ImageRest(b.image) && control % 0x10 == b.resets;
    assert EncodeBody(b) == [control] + ImageBytes(b.image);
    ReadPair([control], ImageBytes(b.image), tail);
    DecodeEncodedImage(pf, w, h, b.image, tail);
  }

  lemma DecodeEncodedRre(pf: PixelFormat, b: Body, tail: bytes)
    requires b.Rre? && BodyOk(pf, 0, 0, b)
    ensures DecodeRre(pf, EncodeBody(b) + tail) == Some((b, tail))
  {
    ReadPair(PutU32(b.count), b.background + b.subrectangles, tail);
    ReadPair(b.background, b.subrectangles, tail);
    ReadAppend(b.subrectangles, tail);
  }

  lemma DecodeEncodedCursor(pf: PixelFormat, w: u16, h: u16, b: Body, tail: bytes)
    requires b.Cursor? && BodyOk(pf, w, h, b)
    ensures DecodeCursor(pf, w, h, EncodeBody(b) + tail) == Some((b, tail))
  {
    ReadPair(b.pixels, b.mask, tail);
    ReadAppend(b.mask, tail);
  }

  lemma DecodeEncodedXCursor(pf: PixelFormat, w: u16, h: u16, b: Body, tail: bytes)
    requires b.XCursor? && BodyOk(pf, w, h, b)
    ensures DecodeXCursor(w, h, EncodeBody(b) + tail) == Some((b, tail))
  {
    ReadPair(b.colours, b.bitmap + b.mask, tail);
    ReadPair(b.bitmap, b.mask, tail);
    ReadAppend(b.mask, tail);
  }

  lemma DecodeEncodedName(b: Body, tail: bytes)
    requires b.DesktopName? && |b.name| < 0x1_0000_0000
    ensures DecodeDesktopName(EncodeBody(b) + tail) == Some((b, tail))
  {
    ReadPair(PutU32(|b.name|), b.name, tail);
    ReadAppend(b.name, tail);
  }

  lemma DecodeEncodedLayout(pf: PixelFormat, b: Body, tail: bytes)
    requires b.ExtendedDesktopSize? && BodyOk(pf, 0, 0, b)
    ensures DecodeExtendedDesktopSize(EncodeBody(b) + tail) == Some((b, tail))
  {
    ReadPair([b.screens], b.padding + b.layout, tail);
    ReadPair(b.padding, b.layout, tail);
    ReadAppend(b.layout, tail);
  }

  lemma DecodeEncodedBody(pf: PixelFormat, r: Rect, tail: bytes)
    requires RectOk(pf, r)
    ensures DecodeBody(pf, r.Header(), EncodeBody(r.body) + tail) == Some((r.body, tail))
  {
    hide DecodeRre, DecodeTight, DecodeCursor, DecodeXCursor, DecodeDesktopName, DecodeExtendedDesktopSize;
    match r.body
    case Raw(pixels) =>
      ReadAppend(pixels, tail);
    case CopyRect(srcX, srcY) =>
      ReadAppend(PutU16(srcX) + PutU16(srcY), tail);
      CutPrefix(PutU16(srcX), PutU16(srcY));
    case Rre(_, _, _) =>
      DecodeEncodedRre(pf, r.body, tail);
    case Cursor(_, _) =>
      DecodeEncodedCursor(pf, r.w, r.h, r.body, tail);
    case XCursor(_, _, _) =>
      DecodeEncodedXCursor(pf, r.w, r.h, r.body, tail);
    case DesktopName(_) =>
      DecodeEncodedName(r.body, tail);
    case ExtendedDesktopSize(_, _, _) =>
      DecodeEncodedLayout(pf, r.body, tail);
    case Tight(_, _) =>
      DecodeEncodedTight(pf, r.w, r.h, r.body, tail);
    case _ =>
      assert EncodeBody(r.body) + tail == tail;
  }

  /** Decoding inverts encoding and stops exactly where the rectangle ends. */
  lemma DecodeEncodedRect(pf: PixelFormat, r: Rect, tail: bytes)
    requires RectOk(pf, r)
    ensures DecodeRect(pf, EncodeRect(r) + tail) == Some((r, tail))
  {
    hide DecodeBody, EncodeBody, PutHeader, GetHeader;
    ReadPair(PutHeader(r.Header()), EncodeBody(r.body), tail);
    HeaderReadsBack(r.Header());
    DecodeEncodedBody(pf, r, tail);
  }

  lemma EncodeOne(r: Rect)
    ensures EncodeRects([r]) == EncodeRect(r)
  {
  }

  lemma {:induction false} EncodeRectsAppend(a: seq<Rect>, b: seq<Rect>)
    ensures EncodeRects(a + b) == EncodeRects(a) + EncodeRects(b)
  {
    if a == [] {
      assert a + b == b;
    } else {
      assert (a + b)[1..] == a[1..] + b;
      EncodeRectsAppend(a[1..], b);
    }
  }

  /** A whole list decodes back when it has the announced length or ends in LastRect. */
  lemma {:induction false} DecodeEncodedRects(pf: PixelFormat, n: nat, rs: seq<Rect>, tail: bytes)
    requires RectsOk(pf, rs) && LastRectLast(rs)
    requires |rs| == n || (|rs| <= n && EndsInLastRect(rs))
    ensures DecodeRects(pf, n, EncodeRects(rs) + tail) == Some((rs, tail))
  {
    hide DecodeRect, EncodeRect, RectOk;
    if n == 0 {
      assert EncodeRects(rs) + tail == tail;
    } else {
      Regroup(EncodeRect(rs[0]), EncodeRects(rs[1..]), tail);
      DecodeEncodedRect(pf, rs[0], EncodeRects(rs[1..]) + tail);
      assert rs == [rs[0]] + rs[1..];
      if rs[0].body.LastRect? {
        assert rs == [rs[0]];
        assert EncodeRects(rs[1..]) + tail == tail;
      } else {
        assert EndsInLastRect(rs) ==> EndsInLastRect(rs[1..]);
        DecodeEncodedRects(pf, n - 1, rs[1..], tail);
      }
    }
  }

  /** A reader told to expect n rectangles leaves all further ones unread. */
  lemma {:induction false} DecodeEncodedFirst(pf: PixelFormat, n: nat, rs: seq<Rect>, tail: bytes)
    requires RectsOk(pf, rs) && LastRectLast(rs) && |rs| > n
    ensures DecodeRects(pf, n, EncodeRects(rs) + tail) == Some((rs[..n], EncodeRects(rs[n..]) + tail))
  {
    hide DecodeRect, EncodeRect, RectOk;
    if n > 0 {
      Regroup(EncodeRect(rs[0]), EncodeRects(rs[1..]), tail);
      DecodeEncodedRect(pf, rs[0], EncodeRects(rs[1..]) + tail);
      DecodeEncodedFirst(pf, n - 1, rs[1..], tail);
      assert rs[..n] == [rs[0]] + rs[1..][..n - 1];
      assert rs[n..] == rs[1..][n - 1..];
    }
  }

  // ---------------------------------------------------------------- encode after decode

  lemma ReadGives(input: bytes, n: nat, a: bytes, rest: bytes)
    requires Read(input, n) == Some((a, rest))
    ensures |a| == n && input == a + rest
  {
  }

  lemma EncodeDecodedChunk(input: bytes, c: Chunk, rest: bytes)
    requires DecodeChunk(input) == Some((c, rest))
    ensures ChunkOk(c) && input == EncodeChunk(c) + rest
  {
  }

  lemma EncodeDecodedFilter(pf: PixelFormat, explicit: bool, input: bytes, f: TightFilter, rest: bytes)
    requires DecodeFilter(pf, explicit, input) == Some((f, rest))
    ensures f.Implicit? == !explicit
    ensures f.Palette? ==> |f.colours| == (f.count + 1) * TPixelSize(pf)
    ensures input == FilterBytes(f) + rest
  {
  }

  lemma EncodeDecodedData(size: nat, input: bytes, d: TightData, rest: bytes)
    requires DecodeTightData(size, input) == Some((d, rest))
    ensures DataOk(size, d) && input == TightDataBytes(d) + rest
  {
  }

  lemma EncodeDecodedBasic(pf: PixelFormat, w: u16, h: u16, explicit: bool, stream: nat, input: bytes, i: TightImage, rest: bytes)
    requires DecodeBasic(pf, w, h, explicit, stream, input) == Some((i, rest)) && stream < 4
    ensures ImageOk(pf, w, h, i) && ImageRest(i) == stream + (if explicit then 4 else 0)
    ensures input == ImageBytes(i) + rest
  {
    var middle := DecodeFilter(pf, explicit, input).value.1;
    EncodeDecodedFilter(pf, explicit, input, i.filter, middle);
    EncodeDecodedData(TightSize(pf, w, h, i.filter), middle, i.data, rest);
    Regroup(FilterBytes(i.filter), TightDataBytes(i.data), rest);
  }

  lemma EncodeDecodedImage(pf: PixelFormat, w: u16, h: u16, control: nat, input: bytes, i: TightImage, rest: bytes)
    requires DecodeImage(pf, w, h, control, input) == Some((i, rest))
    ensures ImageOk(pf, w, h, i) && ImageRest(i) == control
    ensures input == ImageBytes(i) + rest
  {
    match i
    case Fill(_) =>
    case Jpeg(chunk) => EncodeDecodedChunk(input, chunk, rest);
    case Basic(stream, _, _) => EncodeDecodedBasic(pf, w, h, control >= 4, stream, input, i, rest);
  }

  lemma ControlByte(b: Body, control: byte)
    requires b.Tight? && b.resets == control % 0x10 && ImageRest(b.image) == control / 0x10
    ensures EncodeBody(b) == [control] + ImageBytes(b.image)
  {
  }

  lemma EncodeDecodedTight(pf: PixelFormat, w: u16, h: u16, input: bytes, b: Body, rest: bytes)
    requires DecodeTight(pf, w, h, input) == Some((b, rest))
    ensures BodyOk(pf, w, h, b) && input == EncodeBody(b) + rest
  {
    EncodeDecodedImage(pf, w, h, input[0] / 0x10, input[1..], b.image, rest);
    ControlByte(b, input[0]);
    assert input == [input[0]] + input[1..];
    Regroup([input[0]], ImageBytes(b.image), rest);
  }

  lemma EncodeDecodedRre(pf: PixelFormat, input: bytes, b: Body, rest: bytes)
    requires DecodeRre(pf, input) == Some((b, rest))
    ensures b.Rre? && BodyOk(pf, 0, 0, b) && input == EncodeBody(b) + rest
  {
    hide Read, PutU32, GetU32, BytesPerPixel;
    ReadLength(input);
    var (count, afterCount) := Read(input, 4).value;
    var (background, afterBackground) := Read(afterCount, BytesPerPixel(pf)).value;
    ReadGives(input, 4, count, afterCount);
    ReadGives(afterCount, BytesPerPixel(pf), background, afterBackground);
    var (subrectangles, end) := Read(afterBackground, Times(GetU32(count), BytesPerPixel(pf) + 8)).value;
    ReadGives(afterBackground, Times(GetU32(count), BytesPerPixel(pf) + 8), subrectangles, end);
    PutGetU32(count);
    Regroup(background, b.subrectangles, rest);
    Regroup(count, background + b.subrectangles, rest);
  }

  lemma ReadLength(input: bytes)
    ensures forall n: nat :: Read(input, n).Some? ==> |Read(input, n).value.0| == n
  {
  }

  lemma EncodeDecodedXCursor(w: u16, h: u16, input: bytes, b: Body, rest: bytes)
    requires DecodeXCursor(w, h, input) == Some((b, rest))
    ensures b.XCursor? && (forall pf :: BodyOk(pf, w, h, b)) && input == EncodeBody(b) + rest
  {
  }

  lemma EncodeDecodedName(input: bytes, b: Body, rest: bytes)
    requires DecodeDesktopName(input) == Some((b, rest))
    ensures b.DesktopName? && |b.name| < 0x1_0000_0000 && input == EncodeBody(b) + rest
  {
    hide Read, PutU32, GetU32;
    ReadLength(input);
    var (length, afterLength) := Read(input, 4).value;
    ReadGives(input, 4, length, afterLength);
    var (name, end) := Read(afterLength, GetU32(length)).value;
    ReadGives(afterLength, GetU32(length), name, end);
    PutGetU32(length);
    Regroup(length, b.name, rest);
  }

  lemma EncodeDecodedLayout(input: bytes, b: Body, rest: bytes)
    requires DecodeExtendedDesktopSize(input) == Some((b, rest))
    ensures b.ExtendedDesktopSize? && (forall pf, w, h :: BodyOk(pf, w, h, b)) && input == EncodeBody(b) + rest
  {
    hide Read;
    ReadLength(input);
    var (screens, afterScreens) := Read(input, 1).value;
    var (padding, afterPadding) := Read(afterScreens, 3).value;
    ReadGives(input, 1, screens, afterScreens);
    ReadGives(afterScreens, 3, padding, afterPadding);
    var (layout, end) := Read(afterPadding, 16 * (screens[0] as int)).value;
    ReadGives(afterPadding, 16 * (screens[0] as int), layout, end);
    assert screens == [b.screens];
    Regroup(padding, b.layout, rest);
    Regroup([b.screens], padding + b.layout, rest);
  }

  lemma EncodeDecodedCursor(pf: PixelFormat, w: u16, h: u16, input: bytes, b: Body, rest: bytes)
    requires DecodeCursor(pf, w, h, input) == Some((b, rest))
    ensures b.Cursor? && BodyOk(pf, w, h, b) && input == EncodeBody(b) + rest
  {
  }

  lemma EncodeDecodedImageBody(pf: PixelFormat, hd: RectHeader, input: bytes, b: Body, rest: bytes)
    requires DecodeImageBody(pf, hd, input) == Some((b, rest))
    ensures Encoding(b) == hd.encoding && BodyOk(pf, hd.w, hd.h, b)
    ensures input == EncodeBody(b) + rest
  {
    if hd.encoding == COPY_RECT {
      PutGetU16(input[..4][..2]);
      PutGetU16(input[..4][2..]);
      assert input[..4] == EncodeBody(b);
    } else if hd.encoding == RRE {
      EncodeDecodedRre(pf, input, b, rest);
    } else if hd.encoding == TIGHT {
      EncodeDecodedTight(pf, hd.w, hd.h, input, b, rest);
    }
  }

  lemma EncodeDecodedPseudoBody(pf: PixelFormat, hd: RectHeader, input: bytes, b: Body, rest: bytes)
    requires DecodePseudoBody(pf, hd, input) == Some((b, rest))
    ensures Encoding(b) == hd.encoding && BodyOk(pf, hd.w, hd.h, b)
    ensures input == EncodeBody(b) + rest
  {
    if hd.encoding == CURSOR {
      EncodeDecodedCursor(pf, hd.w, hd.h, input, b, rest);
    } else if hd.encoding == X_CURSOR {
      EncodeDecodedXCursor(hd.w, hd.h, input, b, rest);
    } else if hd.encoding == DESKTOP_NAME {
      EncodeDecodedName(input, b, rest);
    } else if hd.encoding == EXTENDED_DESKTOP_SIZE {
      EncodeDecodedLayout(input, b, rest);
    }
  }

  lemma EncodeDecodedBody(pf: PixelFormat, hd: RectHeader, input: bytes, b: Body, rest: bytes)
    requires DecodeBody(pf, hd, input) == Some((b, rest))
    ensures Encoding(b) == hd.encoding && BodyOk(pf, hd.w, hd.h, b)
    ensures input == EncodeBody(b) + rest
  {
    if hd.encoding >= 0 {
      EncodeDecodedImageBody(pf, hd, input, b, rest);
    } else {
      EncodeDecodedPseudoBody(pf, hd, input, b, rest);
    }
  }

  /** A decoded rectangle is well formed and is exactly the octets read. */
  lemma EncodeDecodedRect(pf: PixelFormat, input: bytes, r: Rect, rest: bytes)
    requires DecodeRect(pf, input) == Some((r, rest))
    ensures RectOk(pf, r) && input == EncodeRect(r) + rest
  {
    hide DecodeBody, EncodeBody, PutHeader, GetHeader;
    HeaderRoundTrip(input[..RECT_HEADER_SIZE]);
    var hd := GetHeader(input[..RECT_HEADER_SIZE]);
    assert Read(input, RECT_HEADER_SIZE) == Some((input[..RECT_HEADER_SIZE], input[RECT_HEADER_SIZE..]));
    var (body, end) := DecodeBody(pf, hd, input[RECT_HEADER_SIZE..]).value;
    assert body == r.body && end == rest;
    EncodeDecodedBody(pf, hd, input[RECT_HEADER_SIZE..], body, end);
    assert r.Header() == hd;
    Regroup(input[..RECT_HEADER_SIZE], EncodeBody(r.body), rest);
  }

  lemma {:induction false} EncodeDecodedRects(pf: PixelFormat, n: nat, input: bytes, rs: seq<Rect>, rest: bytes)
    requires DecodeRects(pf, n, input) == Some((rs, rest))
    ensures RectsOk(pf, rs) && LastRectLast(rs) && |rs| <= n
    ensures |rs| == n || EndsInLastRect(rs)
    ensures input == EncodeRects(rs) + rest
  {
    hide DecodeRect, EncodeRect, RectOk;
    if n > 0 {
      var (r, afterRect) := DecodeRect(pf, input).value;
      EncodeDecodedRect(pf, input, r, afterRect);
      if r.body.LastRect? {
        EncodeOne(r);
      } else {
        var (more, end) := DecodeRects(pf, n - 1, afterRect).value;
        EncodeDecodedRects(pf, n - 1, afterRect, more, rest);
        assert rs == [r] + more && rs[1..] == more;
        Regroup(EncodeRect(r), EncodeRects(more), rest);
      }
    }
  }
}
