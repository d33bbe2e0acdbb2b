/** The tunnel's fixed-width size computations against the exact sizes of the
    standard, and its framing of each kind of rectangle. */
module FramingProofs {
  import opened Bytes
  import opened Failures
  import opened Intended
  import opened Relay
  import opened Rfb
  import opened Standard

  // ---------------------------------------------------------------- sizes

  lemma EighthOfProduct(area: nat, bits: nat)
    requires bits == 8 || bits == 16 || bits == 24 || bits == 32
    ensures area * bits / 8 == area * (bits / 8)
  {
  }

  /** The Raw size is defined exactly up to 2^31 - 1 bits, and is then the
      standard's. */
  lemma RawSizeExact(pf: PixelFormat, w: u16, h: u16)
    requires pf.Valid()
    ensures RawSize(pf, w, h).Success? <==> w * h * pf.bitsPerPixel <= INT_MAX
    ensures RawSize(pf, w, h).Success? ==> RawSize(pf, w, h).value == PixelsSize(pf, w, h)
  {
    EighthOfProduct(w * h, pf.bitsPerPixel);
    assert w * h >= 0;
    assert w * h <= w * h * pf.bitsPerPixel;
  }

  lemma MaskBound(w: u16, h: u16)
    ensures 0 <= MaskSize(w, h) <= 8192 * 65535
  {
  }

  /** The Cursor size fails exactly when its pixels alone do. */
  lemma CursorSizeExact(pf: PixelFormat, w: u16, h: u16)
    requires pf.Valid()
    ensures CursorSize(pf, w, h).Success? <==> w * h * pf.bitsPerPixel <= INT_MAX
    ensures CursorSize(pf, w, h).Success? ==>
              CursorSize(pf, w, h).value == PixelsSize(pf, w, h) + MaskSize(w, h)
  {
    RawSizeExact(pf, w, h);
    MaskBound(w, h);
  }

  /** The XCursor size never overflows; it is the size of the rectangle exactly
      for the non-empty ones, because the colours are always counted. */
  lemma XCursorSizeExact(pf: PixelFormat, r: Rect)
    requires r.body.XCursor? && RectOk(pf, r)
    ensures XCursorSize(r.w, r.h) == Success(6 + 2 * MaskSize(r.w, r.h))
    ensures XCursorSize(r.w, r.h) == Success(|EncodeBody(r.body)|) <==> r.w != 0 && r.h != 0
  {
    MaskBound(r.w, r.h);
  }

  /** The RRE size, computed modulo 2^32, is exact up to the modulus and no further. */
  lemma RreSizeExact(pf: PixelFormat, r: Rect)
    requires r.body.Rre? && RectOk(pf, r)
    ensures RreSize(pf, r.body.count) == |EncodeBody(r.body)| - 4 <==> Framed(pf, r)
  {
    hide Times;
  }

  lemma RowOctets(w: nat, bits: nat)
    requires bits == 8 || bits == 16 || bits == 24 || bits == 32
    ensures (w * bits + 7) / 8 == w * (bits / 8)
  {
  }

  /** The data size of basic compression: whole octets per row times the height. */
  lemma TightDataSizeExact(w: u16, h: u16, bits: byte)
    requires bits == 1 || bits == 8 || bits == 16 || bits == 24 || bits == 32
    ensures bits == 1 ==> TightDataSize(w, h, bits) == Success(MaskSize(w, h))
    ensures bits != 1 ==>
              TightDataSize(w, h, bits) ==
              if w * (bits / 8) * h <= INT_MAX then Success(w * (bits / 8) * h) else Failure(Undefined)
  {
    if bits == 1 {
      MaskBound(w, h);
    } else {
      RowOctets(w, bits);
      assert 0 <= w * bits <= 65535 * 32;
    }
  }

  // ---------------------------------------------------------------- elementary steps

  lemma TakeAppend(a: bytes, rest: bytes, out: bytes)
    ensures Take(Io(a + rest, out), |a|) == Success((a, Io(rest, out)))
    ensures Copy(Io(a + rest, out), |a|) == Success((a, Io(rest, out + a)))
    ensures Forward(Io(a + rest, out), |a|) == Success(Io(rest, out + a))
  {
  }

  /** Two pieces in a row. */
  lemma TakeSecond(a: bytes, b: bytes, rest: bytes, out: bytes)
    ensures Copy(Io(a + b + rest, out), |a|) == Success((a, Io(b + rest, out + a)))
    ensures Take(Io(a + b + rest, out), |a|) == Success((a, Io(b + rest, out)))
    ensures Forward(Io(b + rest, out + a), |b|) == Success(Io(rest, out + (a + b)))
  {
    assert a + b + rest == a + (b + rest);
    TakeAppend(a, b + rest, out);
    TakeAppend(b, rest, out + a);
    assert out + a + b == out + (a + b);
  }

  lemma PutTwo(io: Io, a: bytes, b: bytes)
    ensures Put(Put(io, a), b) == Put(io, a + b)
  {
  }

  // ---------------------------------------------------------------- Tight

  lemma ChunkForwarded(c: Chunk, rest: bytes, out: bytes)
    requires ChunkOk(c)
    ensures RelayChunk(Io(EncodeChunk(c) + rest, out)) == Success(Io(rest, out + EncodeChunk(c)))
  {
    hide Copy, Forward, Take;
    var l, d := c.length, c.data;
    if |l| == 1 {
      TakeSecond(l, d, rest, out);
    } else if |l| == 2 {
      assert l == [l[0]] + [l[1]];
      assert EncodeChunk(c) + rest == [l[0]] + ([l[1]] + (d + rest));
      TakeAppend([l[0]], [l[1]] + (d + rest), out);
      TakeAppend([l[1]], d + rest, out + [l[0]]);
      TakeAppend(d, rest, out + [l[0]] + [l[1]]);
      assert out + [l[0]] + [l[1]] + d == out + EncodeChunk(c);
    } else {
      assert l == [l[0]] + [l[1]] + [l[2]];
      assert EncodeChunk(c) + rest == [l[0]] + ([l[1]] + ([l[2]] + (d + rest)));
      TakeAppend([l[0]], [l[1]] + ([l[2]] + (d + rest)), out);
      TakeAppend([l[1]], [l[2]] + (d + rest), out + [l[0]]);
      TakeAppend([l[2]], d + rest, out + [l[0]] + [l[1]]);
      TakeAppend(d, rest, out + [l[0]] + [l[1]] + [l[2]]);
      assert out + [l[0]] + [l[1]] + [l[2]] + d == out + EncodeChunk(c);
    }
  }

  /** Bits per pixel the tunnel assumes after the filter. */
  function FilteredBits(pf: PixelFormat, f: TightFilter): byte {
    match f
    case Palette(count, _) => if count <= 1 then 1 else 8
    case _ => pf.bitsPerPixel
  }

  lemma FilterForwarded(pf: PixelFormat, control: byte, f: TightFilter, rest: bytes, out: bytes)
    requires ReadsFilterId(control) <==> !f.Implicit?
    requires f.Palette? ==> |f.colours| == (f.count + 1) * TPixelSize(pf) && TPixelSize(pf) == 3
    ensures RelayFilter(pf, control, Io(FilterBytes(f) + rest, out)) ==
            Success((FilteredBits(pf, f), Io(rest, out + FilterBytes(f))))
  {
    hide Copy, Forward, Take, TPixelSize;
    match f
    case Implicit =>
      assert FilterBytes(f) + rest == rest && out + FilterBytes(f) == out;
    case Palette(count, colours) =>
      assert FilterBytes(f) + rest == [1] + ([count] + (colours + rest));
      TakeAppend([1], [count] + (colours + rest), out);
      TakeAppend([count], colours + rest, out + [1]);
      TakeAppend(colours, rest, out + [1] + [count]);
      assert out + [1] + [count] + colours == out + FilterBytes(f);
    case _ =>
      TakeAppend(FilterBytes(f), rest, out);
  }

  lemma Reorder(w: nat, b: nat, h: nat)
    ensures w * b * h == w * h * b
  {
  }

  /** Four octets a pixel against three. */
  lemma FourAgainstThree(area: nat)
    requires area == 0 || area >= 4
    ensures area * 4 == area * 3 == 0 || (area * 4 >= 12 && area * 3 >= 12)
  {
  }

  /** Both sides agree whether the data is compressed, and on its size when not. */
  lemma DataSizesAgree(pf: PixelFormat, w: u16, h: u16, stream: nat, f: TightFilter, d: TightData)
    requires pf.Valid() && TightFramed(pf, w, h, Basic(stream, f, d))
    ensures
      var size := TightDataSize(w, h, FilteredBits(pf, f));
      size.Success? && (size.value == TightSize(pf, w, h, f) || (size.value >= 12 && TightSize(pf, w, h, f) >= 12))
  {
    hide TightDataSize, MaskSize;
    TightDataSizeExact(w, h, FilteredBits(pf, f));
    var b, area: nat := BytesPerPixel(pf), w * h;
    Reorder(w, b, h);
    if !f.Palette? && TPixelSize(pf) != b {
      FourAgainstThree(area);
    }
  }

  lemma DataForwarded(size: nat, mine: nat, d: TightData, rest: bytes, out: bytes)
    requires DataOk(size, d)
    requires mine == size || (mine >= 12 && size >= 12)
    ensures (if mine < TIGHT_MIN_SIZE_TO_COMPRESS
             then Forward(Io(TightDataBytes(d) + rest, out), mine)
             else RelayChunk(Io(TightDataBytes(d) + rest, out)))
            == Success(Io(rest, out + TightDataBytes(d)))
  {
    match d
    case Plain(pixels) => TakeAppend(pixels, rest, out);
    case Deflated(chunk) => ChunkForwarded(chunk, rest, out);
  }

  lemma BasicForwarded(pf: PixelFormat, w: u16, h: u16, control: byte, i: TightImage, rest: bytes, out: bytes)
    requires pf.Valid() && i.Basic? && ImageOk(pf, w, h, i) && TightFramed(pf, w, h, i)
    requires ControlRest(control) == ImageRest(i)
    ensures RelayBasic(pf, w, h, control, Io(ImageBytes(i) + rest, out)) == Success(Io(rest, out + ImageBytes(i)))
  {
    hide RelayChunk, Forward, ChunkOk;
    var f, d := FilterBytes(i.filter), TightDataBytes(i.data);
    assert ImageBytes(i) + rest == f + (d + rest);
    FilterForwarded(pf, control, i.filter, d + rest, out);
    DataSizesAgree(pf, w, h, i.stream, i.filter, i.data);
    DataForwarded(TightSize(pf, w, h, i.filter), TightDataSize(w, h, FilteredBits(pf, i.filter)).value, i.data, rest, out + f);
    assert out + f + d == out + ImageBytes(i);
  }

  lemma TightImageForwarded(pf: PixelFormat, w: u16, h: u16, control: byte, i: TightImage, rest: bytes, out: bytes)
    requires pf.Valid() && ImageOk(pf, w, h, i) && TightFramed(pf, w, h, i)
    requires ControlRest(control) == ImageRest(i)
    ensures RelayTightImage(pf, w, h, control, Io(ImageBytes(i) + rest, out)) == Success(Io(rest, out + ImageBytes(i)))
  {
    hide RelayChunk, RelayBasic, ChunkOk;
    match i
    case Fill(colour) => TakeAppend(colour, rest, out);
    case Jpeg(chunk) => ChunkForwarded(chunk, rest, out);
    case Basic(_, _, _) => BasicForwarded(pf, w, h, control, i, rest, out);
  }
}
