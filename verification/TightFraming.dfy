/** Exactly when the tunnel frames Tight rectangles as the standard does
    (VncTunnel.cpp:562-637), over every pixel format and every octet sequence. */
module TightFraming {
  import opened Bytes
  import opened Failures
  import opened FramingProofs
  import opened Intended
  import opened Relay
  import opened Rfb
  import opened Standard
  import opened StandardCodec

  /** If the standard reads a Tight rectangle from the input, the tunnel consumes
      the same octets of it, whether or not it forces the reset bits. */
  ghost predicate AgreesOn(pf: PixelFormat, w: u16, h: u16, input: bytes) {
    match DecodeTight(pf, w, h, input)
    case None => true
    case Some((_, rest)) =>
      && Leaves(RelayTightImage(pf, w, h, input[0], Io(input[1..], [])), rest)
      && Leaves(RelayTightImage(pf, w, h, WithAllResets(input[0]), Io(input[1..], [])), rest)
  }

  predicate Leaves(r: Result<Io>, rest: bytes) {
    r.Success? && r.value.input == rest
  }

  /** Three-octet Tight pixels, and no uncompressed data whose size is counted in
      four-octet pixels. */
  predicate TightCompatible(pf: PixelFormat, w: nat, h: nat) {
    TPixelSize(pf) == 3 && (BytesPerPixel(pf) == 3 || w * h == 0 || w * h >= 4)
  }

  lemma CompatibleAgrees(pf: PixelFormat, w: u16, h: u16, input: bytes)
    requires pf.Valid() && w * BytesPerPixel(pf) * h <= INT_MAX && TightCompatible(pf, w, h)
    ensures AgreesOn(pf, w, h, input)
  {
    hide RelayTightImage, DecodeImage, ImageOk, ImageBytes, ImageRest, TPixelSize;
    match DecodeTight(pf, w, h, input)
    case None =>
    case Some((b, rest)) =>
      assert Read(input, 1) == Some((input[..1], input[1..]));
      var (image, tail) := DecodeImage(pf, w, h, input[0] / 0x10, input[1..]).value;
      assert image == b.image && tail == rest;
      EncodeDecodedImage(pf, w, h, input[0] / 0x10, input[1..], image, tail);
      AreaFits(w, BytesPerPixel(pf), h);
      assert TightFramed(pf, w, h, b.image);
      TightImageForwarded(pf, w, h, input[0], b.image, rest, []);
      TightImageForwarded(pf, w, h, WithAllResets(input[0]), b.image, rest, []);
  }

  lemma AreaFits(w: nat, b: nat, h: nat)
    requires w * b * h <= INT_MAX && b >= 1
    ensures w * h <= INT_MAX
  {
  }

  /** A Fill rectangle whose pixel is not three octets long. */
  lemma FillDiffers(pf: PixelFormat, w: u16, h: u16)
    requires pf.Valid() && TPixelSize(pf) != 3
    ensures !AgreesOn(pf, w, h, [0x80] + Zeros(TPixelSize(pf)))
  {
  }

  /** Basic compression without a filter of one to three pixels: the standard has
      3 octets a pixel, the tunnel passes on 4 a pixel or expects a length. */
  lemma SmallCopyDiffers(pf: PixelFormat, w: u16, h: u16)
    requires pf.Valid() && TPixelSize(pf) == 3 && BytesPerPixel(pf) == 4 && 1 <= w * h <= 3
    ensures !AgreesOn(pf, w, h, [0] + Zeros(3 * (w * h)))
  {
    hide MaskSize;
    var area: nat := w * h;
    var pixels := Zeros(3 * area);
    var input := [0] + pixels;
    assert input[1..] == pixels;
    var b := Tight(0, Basic(0, Implicit, Plain(pixels)));
    ControlByte(b, 0);
    assert input == EncodeBody(b) + [];
    assert TightSize(pf, w, h, Implicit) == 3 * area;
    DecodeEncodedTight(pf, w, h, b, []);
    TightDataSizeExact(w, h, 32);
    Reorder(w, 4, h);
    assert TightDataSize(w, h, 32) == Success(4 * area);
    if area == 3 {
      assert RelayChunk(Io(pixels, [])).value.input == pixels[1..][0..];
    }
  }

  /** The tunnel's Tight framing is the standard's on every input exactly for
      three-octet Tight pixels, except, for 32-bit pixels, in rectangles of one
      to three pixels. */
  lemma TightFramingExact(pf: PixelFormat, w: u16, h: u16)
    requires pf.Valid() && w * BytesPerPixel(pf) * h <= INT_MAX
    ensures (forall input: bytes :: AgreesOn(pf, w, h, input)) <==> TightCompatible(pf, w, h)
  {
    hide AgreesOn;
    if TightCompatible(pf, w, h) {
      forall input: bytes ensures AgreesOn(pf, w, h, input) {
        CompatibleAgrees(pf, w, h, input);
      }
    } else if TPixelSize(pf) != 3 {
      FillDiffers(pf, w, h);
    } else {
      SmallCopyDiffers(pf, w, h);
    }
  }
}
