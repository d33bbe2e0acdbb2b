/** The wire structures of rfb.h: what each packed struct looks like on the
    wire, and what its `ntoh`/`hton` do to it on a little-endian host. */
module Rfb {
  import opened Bytes

  // Encodings and pseudo-encodings the program knows.
  const RAW: s32 := 0
  const COPY_RECT: s32 := 1
  const RRE: s32 := 2
  const TIGHT: s32 := 7
  const JPEG_QUALITY_LOWEST: s32 := -32
  const JPEG_QUALITY_HIGHEST: s32 := -23
  const DESKTOP_SIZE: s32 := -223
  const LAST_RECT: s32 := -224
  const CURSOR: s32 := -239
  const X_CURSOR: s32 := -240
  const DESKTOP_NAME: s32 := -307
  const EXTENDED_DESKTOP_SIZE: s32 := -308

  // Client to server message types.
  const SET_PIXEL_FORMAT: byte := 0
  const SET_ENCODINGS: byte := 2
  const FRAMEBUFFER_UPDATE_REQUEST: byte := 3
  const KEY_EVENT: byte := 4
  const POINTER_EVENT: byte := 5
  const CLIENT_CUT_TEXT: byte := 6
  const SET_DESKTOP_SIZE: byte := 251

  // Server to client message types.
  const FRAMEBUFFER_UPDATE: byte := 0
  const SET_COLOUR_MAP_ENTRIES: byte := 1
  const BELL: byte := 2
  const SERVER_CUT_TEXT: byte := 3

  const TIGHT_PIXEL_SIZE := 3
  const TIGHT_MIN_SIZE_TO_COMPRESS := 12

  /** PixelFormat as it lies in memory: four octets, the six octets of the three
      colour maxima, three shifts and three octets of padding. */
  datatype PixelFormat = PixelFormat(
    bitsPerPixel: byte,
    depth: byte,
    bigEndianFlag: byte,
    trueColourFlag: byte,
    maxima: bytes,
    shifts: bytes,
    padding: bytes
  ) {
    ghost predicate WellSized() {
      |maxima| == 6 && |shifts| == 3 && |padding| == 3
    }

    /** PixelFormat::valid */
    predicate Valid() {
      bitsPerPixel == 8 || bitsPerPixel == 16 || bitsPerPixel == 24 || bitsPerPixel == 32
    }

    /** PixelFormat::operator==, which ignores the padding. */
    predicate Same(other: PixelFormat) {
      this.(padding := other.padding) == other
    }

    /** PixelFormat::ntoh on a little-endian host: the maxima are swapped only
        when the format itself is big-endian. */
    function Ntoh(): PixelFormat
      requires WellSized()
    {
      if bigEndianFlag != 0 then
        this.(maxima := [maxima[1], maxima[0], maxima[3], maxima[2], maxima[5], maxima[4]])
      else
        this
    }

    /** PixelFormat::hton on a little-endian host. */
    function Hton(): PixelFormat {
      this.(bigEndianFlag := 0)
    }

    function Bytes(): (b: bytes)
      requires WellSized()
      ensures |b| == 16
    {
      [bitsPerPixel, depth, bigEndianFlag, trueColourFlag] + maxima + shifts + padding
    }
  }

  function ReadPixelFormat(b: bytes): (pf: PixelFormat)
    requires |b| == 16
    ensures pf.WellSized() && pf.Bytes() == b
  {
    PixelFormat(b[0], b[1], b[2], b[3], b[4..10], b[10..13], b[13..])
  }

  /** The two formats agree in every field that matters. */
  predicate FieldsAgree(pf: PixelFormat, other: PixelFormat) {
    && pf.bitsPerPixel == other.bitsPerPixel && pf.depth == other.depth
    && pf.bigEndianFlag == other.bigEndianFlag && pf.trueColourFlag == other.trueColourFlag
    && pf.maxima == other.maxima && pf.shifts == other.shifts
  }

  /** operator== compares everything but the padding. */
  lemma SameExactly(pf: PixelFormat, other: PixelFormat)
    ensures pf.Same(other) <==> FieldsAgree(pf, other)
  {
  }

  /** FramebufferUpdateRectangle */
  datatype RectHeader = RectHeader(x: u16, y: u16, w: u16, h: u16, encoding: s32)

  const RECT_HEADER_SIZE := 12

  function PutHeader(r: RectHeader): (b: bytes)
    ensures |b| == RECT_HEADER_SIZE
  {
    PutU16(r.x) + PutU16(r.y) + PutU16(r.w) + PutU16(r.h) + PutU32(ToUnsigned(r.encoding))
  }

  function GetHeader(b: bytes): RectHeader
    requires |b| == RECT_HEADER_SIZE
  {
    RectHeader(GetU16(b[..2]), GetU16(b[2..4]), GetU16(b[4..6]), GetU16(b[6..8]), ToSigned(GetU32(b[8..])))
  }

  /** `recv` followed by `send` of a rectangle header puts the same octets on the wire. */
  lemma HeaderRoundTrip(b: bytes)
    requires |b| == RECT_HEADER_SIZE
    ensures PutHeader(GetHeader(b)) == b
  {
    PutGetU16(b[..2]);
    PutGetU16(b[2..4]);
    PutGetU16(b[4..6]);
    PutGetU16(b[6..8]);
    PutGetU32(b[8..]);
    assert ToUnsigned(ToSigned(GetU32(b[8..]))) == GetU32(b[8..]);
  }

  lemma HeaderReadsBack(r: RectHeader)
    ensures GetHeader(PutHeader(r)) == r
  {
  }

  // TightCompressionControl: the four low bits are the reset flags, the four
  // high bits are the field `rest`.

  function ControlRest(c: byte): byte {
    c / 0x10
  }

  function ControlResets(c: byte): byte {
    c % 0x10
  }

  /** The control octet with resetStream0..3 all set. */
  function WithAllResets(c: byte): (d: byte)
    ensures ControlRest(d) == ControlRest(c) && ControlResets(d) == 0xF
  {
    c / 0x10 * 0x10 + 0xF
  }

  predicate IsFill(c: byte) {
    ControlRest(c) == 0x8
  }

  predicate IsJpeg(c: byte) {
    ControlRest(c) == 0x9
  }

  predicate ReadsFilterId(c: byte) {
    ControlRest(c) / 4 % 2 == 1
  }
}
