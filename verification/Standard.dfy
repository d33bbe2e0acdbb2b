/** What a FramebufferUpdate means to an RFB peer, written from the standard and
    independently of the tunnel: sections 7.6.1, 7.7 and 7.8 of RFC 6143, and
    the community RFB specification for Tight, LastRect, DesktopName, XCursor and
    ExtendedDesktopSize. All sizes here are exact integers. */
module Standard {
  import opened Bytes
  import opened Failures
  import opened Rfb

  /** Data preceded by Tight's compact length of one to three octets. */
  datatype Chunk = Chunk(length: bytes, data: bytes)

  datatype TightFilter = Implicit | CopyFilter | Palette(count: byte, colours: bytes) | Gradient

  datatype TightData = Plain(pixels: bytes) | Deflated(chunk: Chunk)

  datatype TightImage =
    | Fill(colour: bytes)
    | Jpeg(image: Chunk)
    | Basic(stream: nat, filter: TightFilter, data: TightData)

  datatype Body =
    | Raw(pixels: bytes)
    | CopyRect(srcX: u16, srcY: u16)
    | Rre(count: u32, background: bytes, subrectangles: bytes)
    | Cursor(pixels: bytes, mask: bytes)
    | XCursor(colours: bytes, bitmap: bytes, mask: bytes)
    | DesktopSize
    | LastRect
    | DesktopName(name: bytes)
    | ExtendedDesktopSize(screens: byte, padding: bytes, layout: bytes)
    | Tight(resets: byte, image: TightImage)

  datatype Rect = Rect(x: u16, y: u16, w: u16, h: u16, body: Body) {
    function Header(): RectHeader {
      RectHeader(x, y, w, h, Encoding(body))
    }
  }

  function Encoding(b: Body): s32 {
    match b
    case Raw(_) => RAW
    case CopyRect(_, _) => COPY_RECT
    case Rre(_, _, _) => RRE
    case Cursor(_, _) => CURSOR
    case XCursor(_, _, _) => X_CURSOR
    case DesktopSize => DESKTOP_SIZE
    case LastRect => LAST_RECT
    case DesktopName(_) => DESKTOP_NAME
    case ExtendedDesktopSize(_, _, _) => EXTENDED_DESKTOP_SIZE
    case Tight(_, _) => TIGHT
  }

  // ---------------------------------------------------------------- sizes

  function BytesPerPixel(pf: PixelFormat): nat {
    pf.bitsPerPixel / 8
  }

  /** Raw pixels, section 7.7.1 of RFC 6143. */
  function PixelsSize(pf: PixelFormat, w: nat, h: nat): nat {
    w * h * BytesPerPixel(pf)
  }

  /** A one-bit mask padded to whole octets per row, section 7.8.1 of RFC 6143. */
  function MaskSize(w: nat, h: nat): nat {
    (w + 7) / 8 * h
  }

  /** A Tight pixel is three octets for 32-bit true colour of depth 24 with all
      maxima 255, and an ordinary pixel otherwise. */
  function TPixelSize(pf: PixelFormat): nat {
    if pf.trueColourFlag != 0 && pf.bitsPerPixel == 32 && pf.depth == 24 && pf.maxima == [0, 255, 0, 255, 0, 255]
    then 3 else BytesPerPixel(pf)
  }

  function TightSize(pf: PixelFormat, w: nat, h: nat, f: TightFilter): nat {
    match f
    case Palette(count, _) => if count + 1 <= 2 then MaskSize(w, h) else w * h
    case _ => w * h * TPixelSize(pf)
  }

  predicate CompactShape(l: bytes) {
    match |l|
    case 1 => l[0] < 0x80
    case 2 => l[0] >= 0x80 && l[1] < 0x80
    case 3 => l[0] >= 0x80 && l[1] >= 0x80
    case _ => false
  }

  function CompactLength(l: bytes): nat
    requires CompactShape(l)
  {
    var low: int := l[0] % 0x80;
    var middle: int := if |l| > 1 then l[1] % 0x80 else 0;
    var high: int := if |l| > 2 then l[2] else 0;
    low + middle * 0x80 + high * 0x4000
  }

  // ---------------------------------------------------------------- decoding

  function Read(input: bytes, n: nat): Option<(bytes, bytes)> {
    if n <= |input| then Some((input[..n], input[n..])) else None
  }

  function DecodeChunk(input: bytes): Option<(Chunk, bytes)> {
    var size := if |input| >= 1 && input[0] < 0x80 then 1 else if |input| >= 2 && input[1] < 0x80 then 2 else 3;
    var (length, afterLength) :- Read(input, size);
    var (data, rest) :- Read(afterLength, CompactLength(length));
    Some((Chunk(length, data), rest))
  }

  function DecodeFilter(pf: PixelFormat, explicit: bool, input: bytes): Option<(TightFilter, bytes)> {
    if !explicit then
      Some((Implicit, input))
    else
      var (id, afterId) :- Read(input, 1);
      if id[0] == 0 then Some((CopyFilter, afterId))
      else if id[0] == 1 then
        var (count, afterCount) :- Read(afterId, 1);
        var (colours, rest) :- Read(afterCount, (count[0] + 1) * TPixelSize(pf));
        Some((Palette(count[0], colours), rest))
      else if id[0] == 2 then Some((Gradient, afterId))
      else None
  }

  function DecodeTightData(size: nat, input: bytes): Option<(TightData, bytes)> {
    if size < 12 then
      var (pixels, rest) :- Read(input, size);
      Some((Plain(pixels), rest))
    else
      var (chunk, rest) :- DecodeChunk(input);
      Some((Deflated(chunk), rest))
  }

  function DecodeBasic(pf: PixelFormat, w: u16, h: u16, explicit: bool, stream: nat, input: bytes): Option<(TightImage, bytes)> {
    var (filter, afterFilter) :- DecodeFilter(pf, explicit, input);
    var (data, tail) :- DecodeTightData(TightSize(pf, w, h, filter), afterFilter);
    Some((Basic(stream, filter, data), tail))
  }

  /** `rest` is the high half of the compression-control octet. */
  function DecodeImage(pf: PixelFormat, w: u16, h: u16, rest: nat, input: bytes): Option<(TightImage, bytes)> {
    if rest == 0x8 then
      var (colour, tail) :- Read(input, TPixelSize(pf));
      Some((Fill(colour), tail))
    else if rest == 0x9 then
      var (chunk, tail) :- DecodeChunk(input);
      Some((Jpeg(chunk), tail))
    else if rest < 0x8 then
      DecodeBasic(pf, w, h, rest >= 4, if rest >= 4 then rest - 4 else rest, input)
    else
      None
  }

  function DecodeTight(pf: PixelFormat, w: u16, h: u16, input: bytes): Option<(Body, bytes)> {
    var (control, afterControl) :- Read(input, 1);
    var (image, tail) :- DecodeImage(pf, w, h, control[0] / 0x10, afterControl);
    Some((Tight(control[0] % 0x10, image), tail))
  }

  function DecodeRre(pf: PixelFormat, input: bytes): Option<(Body, bytes)> {
    var (count, afterCount) :- Read(input, 4);
    var (background, afterBackground) :- Read(afterCount, BytesPerPixel(pf));
    var (subrectangles, rest) :- Read(afterBackground, Times(GetU32(count), BytesPerPixel(pf) + 8));
    Some((Rre(GetU32(count), background, subrectangles), rest))
  }

  function DecodeXCursor(w: u16, h: u16, input: bytes): Option<(Body, bytes)> {
    if w == 0 || h == 0 then
      Some((XCursor([], [], []), input))
    else
      var (colours, afterColours) :- Read(input, 6);
      var (bitmap, afterBitmap) :- Read(afterColours, MaskSize(w, h));
      var (mask, rest) :- Read(afterBitmap, MaskSize(w, h));
      Some((XCursor(colours, bitmap, mask), rest))
  }

  function DecodeDesktopName(input: bytes): Option<(Body, bytes)> {
    var (length, afterLength) :- Read(input, 4);
    var (name, rest) :- Read(afterLength, GetU32(length));
    Some((DesktopName(name), rest))
  }

  function DecodeExtendedDesktopSize(input: bytes): Option<(Body, bytes)> {
    var (screens, afterScreens) :- Read(input, 1);
    var (padding, afterPadding) :- Read(afterScreens, 3);
    var (layout, rest) :- Read(afterPadding, 16 * (screens[0] as int));
    Some((ExtendedDesktopSize(screens[0], padding, layout), rest))
  }

  function DecodeCursor(pf: PixelFormat, w: u16, h: u16, input: bytes): Option<(Body, bytes)> {
    var (pixels, afterPixels) :- Read(input, PixelsSize(pf, w, h));
    var (mask, rest) :- Read(afterPixels, MaskSize(w, h));
    Some((Cursor(pixels, mask), rest))
  }

  /** Rectangles that carry an image. */
  function DecodeImageBody(pf: PixelFormat, hd: RectHeader, input: bytes): Option<(Body, bytes)> {
    if hd.encoding == RAW then
      var (pixels, rest) :- Read(input, PixelsSize(pf, hd.w, hd.h));
      Some((Raw(pixels), rest))
    else if hd.encoding == COPY_RECT then
      var (source, rest) :- Read(input, 4);
      Some((CopyRect(GetU16(source[..2]), GetU16(source[2..])), rest))
    else if hd.encoding == RRE then
      DecodeRre(pf, input)
    else if hd.encoding == TIGHT then
      DecodeTight(pf, hd.w, hd.h, input)
    else
      None
  }

  /** Pseudo-encodings. */
  function DecodePseudoBody(pf: PixelFormat, hd: RectHeader, input: bytes): Option<(Body, bytes)> {
    if hd.encoding == CURSOR then
      DecodeCursor(pf, hd.w, hd.h, input)
    else if hd.encoding == X_CURSOR then
      DecodeXCursor(hd.w, hd.h, input)
    else if hd.encoding == DESKTOP_SIZE then
      Some((DesktopSize, input))
    else if hd.encoding == LAST_RECT then
      Some((LastRect, input))
    else if hd.encoding == DESKTOP_NAME then
      DecodeDesktopName(input)
    else if hd.encoding == EXTENDED_DESKTOP_SIZE then
      DecodeExtendedDesktopSize(input)
    else
      None
  }

  function DecodeBody(pf: PixelFormat, hd: RectHeader, input: bytes): Option<(Body, bytes)> {
    if hd.encoding >= 0 then DecodeImageBody(pf, hd, input) else DecodePseudoBody(pf, hd, input)
  }

  function DecodeRect(pf: PixelFormat, input: bytes): Option<(Rect, bytes)> {
    var (b, afterHeader) :- Read(input, RECT_HEADER_SIZE);
    var hd := GetHeader(b);
    var (body, rest) :- DecodeBody(pf, hd, afterHeader);
    Some((Rect(hd.x, hd.y, hd.w, hd.h, body), rest))
  }

  /** At most n rectangles; LastRect ends the update early. */
  function DecodeRects(pf: PixelFormat, n: nat, input: bytes): Option<(seq<Rect>, bytes)> {
    if n == 0 then
      Some(([], input))
    else
      var (r, afterRect) :- DecodeRect(pf, input);
      if r.body.LastRect? then
        Some(([r], afterRect))
      else
        var (rs, rest) :- DecodeRects(pf, n - 1, afterRect);
        Some(([r] + rs, rest))
  }

  datatype Update = Update(padding: byte, count: u16, rects: seq<Rect>)

  function DecodeUpdate(pf: PixelFormat, input: bytes): Option<(Update, bytes)> {
    var (b, afterHeader) :- Read(input, 4);
    if b[0] != FRAMEBUFFER_UPDATE then
      None
    else
      var count := GetU16(b[2..]);
      var (rects, rest) :- DecodeRects(pf, count, afterHeader);
      Some((Update(b[1], count, rects), rest))
  }

  // ---------------------------------------------------------------- encoding

  function EncodeChunk(c: Chunk): bytes {
    c.length + c.data
  }

  function FilterBytes(f: TightFilter): bytes {
    match f
    case Implicit => []
    case CopyFilter => [0]
    case Palette(count, colours) => [1, count] + colours
    case Gradient => [2]
  }

  function TightDataBytes(d: TightData): bytes {
    match d
    case Plain(pixels) => pixels
    case Deflated(chunk) => EncodeChunk(chunk)
  }

  function ImageRest(i: TightImage): nat {
    match i
    case Fill(_) => 8
    case Jpeg(_) => 9
    case Basic(stream, filter, _) => (if stream < 4 then stream else 0) + (if filter.Implicit? then 0 else 4)
  }

  function ImageBytes(i: TightImage): bytes {
    match i
    case Fill(colour) => colour
    case Jpeg(chunk) => EncodeChunk(chunk)
    case Basic(_, filter, data) => FilterBytes(filter) + TightDataBytes(data)
  }

  function EncodeBody(b: Body): bytes {
    match b
    case Raw(pixels) => pixels
    case CopyRect(srcX, srcY) => PutU16(srcX) + PutU16(srcY)
    case Rre(count, background, subrectangles) => PutU32(count) + (background + subrectangles)
    case Cursor(pixels, mask) => pixels + mask
    case XCursor(colours, bitmap, mask) => colours + (bitmap + mask)
    case DesktopSize => []
    case LastRect => []
    case DesktopName(name) => PutU32(if |name| < 0x1_0000_0000 then |name| else 0) + name
    case ExtendedDesktopSize(screens, padding, layout) => [screens] + (padding + layout)
    case Tight(resets, image) => [ImageRest(image) * 0x10 + resets % 0x10] + ImageBytes(image)
  }

  function EncodeRect(r: Rect): bytes {
    PutHeader(r.Header()) + EncodeBody(r.body)
  }

  function EncodeRects(rs: seq<Rect>): bytes {
    if rs == [] then [] else EncodeRect(rs[0]) + EncodeRects(rs[1..])
  }

  // ---------------------------------------------------------------- well-formedness

  ghost predicate ChunkOk(c: Chunk) {
    CompactShape(c.length) && |c.data| == CompactLength(c.length)
  }

  ghost predicate DataOk(size: nat, d: TightData) {
    match d
    case Plain(pixels) => |pixels| == size < 12
    case Deflated(chunk) => size >= 12 && ChunkOk(chunk)
  }

  ghost predicate ImageOk(pf: PixelFormat, w: nat, h: nat, i: TightImage) {
    match i
    case Fill(colour) => |colour| == TPixelSize(pf)
    case Jpeg(chunk) => ChunkOk(chunk)
    case Basic(stream, filter, data) =>
      && stream < 4
      && (filter.Palette? ==> |filter.colours| == (filter.count + 1) * TPixelSize(pf))
      && DataOk(TightSize(pf, w, h, filter), data)
  }

  ghost predicate BodyOk(pf: PixelFormat, w: nat, h: nat, b: Body) {
    match b
    case Raw(pixels) => |pixels| == PixelsSize(pf, w, h)
    case Rre(count, background, subrectangles) =>
      |background| == BytesPerPixel(pf) && |subrectangles| == Times(count, BytesPerPixel(pf) + 8)
    case Cursor(pixels, mask) => |pixels| == PixelsSize(pf, w, h) && |mask| == MaskSize(w, h)
    case XCursor(colours, bitmap, mask) =>
      if w == 0 || h == 0 then colours == bitmap == mask == []
      else |colours| == 6 && |bitmap| == |mask| == MaskSize(w, h)
    case DesktopName(name) => |name| < 0x1_0000_0000
    case ExtendedDesktopSize(screens, padding, layout) => |padding| == 3 && |layout| == 16 * screens
    case Tight(resets, image) => resets < 0x10 && ImageOk(pf, w, h, image)
    case _ => true
  }

  /** The payload of r has exactly the size the standard gives it. */
  ghost predicate RectOk(pf: PixelFormat, r: Rect) {
    BodyOk(pf, r.w, r.h, r.body)
  }

  ghost predicate RectsOk(pf: PixelFormat, rs: seq<Rect>) {
    forall k :: 0 <= k < |rs| ==> RectOk(pf, rs[k])
  }

  /** LastRect can only be the last rectangle of an update. */
  ghost predicate LastRectLast(rs: seq<Rect>) {
    forall k :: 0 <= k < |rs| - 1 ==> !rs[k].body.LastRect?
  }

  predicate EndsInLastRect(rs: seq<Rect>) {
    |rs| > 0 && rs[|rs| - 1].body.LastRect?
  }
}
