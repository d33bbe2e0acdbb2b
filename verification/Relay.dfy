/** VncTunnel::processFramebufferUpdate as a function of the octets the server
    has sent: which octets the client gets, which are left, and how the tunnel's
    own fields change (VncTunnel.cpp:442-653). Class VncTunnel implements it;
    module RelayProofs says what it means. */
module Relay {
  import opened Bytes
  import opened Desktop
  import opened Failures
  import opened Rfb

  /** What one peer still has to say, and what the other has been told. */
  datatype Io = Io(input: bytes, output: bytes)

  function Take(io: Io, n: nat): Result<(bytes, Io)> {
    if n <= |io.input| then Success((io.input[..n], io.(input := io.input[n..]))) else Failure(Eof)
  }

  function Put(io: Io, b: bytes): Io {
    io.(output := io.output + b)
  }

  /** Read n octets, use them, and pass them on. */
  function Copy(io: Io, n: nat): Result<(bytes, Io)> {
    var (b, io1) :- Take(io, n);
    Success((b, Put(io1, b)))
  }

  function Forward(io: Io, n: nat): Result<Io> {
    var (_, io1) :- Copy(io, n);
    Success(io1)
  }

  // ---------------------------------------------------------------- fixed-width sizes

  /** The value of a signed 32-bit operation on sizes, none of which is negative.
      Overflow is undefined behaviour. */
  function Fits(x: nat): Result<nat> {
    if x <= INT_MAX then Success(x) else Failure(Undefined)
  }

  /** VncTunnel.cpp:483 */
  function RawSize(pf: PixelFormat, w: u16, h: u16): (r: Result<nat>)
  {
    var area :- Fits(Times(w, h));
    var bits :- Fits(Times(area, pf.bitsPerPixel));
    Success(bits / 8)
  }

  /** VncTunnel.cpp:491 */
  function CursorSize(pf: PixelFormat, w: u16, h: u16): Result<nat> {
    var pixels :- RawSize(pf, w, h);
    var mask :- Fits(Times((w + 7) / 8, h));
    var sum :- Fits(pixels + mask);
    Success(sum)
  }

  /** VncTunnel.cpp:495 */
  function XCursorSize(w: u16, h: u16): Result<nat> {
    var mask :- Fits(Times((w + 7) / 8, h));
    var masks :- Fits(mask * 2);
    var sum :- Fits(6 + masks);
    Success(sum)
  }

  /** VncTunnel.cpp:512, where the subrectangle count makes everything unsigned. */
  function RreSize(pf: PixelFormat, count: u32): nat {
    (pf.bitsPerPixel / 8 + Times(count, pf.bitsPerPixel / 8 + 8)) % 0x1_0000_0000
  }

  /** VncTunnel.cpp:628 */
  function TightDataSize(w: u16, h: u16, bpp: byte): Result<nat> {
    var row :- Fits(Times(w, bpp) + 7);
    var size :- Fits(Times(row / 8, h));
    Success(size)
  }

  // ---------------------------------------------------------------- one rectangle

  /** What the tunnel knows about its client. */
  datatype Config = Config(encodings: set<s32>, pf: PixelFormat)

  /** Fields that an update changes: m_tightZlibResetQueued, the connection's
      framebuffer size and the session's desktop name and keys. */
  datatype Fields = Fields(resetQueued: bool, width: u16, height: u16, desktop: Desktop)

  datatype Progress = Progress(fields: Fields, mustUseLastRect: bool, lastRectReceived: bool)

  const DUMMY_RAW := RectHeader(0, 0, 1, 1, RAW)
  const DUMMY_COPY_RECT := RectHeader(0, 0, 1, 1, COPY_RECT)
  const LAST_RECT_HEADER := RectHeader(0, 0, 0, 0, LAST_RECT)
  const NAME_HEADER := RectHeader(0, 0, 0, 0, DESKTOP_NAME)

  function Zeros(n: nat): (z: bytes)
    ensures |z| == n
  {
    seq(n, _ => 0)
  }

  /** A name after its 32-bit length. */
  function NameBytes(name: bytes): bytes {
    PutU32(|name| % 0x1_0000_0000) + name
  }

  /** VncTunnel::sendDummyRectangle */
  function SendDummy(cfg: Config, io: Io): Result<Io> {
    if RAW in cfg.encodings then
      Success(Put(Put(io, PutHeader(DUMMY_RAW)), Zeros(cfg.pf.bitsPerPixel / 8)))
    else if COPY_RECT in cfg.encodings then
      Success(Put(Put(io, PutHeader(DUMMY_COPY_RECT)), PutU16(1) + PutU16(0)))
    else
      Failure(NoDummyEncoding)
  }

  /** The lambda forwardTightVariableLengthData */
  function RelayChunk(io: Io): Result<Io> {
    var (first, io1) :- Copy(io, 1);
    var low: int := first[0] % 0x80;
    if first[0] < 0x80 then
      Forward(io1, low)
    else
      var (second, io2) :- Copy(io1, 1);
      var middle: int := second[0] % 0x80;
      if second[0] < 0x80 then
        Forward(io2, low + middle * 0x80)
      else
        var (third, io3) :- Copy(io2, 1);
        var high: int := third[0];
        Forward(io3, low + middle * 0x80 + high * 0x4000)
  }

  /** The filter and palette of basic compression: the bits per pixel that the
      data size is computed from. */
  function RelayFilter(pf: PixelFormat, control: byte, io: Io): Result<(byte, Io)> {
    if !ReadsFilterId(control) then
      Success((pf.bitsPerPixel, io))
    else
      var (filter, io1) :- Copy(io, 1);
      if filter[0] != 1 then
        Success((pf.bitsPerPixel, io1))
      else
        var (count, io2) :- Copy(io1, 1);
        var colours := (count[0] as int) + 1;
        var io3 :- Forward(io2, TIGHT_PIXEL_SIZE * colours);
        Success((if colours <= 2 then 1 else 8, io3))
  }

  function RelayBasic(pf: PixelFormat, w: u16, h: u16, control: byte, io: Io): Result<Io> {
    var (bpp, io1) :- RelayFilter(pf, control, io);
    var size :- TightDataSize(w, h, bpp);
    if size < TIGHT_MIN_SIZE_TO_COMPRESS then Forward(io1, size) else RelayChunk(io1)
  }

  /** What follows the compression-control octet. */
  function RelayTightImage(pf: PixelFormat, w: u16, h: u16, control: byte, io: Io): Result<Io> {
    if IsFill(control) then
      Forward(io, TIGHT_PIXEL_SIZE)
    else if IsJpeg(control) then
      RelayChunk(io)
    else
      RelayBasic(pf, w, h, control, io)
  }

  function RelayTight(cfg: Config, p: Progress, hd: RectHeader, io: Io): Result<(Progress, Io)> {
    var (b, io1) :- Take(Put(io, PutHeader(hd)), 1);
    var control := if p.fields.resetQueued then WithAllResets(b[0]) else b[0];
    var io2 :- RelayTightImage(cfg.pf, hd.w, hd.h, control, Put(io1, [control]));
    Success((p.(fields := p.fields.(resetQueued := false)), io2))
  }

  function RelayDesktopName(cfg: Config, p: Progress, hd: RectHeader, io: Io): Result<(Progress, Io)> {
    var (length, io1) :- Take(io, 4);
    var (name, io2) :- Take(io1, GetU32(length));
    var desktop := SetName(p.fields.desktop, name);
    var p1 := p.(fields := p.fields.(desktop := desktop));
    if DESKTOP_NAME in cfg.encodings then
      Success((p1, Put(Put(io2, PutHeader(hd)), NameBytes(desktop.name))))
    else if LAST_RECT in cfg.encodings then
      Success((p1.(mustUseLastRect := true), io2))
    else
      var io3 :- SendDummy(cfg, io2);
      Success((p1, io3))
  }

  function RelayExtendedDesktopSize(p: Progress, hd: RectHeader, io: Io): Result<(Progress, Io)> {
    var p1 := if hd.y == 0 then p.(fields := p.fields.(width := hd.w, height := hd.h)) else p;
    var (data, io1) :- Copy(Put(io, PutHeader(hd)), 4);
    var screens: int := data[0];
    var io2 :- Forward(io1, 16 * screens);
    Success((p1, io2))
  }

  function RelayRre(cfg: Config, p: Progress, hd: RectHeader, io: Io): Result<(Progress, Io)> {
    var (count, io1) :- Copy(Put(io, PutHeader(hd)), 4);
    var io2 :- Forward(io1, RreSize(cfg.pf, GetU32(count)));
    Success((p, io2))
  }

  /** Encodings whose size follows from the header alone. */
  function PassThruSize(cfg: Config, hd: RectHeader): Result<nat>
    requires hd.encoding in {RAW, COPY_RECT, CURSOR, X_CURSOR}
  {
    if hd.encoding == RAW then RawSize(cfg.pf, hd.w, hd.h)
    else if hd.encoding == COPY_RECT then Success(4)
    else if hd.encoding == CURSOR then CursorSize(cfg.pf, hd.w, hd.h)
    else XCursorSize(hd.w, hd.h)
  }

  function RelayPassThru(cfg: Config, p: Progress, hd: RectHeader, io: Io): Result<(Progress, Io)>
    requires hd.encoding in {RAW, COPY_RECT, CURSOR, X_CURSOR}
  {
    var size :- PassThruSize(cfg, hd);
    var io1 :- Forward(Put(io, PutHeader(hd)), size);
    Success((p, io1))
  }

  function RelayBody(cfg: Config, p: Progress, hd: RectHeader, io: Io): Result<(Progress, Io)> {
    if hd.encoding in {RAW, COPY_RECT, CURSOR, X_CURSOR} then
      RelayPassThru(cfg, p, hd, io)
    else if hd.encoding == RRE then
      RelayRre(cfg, p, hd, io)
    else if hd.encoding == DESKTOP_SIZE then
      Success((p.(fields := p.fields.(width := hd.w, height := hd.h)), Put(io, PutHeader(hd))))
    else if hd.encoding == LAST_RECT then
      Success((p.(lastRectReceived := true), Put(io, PutHeader(hd))))
    else if hd.encoding == DESKTOP_NAME then
      RelayDesktopName(cfg, p, hd, io)
    else if hd.encoding == EXTENDED_DESKTOP_SIZE then
      RelayExtendedDesktopSize(p, hd, io)
    else if hd.encoding == TIGHT then
      RelayTight(cfg, p, hd, io)
    else
      Failure(UnknownEncoding)
  }

  function RelayRect(cfg: Config, p: Progress, io: Io): Result<(Progress, Io)> {
    var (b, io1) :- Take(io, RECT_HEADER_SIZE);
    RelayBody(cfg, p, GetHeader(b), io1)
  }

  // ---------------------------------------------------------------- the whole update

  function RelayRects(cfg: Config, p: Progress, n: nat, io: Io): Result<(Progress, Io)>
    decreases n
  {
    hide RelayRect;
    if n == 0 || p.lastRectReceived then
      Success((p, io))
    else
      var (p1, io1) :- RelayRect(cfg, p, io);
      RelayRects(cfg, p1, n - 1, io1)
  }

  /** VncTunnel::countExtraRectangles */
  function ExtraRectangles(nameQueued: bool): nat {
    if nameQueued then 1 else 0
  }

  /** Whether the count saturates. */
  predicate Saturates(count: u16, nameQueued: bool) {
    count > U16_MAX - ExtraRectangles(nameQueued)
  }

  /** The count put into the header sent to the client. */
  function Announced(count: u16, nameQueued: bool): u16 {
    if Saturates(count, nameQueued) then U16_MAX else count + ExtraRectangles(nameQueued)
  }

  /** VncTunnel::sendExtraRectangles */
  function SendExtra(nameQueued: bool, desktop: Desktop, io: Io): Io {
    if nameQueued then Put(Put(io, PutHeader(NAME_HEADER)), NameBytes(desktop.name)) else io
  }

  /** The LastRect appended when rectangles were dropped or the count saturated. */
  function Finish(cfg: Config, p: Progress, io: Io): Io {
    if LAST_RECT in cfg.encodings && p.mustUseLastRect && !p.lastRectReceived
    then Put(io, PutHeader(LAST_RECT_HEADER)) else io
  }

  function RelayUpdate(cfg: Config, nameQueued: bool, fields: Fields, io: Io): Result<(Fields, Io)> {
    var (b, io1) :- Take(io, 4);
    var count := GetU16(b[2..]);
    if Saturates(count, nameQueued) && LAST_RECT !in cfg.encodings then
      Failure(TooManyRectangles)
    else
      var io2 := Put(io1, [b[0], b[1]] + PutU16(Announced(count, nameQueued)));
      var p := Progress(fields, Saturates(count, nameQueued), false);
      var (p1, io3) :- RelayRects(cfg, p, count, SendExtra(nameQueued, fields.desktop, io2));
      Success((p1.fields, Finish(cfg, p1, io3)))
  }

  function RelayServerCutText(io: Io): Result<Io> {
    var (b, io1) :- Copy(io, 8);
    Forward(io1, GetU32(b[4..]))
  }

  /** The entries are forwarded, and then the dispatch throws. */
  function RelayColourMap(io: Io): Error {
    match Copy(io, 6)
    case Failure(e) => e
    case Success((b, io1)) => (match Forward(io1, 6 * GetU16(b[4..])) case Failure(e) => e case Success(_) => ColourMapUnsupported)
  }

  /** VncTunnel::serverReceive: whether a name is still queued, the fields and the
      streams after one server message. */
  function RelayServer(cfg: Config, nameQueued: bool, fields: Fields, io: Io): Result<((bool, Fields), Io)> {
    var (kind, _) :- Take(io, 1);
    if kind[0] == FRAMEBUFFER_UPDATE then
      var (fields1, io1) :- RelayUpdate(cfg, nameQueued, fields, io);
      Success(((false, fields1), io1))
    else if kind[0] == SET_COLOUR_MAP_ENTRIES then
      Failure(RelayColourMap(io))
    else if kind[0] == BELL then
      var io1 :- Forward(io, 1);
      Success(((nameQueued, fields), io1))
    else if kind[0] == SERVER_CUT_TEXT then
      var io1 :- RelayServerCutText(io);
      Success(((nameQueued, fields), io1))
    else
      Failure(UnknownMessage)
  }
}
