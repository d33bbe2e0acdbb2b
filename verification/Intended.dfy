/** The image the client is meant to receive, rectangle by rectangle, and the
    conditions under which the tunnel's fixed-width framing is the standard's. */
module Intended {
  import opened Bytes
  import opened Desktop
  import opened Failures
  import opened Relay
  import opened Rfb
  import opened Standard

  /** A black pixel, or a copy of the pixel to the right, in the top left corner. */
  function Dummy(cfg: Config): Rect {
    if RAW in cfg.encodings then Rect(0, 0, 1, 1, Raw(Zeros(cfg.pf.bitsPerPixel / 8)))
    else Rect(0, 0, 1, 1, CopyRect(1, 0))
  }

  function NameRect(name: bytes): Rect {
    Rect(0, 0, 0, 0, DesktopName(name))
  }

  const LAST: Rect := Rect(0, 0, 0, 0, LastRect)

  /** How the server's rectangle changes the tunnel's fields. */
  function After(f: Fields, r: Rect): Fields {
    match r.body
    case DesktopName(name) => f.(desktop := SetName(f.desktop, name))
    case DesktopSize => f.(width := r.w, height := r.h)
    case ExtendedDesktopSize(_, _, _) => if r.y == 0 then f.(width := r.w, height := r.h) else f
    case Tight(_, _) => f.(resetQueued := false)
    case _ => f
  }

  /** Whether the rectangle disappears, so that LastRect must end the update. */
  predicate Drops(cfg: Config, r: Rect) {
    r.body.DesktopName? && DESKTOP_NAME !in cfg.encodings && LAST_RECT in cfg.encodings
  }

  /** What the client is to see in place of r: DesktopName carries the stored
      name, is dropped or becomes a dummy; the first Tight rectangle after a
      switch resets all four zlib streams; everything else is r itself. */
  function Image(cfg: Config, f: Fields, r: Rect): seq<Rect> {
    match r.body
    case DesktopName(_) =>
      if DESKTOP_NAME in cfg.encodings then [r.(body := DesktopName(After(f, r).desktop.name))]
      else if LAST_RECT in cfg.encodings then []
      else [Dummy(cfg)]
    case Tight(resets, image) =>
      [r.(body := Tight(if f.resetQueued then 0xF else resets, image))]
    case _ => [r]
  }

  function AfterAll(f: Fields, rs: seq<Rect>): Fields
    decreases |rs|
  {
    if rs == [] then f else AfterAll(After(f, rs[0]), rs[1..])
  }

  function Images(cfg: Config, f: Fields, rs: seq<Rect>): seq<Rect>
    decreases |rs|
  {
    if rs == [] then [] else Image(cfg, f, rs[0]) + Images(cfg, After(f, rs[0]), rs[1..])
  }

  function Extra(nameQueued: bool, d: Desktop): seq<Rect> {
    if nameQueued then [NameRect(d.name)] else []
  }

  predicate DropsSome(cfg: Config, rs: seq<Rect>) {
    exists r :: r in rs && Drops(cfg, r)
  }

  /** LastRect is appended when something was dropped or the count saturated,
      unless the server already ended with it. */
  function Ending(cfg: Config, nameQueued: bool, u: Update): seq<Rect> {
    if LAST_RECT in cfg.encodings && (Saturates(u.count, nameQueued) || DropsSome(cfg, u.rects)) && !EndsInLastRect(u.rects)
    then [LAST] else []
  }

  /** The update the client is meant to see. */
  function ClientView(cfg: Config, nameQueued: bool, f: Fields, u: Update): seq<Rect> {
    Extra(nameQueued, f.desktop) + Images(cfg, f, u.rects) + Ending(cfg, nameQueued, u)
  }

  // ---------------------------------------------------------------- premises

  /** Tight's three-octet pixels and 32-bit data sizes frame this image as the
      standard does. */
  predicate TightFramed(pf: PixelFormat, w: nat, h: nat, i: TightImage) {
    match i
    case Fill(_) => TPixelSize(pf) == 3
    case Jpeg(_) => true
    case Basic(_, Palette(count, _), _) => TPixelSize(pf) == 3 && (count <= 1 || w * h <= INT_MAX)
    case Basic(_, _, _) =>
      && w * BytesPerPixel(pf) * h <= INT_MAX
      && (TPixelSize(pf) == BytesPerPixel(pf) || w * h == 0 || w * h >= 4)
  }

  /** The tunnel's size computation for r is the standard's. */
  predicate Framed(pf: PixelFormat, r: Rect) {
    match r.body
    case Raw(_) => r.w * r.h * pf.bitsPerPixel <= INT_MAX
    case Cursor(_, _) => r.w * r.h * pf.bitsPerPixel <= INT_MAX
    case XCursor(_, _, _) => r.w != 0 && r.h != 0
    case Rre(count, _, _) => BytesPerPixel(pf) + Times(count, BytesPerPixel(pf) + 8) < 0x1_0000_0000
    case Tight(_, image) => TightFramed(pf, r.w, r.h, image)
    case _ => true
  }

  /** A dropped name can be replaced by something the client understands. */
  predicate Substitutable(cfg: Config, r: Rect) {
    r.body.DesktopName? ==>
      exists e :: e in {DESKTOP_NAME, LAST_RECT, RAW, COPY_RECT} && e in cfg.encodings
  }

  predicate AllFramed(pf: PixelFormat, rs: seq<Rect>) {
    forall k :: 0 <= k < |rs| ==> Framed(pf, rs[k])
  }

  predicate AllSubstitutable(cfg: Config, rs: seq<Rect>) {
    forall k :: 0 <= k < |rs| ==> Substitutable(cfg, rs[k])
  }
}
