/** VncTunnel::clientReceive and the handlers it dispatches to, as a function of
    the octets the client has sent (VncTunnel.cpp:279-411). */
module ClientRelay {
  import opened Bytes
  import opened ClientMessages
  import opened Failures
  import opened Relay
  import opened Rfb

  /** m_pixelFormat, m_supportedEncodingsClient, m_supportedEncodingsServer and
      m_tightEncodingDisabled. */
  datatype Settings = Settings(
    pf: PixelFormat,
    clientEncodings: set<s32>,
    serverEncodings: seq<s32>,
    tightDisabled: bool)

  /** Encodings the tunnel relays. */
  predicate Known(e: s32) {
    || e in {RAW, COPY_RECT, RRE, DESKTOP_SIZE, LAST_RECT, CURSOR, X_CURSOR, DESKTOP_NAME, EXTENDED_DESKTOP_SIZE, TIGHT}
    || JPEG_QUALITY_LOWEST <= e <= JPEG_QUALITY_HIGHEST
  }

  /** Encodings passed on to the server. */
  predicate Offered(tightDisabled: bool, e: s32) {
    Known(e) && !(e == TIGHT && tightDisabled)
  }

  function KnownOnes(l: seq<s32>): set<s32> {
    set e | e in l && Known(e)
  }

  /** The offered encodings of l in the order of l. */
  function Kept(tightDisabled: bool, l: seq<s32>): seq<s32> {
    if l == [] then []
    else
      var last := l[|l| - 1];
      Kept(tightDisabled, l[..|l| - 1]) + (if Offered(tightDisabled, last) then [last] else [])
  }

  /** VncTunnel::processSetEncodings */
  function Choose(s: Settings, l: seq<s32>): Settings {
    s.(clientEncodings := KnownOnes(l),
       serverEncodings := Kept(s.tightDisabled, l) + (if DESKTOP_NAME in l then [] else [DESKTOP_NAME]))
  }

  /** XvncConnection::sendSetEncodings; the count is cut to 16 bits. */
  function SetEncodingsBytes(l: seq<s32>): bytes {
    [SET_ENCODINGS, 0] + PutU16(|l| % 0x1_0000) + EncodeList(l)
  }

  /** XvncConnection::sendSetPixelFormat */
  function SetPixelFormatBytes(pf: PixelFormat): bytes
    requires pf.WellSized()
  {
    [SET_PIXEL_FORMAT, 0, 0, 0] + pf.Hton().Bytes()
  }

  function RelaySetPixelFormat(s: Settings, io: Io): Result<(Settings, Io)> {
    var (b, io1) :- Take(io, 20);
    var pf := ReadPixelFormat(b[4..]).Ntoh();
    if !pf.Valid() then Failure(InvalidPixelFormat)
    else Success((s.(pf := pf), Put(io1, SetPixelFormatBytes(pf))))
  }

  function RelaySetEncodings(s: Settings, io: Io): Result<(Settings, Io)> {
    var (b, io1) :- Take(io, 4);
    var (list, io2) :- Take(io1, 4 * GetU16(b[2..]));
    var s1 := Choose(s, DecodeList(list));
    Success((s1, Put(io2, SetEncodingsBytes(s1.serverEncodings))))
  }

  function RelayFixed(s: Settings, size: nat, io: Io): Result<(Settings, Io)> {
    var io1 :- Forward(io, size);
    Success((s, io1))
  }

  function RelayCutText(s: Settings, io: Io): Result<(Settings, Io)> {
    var (b, io1) :- Copy(io, 8);
    var io2 :- Forward(io1, GetU32(b[4..]));
    Success((s, io2))
  }

  function RelaySetDesktopSize(s: Settings, io: Io): Result<(Settings, Io)> {
    var (b, io1) :- Copy(io, 8);
    var screens: int := b[6];
    var io2 :- Forward(io1, screens * 16);
    Success((s, io2))
  }

  /** The handlers by message type. */
  function RelayMessage(kind: byte, s: Settings, io: Io): Result<(Settings, Io)> {
    if kind == SET_PIXEL_FORMAT then RelaySetPixelFormat(s, io)
    else if kind == SET_ENCODINGS then RelaySetEncodings(s, io)
    else if kind == FRAMEBUFFER_UPDATE_REQUEST then RelayFixed(s, 10, io)
    else if kind == KEY_EVENT then RelayFixed(s, 8, io)
    else if kind == POINTER_EVENT then RelayFixed(s, 6, io)
    else if kind == CLIENT_CUT_TEXT then RelayCutText(s, io)
    else if kind == SET_DESKTOP_SIZE then RelaySetDesktopSize(s, io)
    else Failure(UnknownMessage)
  }

  /** One dispatch: the type octet is read, pushed back, and read again by the
      handler. */
  function RelayClient(s: Settings, io: Io): Result<(Settings, Io)> {
    var (kind, _) :- Take(io, 1);
    RelayMessage(kind[0], s, io)
  }

  /** n dispatches in a row. */
  function RelayClients(s: Settings, n: nat, io: Io): Result<(Settings, Io)>
    decreases n
  {
    hide RelayClient;
    if n == 0 then Success((s, io))
    else
      var (s1, io1) :- RelayClient(s, io);
      RelayClients(s1, n - 1, io1)
  }
}
