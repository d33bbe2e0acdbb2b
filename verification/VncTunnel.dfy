/** VncTunnel.cpp: the proxy between one client and its current Xvnc. Each
    handler is proved to compute its specification in modules Relay and
    ClientRelay, on the two streams and the object's own fields. */
module Tunnels {
  import opened Bytes
  import opened ClientMessages
  import C = ClientRelay
  import D = Desktop
  import opened Failures
  import opened Greeters
  import H = Handshake
  import I = Initialization
  import ML = MainLoop
  import opened ReadSelectors
  import R = Relay
  import opened Rfb
  import opened Sessions
  import opened StreamFormatters
  import opened Streams
  import S = Switching
  import opened XvncConnections

  /** What a handler did, against its specification: the same value and the same
      streams, or the same exception. A failing system call may strike anywhere. */
  ghost predicate Follows<T>(actual: Result<T>, spec: Result<(T, R.Io)>, io: R.Io) {
    match actual
    case Success(v) => spec == Success((v, io))
    case Failure(e) => e == Errno || spec == Failure(e)
  }

  /** What the greeter's line asks for. */
  datatype Command =
    | NoCommand
    | Open(xvnc: Xvnc, stream: FdStream)
    | Answered(encrypt: (bytes, bytes) -> bytes, answer: I.Answer)
  {
    ghost function Touched(): set<object> {
      match this
      case Open(xvnc, stream) => {xvnc, xvnc.m_xvncManager, stream}
      case _ => {}
    }
  }

  class VncTunnel {
    const m_streamFormatter: StreamFormatter
    const m_selector: ReadSelector<Handler, Pointers>
    var m_currentConnection: XvncConnection
    var m_potentialConnection: XvncConnection?
    var m_greeterConnection: GreeterConnection?
    var m_pixelFormat: PixelFormat
    var m_supportedEncodingsClient: set<s32>
    var m_supportedEncodingsServer: seq<s32>
    var m_tightZlibResetQueued: bool
    var m_desktopNameChangeQueued: bool
    var m_tightEncodingDisabled: bool

    /** The state in which start() enters its main loop: the connection is
        initialized and its format becomes the tunnel's. Tight stays disabled
        while a greeter is shown. */
    constructor (client: StreamFormatter, connection: XvncConnection, greeter: GreeterConnection?)
      requires client.Valid() && connection.m_streamFormatter.Valid() && connection.m_pixelFormat.WellSized()
      requires client != connection.m_streamFormatter && client.stream != connection.m_streamFormatter.stream
      requires client.buffer != connection.m_streamFormatter.buffer
      ensures Valid() && m_streamFormatter == client && m_currentConnection == connection
      ensures m_potentialConnection == null && m_greeterConnection == greeter
      ensures Settings() == C.Settings(connection.m_pixelFormat, {}, [], greeter != null)
      ensures !m_tightZlibResetQueued && !m_desktopNameChangeQueued
      ensures m_selector.m_fds == map[]
    {
      m_streamFormatter, m_currentConnection, m_potentialConnection, m_greeterConnection := client, connection, null, greeter;
      m_pixelFormat, m_supportedEncodingsClient, m_supportedEncodingsServer := connection.m_pixelFormat, {}, [];
      m_tightZlibResetQueued, m_desktopNameChangeQueued, m_tightEncodingDisabled := false, false, greeter != null;
      m_selector := new ReadSelector();
    }

    // ---------------------------------------------------------------- abstraction

    ghost function Client(): StreamFormatter {
      m_streamFormatter
    }

    ghost function Server(): StreamFormatter
      reads this
    {
      m_currentConnection.m_streamFormatter
    }

    ghost predicate Valid()
      reads this, Client(), Client().stream, Server(), Server().stream
    {
      && Client().Valid() && Server().Valid()
      && Client() != Server() && Client().stream != Server().stream && Client().buffer != Server().buffer
      && m_pixelFormat.WellSized()
    }

    function Cfg(): R.Config
      reads this
    {
      R.Config(m_supportedEncodingsClient, m_pixelFormat)
    }

    ghost function Fields(): R.Fields
      reads this, m_currentConnection, m_currentConnection.m_xvnc
    {
      R.Fields(m_tightZlibResetQueued, m_currentConnection.m_framebufferWidth, m_currentConnection.m_framebufferHeight,
        m_currentConnection.m_xvnc.Desktop())
    }

    ghost function Settings(): C.Settings
      reads this
    {
      C.Settings(m_pixelFormat, m_supportedEncodingsClient, m_supportedEncodingsServer, m_tightEncodingDisabled)
    }

    ghost function State(): S.Tunnel
      reads this, m_currentConnection, m_currentConnection.m_xvnc
    {
      S.Tunnel(Settings(), LinkOf(m_currentConnection), m_potentialConnection != null, m_greeterConnection != null,
        m_tightZlibResetQueued, m_desktopNameChangeQueued)
    }

    static ghost function LinkOf(c: XvncConnection): S.Link
      reads c, c.m_xvnc
    {
      S.Link(c.m_pixelFormat, c.m_framebufferWidth, c.m_framebufferHeight, c.m_xvnc.Desktop())
    }

    /** Server to client. */
    ghost function Down(): R.Io
      requires Valid()
      reads this, Client(), Client().stream, Server(), Server().stream, Server().buffer
    {
      R.Io(Server().Pending(), Client().stream.outgoing)
    }

    /** Client to server. */
    ghost function Up(): R.Io
      requires Valid()
      reads this, Client(), Client().stream, Client().buffer, Server(), Server().stream
    {
      R.Io(Client().Pending(), Server().stream.outgoing)
    }

    /** What the dispatch of module ReadSelectors goes by. */
    ghost function Pointers(): Pointers
      reads this, Server().stream
    {
      ReadSelectors.Pointers(Server().stream.m_fd,
        if m_greeterConnection == null then None else Some(m_greeterConnection.m_greeterStdout))
    }

    predicate ClientSupportsEncoding(encoding: s32)
      reads this
    {
      encoding in m_supportedEncodingsClient
    }

    /** The first half of VncTunnel::select: the handlers for the descriptors of the
        moment. Open descriptors differ from each other. */
    method RegisterHandlers()
      requires Valid()
      requires
        var p := Pointers();
        && Client().stream.m_fd != p.serverFd
        && (p.greeterFd.Some? ==> p.greeterFd.value != Client().stream.m_fd && p.greeterFd.value != p.serverFd)
      modifies m_selector`m_fds
      ensures m_selector.m_fds == Registered(Client().stream.m_fd, Pointers())
    {
      m_selector.Clear();
      m_selector.AddFD(m_streamFormatter.stream.m_fd, Handler.ClientReceive);
      m_selector.AddFD(m_currentConnection.m_streamFormatter.stream.m_fd, Handler.ServerReceive);
      if m_greeterConnection != null {
        m_selector.AddFD(m_greeterConnection.m_greeterStdout, Handler.GreeterReceive);
      }
    }

    // ---------------------------------------------------------------- the client's handshake

    /** The client's own stream: what it says and what it is told. */
    ghost function Greeting(): R.Io
      requires Valid()
      reads this, Client(), Client().stream, Client().buffer, Server(), Server().stream
    {
      R.Io(Client().Pending(), Client().stream.outgoing)
    }

    /** What the client is told about the current connection. */
    ghost function Served(): H.Display
      reads this, m_currentConnection, m_currentConnection.m_xvnc
    {
      H.Display(m_currentConnection.m_framebufferWidth, m_currentConnection.m_framebufferHeight,
        m_currentConnection.m_pixelFormat, m_currentConnection.m_xvnc.m_desktopName)
    }

    /** cFmt().send(value) */
    method Tell(b: bytes) returns (r: Result<Unit>)
      requires Valid()
      modifies Client().stream`outgoing
      ensures Valid()
      ensures r.Success? ==> Greeting() == R.Put(old(Greeting()), b)
      ensures r.Failure? ==> r.error == Errno
    {
      r := m_streamFormatter.Send(b);
    }

    /** cFmt().recv(value) during the handshake */
    method Ask(size: nat) returns (r: Result<bytes>)
      requires Valid()
      modifies Client()`bufferSize, Client().stream`incoming
      ensures Valid()
      ensures r.Success? ==> |r.value| == size && R.Take(old(Greeting()), size) == Success((r.value, Greeting()))
      ensures r.Failure? ==> r.error == Errno || (r.error == Eof && R.Take(old(Greeting()), size) == Failure(Eof))
    {
      r := m_streamFormatter.Recv(size);
    }

    /** What says no, sendReason, and the exception. */
    method Refuse(no: bytes, reason: string) returns (e: Error)
      requires Valid()
      modifies Client().stream`outgoing
      ensures Valid() && Greeting().input == old(Greeting()).input
      ensures e == Errno || (e == ClientRefused && Greeting().output == old(Greeting()).output + (no + H.Reason(reason)))
    {
      hide H.Reason;
      var first := Tell(no);
      if first.Failure? {
        return Errno;
      }
      var second := Tell(H.Reason(reason));
      if second.Failure? {
        return Errno;
      }
      return ClientRefused;
    }

    /** The offered security types and the client's choice. */
    method OfferTypes(securityTypes: bytes) returns (r: Result<byte>)
      requires Valid()
      modifies Client()`bufferSize, Client().stream`incoming, Client().stream`outgoing
      ensures Valid()
      ensures Follows(r, I.Offer(securityTypes, old(Greeting())), Greeting())
      ensures r == Failure(ClientRefused) ==>
                Greeting().output == old(Greeting()).output + I.RefusedOffer(securityTypes)
    {
      hide H.Reason, PutU32, R.Take;
      ghost var start := Greeting();
      var _ :- Tell([|securityTypes| % 0x100]);
      var _ :- Tell(securityTypes);
      ghost var offered := Greeting();
      var chosenSecurityType :- Ask(1);
      if chosenSecurityType[0] !in securityTypes {
        assert Greeting().output == offered.output;
        var e := Refuse(PutU32(1), H.BAD_TYPE);
        FourInARow(start.output, [|securityTypes| % 0x100], securityTypes, PutU32(1) + H.Reason(H.BAD_TYPE));
        return Failure(e);
      }
      return Success(chosenSecurityType[0]);
    }

    /** clientInitalize up to the client's choice of a security type. */
    method Negotiate(subtypes: seq<H.Subtype>) returns (r: Result<byte>)
      requires Valid()
      modifies Client()`bufferSize, Client().stream`incoming, Client().stream`outgoing
      ensures Valid()
      ensures Follows(r, I.Negotiate(H.TypesOf(subtypes), old(Greeting())), Greeting())
      ensures r == Failure(ClientRefused) ==>
                Greeting().output == old(Greeting()).output + I.Refusal(H.TypesOf(subtypes), old(Greeting()))
    {
      hide H.Reason, PutU32, H.TypesOf, I.Offer, I.RefusedOffer, StreamFormatter.Pending;
      ghost var start := Greeting();
      var _ :- Tell(H.VERSION);
      var versionString :- Ask(12);
      if versionString != H.VERSION {
        var e := Refuse([0], H.BAD_VERSION);
        FourInARow(start.output, [], H.VERSION, [0] + H.Reason(H.BAD_VERSION));
        return Failure(e);
      }
      var securityTypes := H.ConfiguredSecurityTypes(subtypes);
      r := OfferTypes(securityTypes);
      FourInARow(start.output, [], H.VERSION, I.RefusedOffer(securityTypes));
    }

    /** handleNoneSecurity and finishClientInitialization. */
    method FinishNone() returns (r: Result<Unit>)
      requires Valid() && m_currentConnection.m_pixelFormat.WellSized() && m_currentConnection.m_xvnc.Desktop().Valid()
      modifies Client()`bufferSize, Client().stream`incoming, Client().stream`outgoing
      ensures Valid()
      ensures r.Success? ==> I.FinishNone(Served(), old(Greeting())) == Success(Greeting())
      ensures r.Failure? ==> r.error == Errno || I.FinishNone(Served(), old(Greeting())) == Failure(r.error)
      ensures
        var c := m_currentConnection;
        && Served().width == c.m_framebufferWidth && Served().height == c.m_framebufferHeight
        && Served().pf == c.m_pixelFormat && Served().name == c.m_xvnc.m_desktopName
      ensures !(D.KEY_PREFIX <= Served().name)
    {
      var _ :- m_streamFormatter.Send(PutU32(0));
      var clientInit :- m_streamFormatter.Recv(1);
      var c := m_currentConnection;
      var d := H.Display(c.m_framebufferWidth, c.m_framebufferHeight, c.m_pixelFormat, c.m_xvnc.m_desktopName);
      var _ :- m_streamFormatter.Send(H.ServerInit(d));
      r := m_streamFormatter.Send(d.name);
    }

    // ---------------------------------------------------------------- server to client

    method SendHeader(hd: RectHeader) returns (r: Result<Unit>)
      requires Valid()
      modifies Client().stream`outgoing
      ensures Valid()
      ensures r.Success? ==> Down() == R.Put(old(Down()), PutHeader(hd))
      ensures r.Failure? ==> r.error == Errno
    {
      r := m_streamFormatter.Send(PutHeader(hd));
    }

    method SendName() returns (r: Result<Unit>)
      requires Valid()
      modifies Client().stream`outgoing
      ensures Valid()
      ensures r.Success? ==> Down() == R.Put(old(Down()), R.NameBytes(m_currentConnection.m_xvnc.m_desktopName))
      ensures r.Failure? ==> r.error == Errno
    {
      var name := m_currentConnection.m_xvnc.m_desktopName;
      var _ :- m_streamFormatter.Send(PutU32(|name| % 0x1_0000_0000));
      r := m_streamFormatter.Send(name);
      assert old(Down()).output + PutU32(|name| % 0x1_0000_0000) + name == old(Down()).output + R.NameBytes(name);
    }

    /** sFmt().forward_directly(cStream(), size) */
    method ForwardDown(size: nat) returns (r: Result<Unit>)
      requires Valid()
      modifies Server()`bufferSize, Server().stream`incoming, Client().stream`outgoing
      ensures Valid()
      ensures Server().bufferSize <= old(Server().bufferSize)
      ensures r.Success? ==> R.Forward(old(Down()), size) == Success(Down())
      ensures r.Failure? ==> r.error == Errno || R.Forward(old(Down()), size) == Failure(r.error)
      ensures r.Success? && size > 0 ==> Server().bufferSize == 0
    {
      r := m_currentConnection.m_streamFormatter.ForwardDirectly(m_streamFormatter.stream, size);
    }

    /** sFmt().forward(cStream(), value) */
    method CopyDown(size: nat) returns (r: Result<bytes>)
      requires Valid()
      modifies Server()`bufferSize, Server().stream`incoming, Client().stream`outgoing
      ensures Valid()
      ensures Server().bufferSize <= old(Server().bufferSize)
      ensures r.Success? ==> |r.value| == size && R.Copy(old(Down()), size) == Success((r.value, Down()))
      ensures r.Failure? ==> r.error == Errno || R.Copy(old(Down()), size) == Failure(r.error)
      ensures r.Success? && size > 0 ==> Server().bufferSize == 0
    {
      r := m_currentConnection.m_streamFormatter.Forward(m_streamFormatter.stream, size);
    }

    /** sFmt().recv(value) */
    method TakeDown(size: nat) returns (r: Result<bytes>)
      requires Valid()
      modifies Server()`bufferSize, Server().stream`incoming
      ensures Valid()
      ensures Server().bufferSize <= old(Server().bufferSize)
      ensures r.Success? ==> |r.value| == size && R.Take(old(Down()), size) == Success((r.value, Down()))
      ensures r.Failure? ==> r.error == Errno || R.Take(old(Down()), size) == Failure(r.error)
      ensures r.Success? && size > 0 ==> Server().bufferSize == 0
    {
      r := m_currentConnection.m_streamFormatter.Recv(size);
    }

    method SendDummyRectangle() returns (r: Result<Unit>)
      requires Valid()
      modifies Client().stream`outgoing
      ensures Valid()
      ensures r.Success? ==> R.SendDummy(Cfg(), old(Down())) == Success(Down())
      ensures r.Failure? ==> r.error == Errno || R.SendDummy(Cfg(), old(Down())) == Failure(r.error)
    {
      if ClientSupportsEncoding(RAW) {
        var _ :- SendHeader(R.DUMMY_RAW);
        r := m_streamFormatter.Send(R.Zeros(m_pixelFormat.bitsPerPixel / 8));
      } else if ClientSupportsEncoding(COPY_RECT) {
        var _ :- SendHeader(R.DUMMY_COPY_RECT);
        var _ :- m_streamFormatter.Send(PutU16(1));
        r := m_streamFormatter.Send(PutU16(0));
        if r.Success? {
          assert Down().output == R.Put(R.Put(old(Down()), PutHeader(R.DUMMY_COPY_RECT)), PutU16(1) + PutU16(0)).output;
        }
      } else {
        r := Failure(NoDummyEncoding);
      }
    }

    /** forwardTightVariableLengthData */
    method ForwardTightVariableLengthData() returns (r: Result<Unit>)
      requires Valid()
      modifies Server()`bufferSize, Server().stream`incoming, Client().stream`outgoing
      ensures Valid()
      ensures Server().bufferSize <= old(Server().bufferSize)
      ensures r.Success? ==> R.RelayChunk(old(Down())) == Success(Down())
      ensures r.Failure? ==> r.error == Errno || R.RelayChunk(old(Down())) == Failure(r.error)
    {
      hide R.Copy, R.Forward, R.Take;
      var octet :- CopyDown(1);
      var length: nat := octet[0] % 0x80;
      if octet[0] >= 0x80 {
        octet :- CopyDown(1);
        length := length + (octet[0] % 0x80 as int) * 0x80;
        if octet[0] >= 0x80 {
          octet :- CopyDown(1);
          length := length + (octet[0] as int) * 0x4000;
        }
      }
      r := ForwardDown(length);
    }

    method ForwardTightFilter(control: byte) returns (r: Result<byte>)
      requires Valid()
      modifies Server()`bufferSize, Server().stream`incoming, Client().stream`outgoing
      ensures Valid()
      ensures Server().bufferSize <= old(Server().bufferSize)
      ensures Follows(r, R.RelayFilter(m_pixelFormat, control, old(Down())), Down())
    {
      hide R.Copy, R.Forward, R.Take;
      var bpp := m_pixelFormat.bitsPerPixel;
      if ReadsFilterId(control) {
        var filter :- CopyDown(1);
        if filter[0] == 1 {
          var paletteLength :- CopyDown(1);
          var actualPaletteLength: int := (paletteLength[0] as int) + 1;
          var _ :- ForwardDown(TIGHT_PIXEL_SIZE * actualPaletteLength);
          bpp := if actualPaletteLength <= 2 then 1 else 8;
        }
      }
      return Success(bpp);
    }

    method ForwardTightImage(w: u16, h: u16, control: byte) returns (r: Result<Unit>)
      requires Valid()
      modifies Server()`bufferSize, Server().stream`incoming, Client().stream`outgoing
      ensures Valid()
      ensures Server().bufferSize <= old(Server().bufferSize)
      ensures r.Success? ==> R.RelayTightImage(m_pixelFormat, w, h, control, old(Down())) == Success(Down())
      ensures r.Failure? ==> r.error == Errno || R.RelayTightImage(m_pixelFormat, w, h, control, old(Down())) == Failure(r.error)
    {
      hide R.Copy, R.Forward, R.Take, R.RelayFilter, R.RelayChunk, R.TightDataSize;
      if IsFill(control) {
        r := ForwardDown(TIGHT_PIXEL_SIZE);
      } else if IsJpeg(control) {
        r := ForwardTightVariableLengthData();
      } else {
        var bpp :- ForwardTightFilter(control);
        var dataSize :- R.TightDataSize(w, h, bpp);
        if dataSize < TIGHT_MIN_SIZE_TO_COMPRESS {
          r := ForwardDown(dataSize);
        } else {
          r := ForwardTightVariableLengthData();
        }
      }
    }

    method ProcessTight(hd: RectHeader, ghost p: R.Progress) returns (r: Result<Unit>)
      requires Valid() && p.fields == Fields()
      modifies this`m_tightZlibResetQueued, Server()`bufferSize, Server().stream`incoming, Client().stream`outgoing
      ensures Valid()
      ensures Server().bufferSize <= old(Server().bufferSize)
      ensures r.Success? ==> R.RelayTight(Cfg(), p, hd, old(Down())) == Success((p.(fields := Fields()), Down()))
      ensures r.Failure? ==> r.error == Errno || R.RelayTight(Cfg(), p, hd, old(Down())) == Failure(r.error)
    {
      hide R.Copy, R.Forward, R.Take, R.RelayTightImage;
      var _ :- SendHeader(hd);
      var b :- TakeDown(1);
      var control := b[0];
      if m_tightZlibResetQueued {
        m_tightZlibResetQueued := false;
        control := WithAllResets(control);
      }
      var _ :- m_streamFormatter.Send([control]);
      r := ForwardTightImage(hd.w, hd.h, control);
    }

    /** True when the rectangle was dropped and LastRect must follow. */
    method ProcessDesktopName(hd: RectHeader, supportsLastRect: bool, ghost p: R.Progress) returns (r: Result<bool>)
      requires Valid() && p.fields == Fields()
      requires supportsLastRect == (LAST_RECT in m_supportedEncodingsClient)
      modifies Server()`bufferSize, Server().stream`incoming, Client().stream`outgoing,
        m_currentConnection.m_xvnc`m_desktopName, m_currentConnection.m_xvnc`m_approvedControllerKeys,
        m_currentConnection.m_xvnc.m_xvncManager`m_sessionListVersion
      ensures Valid()
      ensures Server().bufferSize <= old(Server().bufferSize)
      ensures r.Success? ==>
                R.RelayDesktopName(Cfg(), p, hd, old(Down())) ==
                Success((p.(fields := Fields(), mustUseLastRect := p.mustUseLastRect || r.value), Down()))
      ensures r.Failure? ==> r.error == Errno || R.RelayDesktopName(Cfg(), p, hd, old(Down())) == Failure(r.error)
      ensures old(m_currentConnection.m_xvnc.Desktop().Valid()) ==> m_currentConnection.m_xvnc.Desktop().Valid()
    {
      hide R.Take, R.SendDummy, PutHeader, R.NameBytes, D.SetName, D.Desktop.Valid, GetU32, StreamFormatter.Pending;
      var nameLength :- TakeDown(4);
      var name :- TakeDown(GetU32(nameLength));
      m_currentConnection.SetDesktopName(name);
      if ClientSupportsEncoding(DESKTOP_NAME) {
        var _ :- SendHeader(hd);
        var _ :- SendName();
        return Success(false);
      } else if supportsLastRect {
        return Success(true);
      } else {
        var _ :- SendDummyRectangle();
        return Success(false);
      }
    }

    method ProcessExtendedDesktopSize(hd: RectHeader, ghost p: R.Progress) returns (r: Result<Unit>)
      requires Valid() && p.fields == Fields()
      modifies Server()`bufferSize, Server().stream`incoming, Client().stream`outgoing,
        m_currentConnection`m_framebufferWidth, m_currentConnection`m_framebufferHeight
      ensures Valid()
      ensures Server().bufferSize <= old(Server().bufferSize)
      ensures r.Success? ==> R.RelayExtendedDesktopSize(p, hd, old(Down())) == Success((p.(fields := Fields()), Down()))
      ensures r.Failure? ==> r.error == Errno || R.RelayExtendedDesktopSize(p, hd, old(Down())) == Failure(r.error)
    {
      hide R.Copy, R.Forward, PutHeader;
      if hd.y == 0 {
        m_currentConnection.SetFramebufferSize(hd.w, hd.h);
      }
      var _ :- SendHeader(hd);
      var data :- CopyDown(4);
      r := ForwardDown(16 * (data[0] as int));
    }

    /** Raw, CopyRect, Cursor and XCursor. */
    method ProcessPassThru(hd: RectHeader, ghost p: R.Progress) returns (r: Result<Unit>)
      requires Valid() && hd.encoding in {RAW, COPY_RECT, CURSOR, X_CURSOR}
      modifies Server()`bufferSize, Server().stream`incoming, Client().stream`outgoing
      ensures Valid()
      ensures Server().bufferSize <= old(Server().bufferSize)
      ensures r.Success? ==> R.RelayPassThru(Cfg(), p, hd, old(Down())) == Success((p, Down()))
      ensures r.Failure? ==> r.error == Errno || R.RelayPassThru(Cfg(), p, hd, old(Down())) == Failure(r.error)
    {
      hide R.Forward, R.PassThruSize, PutHeader;
      var bufferSize :- R.PassThruSize(Cfg(), hd);
      var _ :- SendHeader(hd);
      r := ForwardDown(bufferSize);
    }

    method ProcessRre(hd: RectHeader, ghost p: R.Progress) returns (r: Result<Unit>)
      requires Valid()
      modifies Server()`bufferSize, Server().stream`incoming, Client().stream`outgoing
      ensures Valid()
      ensures Server().bufferSize <= old(Server().bufferSize)
      ensures r.Success? ==> R.RelayRre(Cfg(), p, hd, old(Down())) == Success((p, Down()))
      ensures r.Failure? ==> r.error == Errno || R.RelayRre(Cfg(), p, hd, old(Down())) == Failure(r.error)
    {
      hide R.Copy, R.Forward, R.RreSize, PutHeader;
      var _ :- SendHeader(hd);
      var numberOfSubrectangles :- CopyDown(4);
      r := ForwardDown(R.RreSize(m_pixelFormat, GetU32(numberOfSubrectangles)));
    }

    /** One iteration of the rectangle loop: the new values of mustUseLastRect and
        lastRectReceived. */
    method ProcessRectangle(supportsLastRect: bool, mustUseLastRect: bool, ghost p: R.Progress) returns (r: Result<(bool, bool)>)
      requires Valid() && p == R.Progress(Fields(), mustUseLastRect, false)
      requires supportsLastRect == (LAST_RECT in m_supportedEncodingsClient)
      modifies this`m_tightZlibResetQueued, Server()`bufferSize, Server().stream`incoming, Client().stream`outgoing,
        m_currentConnection`m_framebufferWidth, m_currentConnection`m_framebufferHeight,
        m_currentConnection.m_xvnc`m_desktopName, m_currentConnection.m_xvnc`m_approvedControllerKeys,
        m_currentConnection.m_xvnc.m_xvncManager`m_sessionListVersion
      ensures Valid()
      ensures Server().bufferSize <= old(Server().bufferSize)
      ensures r.Success? ==>
                && R.RelayRect(Cfg(), p, old(Down())) == Success((R.Progress(Fields(), r.value.0, r.value.1), Down()))
                && (r.value.0 ==> mustUseLastRect || supportsLastRect)
      ensures r.Failure? ==> r.error == Errno || R.RelayRect(Cfg(), p, old(Down())) == Failure(r.error)
      ensures old(m_currentConnection.m_xvnc.Desktop().Valid()) ==> m_currentConnection.m_xvnc.Desktop().Valid()
    {
      hide R.Take, R.RelayBody, GetHeader;
      var b :- TakeDown(RECT_HEADER_SIZE);
      r := ProcessBody(GetHeader(b), supportsLastRect, mustUseLastRect, p);
    }

    /** The switch over the encoding. */
    method ProcessBody(hd: RectHeader, supportsLastRect: bool, mustUseLastRect: bool, ghost p: R.Progress) returns (r: Result<(bool, bool)>)
      requires Valid() && p == R.Progress(Fields(), mustUseLastRect, false)
      requires supportsLastRect == (LAST_RECT in m_supportedEncodingsClient)
      modifies this`m_tightZlibResetQueued, Server()`bufferSize, Server().stream`incoming, Client().stream`outgoing,
        m_currentConnection`m_framebufferWidth, m_currentConnection`m_framebufferHeight,
        m_currentConnection.m_xvnc`m_desktopName, m_currentConnection.m_xvnc`m_approvedControllerKeys,
        m_currentConnection.m_xvnc.m_xvncManager`m_sessionListVersion
      ensures Valid()
      ensures Server().bufferSize <= old(Server().bufferSize)
      ensures r.Success? ==>
                && R.RelayBody(Cfg(), p, hd, old(Down())) == Success((R.Progress(Fields(), r.value.0, r.value.1), Down()))
                && (r.value.0 ==> mustUseLastRect || supportsLastRect)
      ensures r.Failure? ==> r.error == Errno || R.RelayBody(Cfg(), p, hd, old(Down())) == Failure(r.error)
      ensures old(m_currentConnection.m_xvnc.Desktop().Valid()) ==> m_currentConnection.m_xvnc.Desktop().Valid()
    {
      hide R.RelayTight, R.RelayExtendedDesktopSize, R.RelayPassThru, R.RelayRre, PutHeader, StreamFormatter.Pending;
      if hd.encoding in {RAW, COPY_RECT, CURSOR, X_CURSOR} {
        var _ :- ProcessPassThru(hd, p);
        return Success((mustUseLastRect, false));
      } else if hd.encoding == RRE {
        var _ :- ProcessRre(hd, p);
        return Success((mustUseLastRect, false));
      } else if hd.encoding == DESKTOP_SIZE {
        var _ :- SendHeader(hd);
        m_currentConnection.SetFramebufferSize(hd.w, hd.h);
        return Success((mustUseLastRect, false));
      } else if hd.encoding == LAST_RECT {
        var _ :- SendHeader(hd);
        return Success((mustUseLastRect, true));
      } else if hd.encoding == DESKTOP_NAME {
        var dropped :- ProcessDesktopName(hd, supportsLastRect, p);
        return Success((mustUseLastRect || dropped, false));
      } else if hd.encoding == EXTENDED_DESKTOP_SIZE {
        var _ :- ProcessExtendedDesktopSize(hd, p);
        return Success((mustUseLastRect, false));
      } else if hd.encoding == TIGHT {
        var _ :- ProcessTight(hd, p);
        return Success((mustUseLastRect, false));
      } else {
        return Failure(UnknownEncoding);
      }
    }

    function CountExtraRectangles(): nat
      reads this
    {
      R.ExtraRectangles(m_desktopNameChangeQueued)
    }

    method SendExtraRectangles() returns (r: Result<Unit>)
      requires Valid()
      modifies this`m_desktopNameChangeQueued, Client().stream`outgoing
      ensures Valid() && !m_desktopNameChangeQueued
      ensures r.Success? ==>
                Down() == R.SendExtra(old(m_desktopNameChangeQueued), m_currentConnection.m_xvnc.Desktop(), old(Down()))
      ensures r.Failure? ==> r.error == Errno
    {
      hide PutHeader, R.NameBytes;
      if m_desktopNameChangeQueued {
        m_desktopNameChangeQueued := false;
        var _ :- SendHeader(R.NAME_HEADER);
        r := SendName();
      } else {
        r := Success(Unit);
      }
    }

    /** The header with the new count, and whether the count saturated. */
    method AnnounceRectangles(message: bytes, numberOfRectangles: u16, supportsLastRect: bool) returns (r: Result<bool>)
      requires Valid() && |message| == 4 && supportsLastRect == (LAST_RECT in m_supportedEncodingsClient)
      modifies Client().stream`outgoing
      ensures Valid()
      ensures
        var saturates := R.Saturates(numberOfRectangles, m_desktopNameChangeQueued);
        match r
        case Success(must) =>
          && must == saturates && (must ==> supportsLastRect)
          && Down() == R.Put(old(Down()), [message[0], message[1]] + PutU16(R.Announced(numberOfRectangles, m_desktopNameChangeQueued)))
        case Failure(e) => e == Errno || (e == TooManyRectangles && saturates && !supportsLastRect)
      ensures
        var noRoom := m_desktopNameChangeQueued && numberOfRectangles == 65535;
        match r
        case Success(must) =>
          var n: int := if noRoom then 65535 else numberOfRectangles + (if m_desktopNameChangeQueued then 1 else 0);
          must == noRoom && Down() == R.Put(old(Down()), [message[0], message[1], n / 256, n % 256])
        case Failure(e) => e == Errno || (noRoom && !supportsLastRect)
    {
      var mustUseLastRect := false;
      var extraRectanglesCount := CountExtraRectangles();
      var announced: u16 := numberOfRectangles;
      if numberOfRectangles > U16_MAX - extraRectanglesCount {
        if supportsLastRect {
          mustUseLastRect := true;
          announced := U16_MAX;
        } else {
          return Failure(TooManyRectangles);
        }
      } else {
        announced := numberOfRectangles + extraRectanglesCount;
      }
      var _ :- m_streamFormatter.Send([message[0], message[1]] + PutU16(announced));
      return Success(mustUseLastRect);
    }

    /** processFramebufferUpdate computes RelayUpdate; at its end LastRect is owed
        only to a client that supports it. */
    method ProcessFramebufferUpdate() returns (r: Result<Unit>)
      requires Valid()
      modifies this`m_tightZlibResetQueued, this`m_desktopNameChangeQueued,
        Server()`bufferSize, Server().stream`incoming, Client().stream`outgoing,
        m_currentConnection`m_framebufferWidth, m_currentConnection`m_framebufferHeight,
        m_currentConnection.m_xvnc`m_desktopName, m_currentConnection.m_xvnc`m_approvedControllerKeys,
        m_currentConnection.m_xvnc.m_xvncManager`m_sessionListVersion
      ensures Valid()
      ensures Server().bufferSize <= old(Server().bufferSize)
      ensures r.Success? ==>
                && R.RelayUpdate(Cfg(), old(m_desktopNameChangeQueued), old(Fields()), old(Down())) == Success((Fields(), Down()))
                && !m_desktopNameChangeQueued && Server().bufferSize == 0
      ensures r.Failure? ==>
                r.error == Errno || R.RelayUpdate(Cfg(), old(m_desktopNameChangeQueued), old(Fields()), old(Down())) == Failure(r.error)
      ensures old(m_currentConnection.m_xvnc.Desktop().Valid()) ==> m_currentConnection.m_xvnc.Desktop().Valid()
    {
      hide D.Desktop.Valid, R.Take, R.RelayRect, R.SendExtra, R.RelayRects, PutU16, GetU16, PutHeader, StreamFormatter.Pending;
      var supportsLastRect := ClientSupportsEncoding(LAST_RECT);
      var message :- TakeDown(4);
      var numberOfRectangles := GetU16(message[2..]);
      var mustUseLastRect :- AnnounceRectangles(message, numberOfRectangles, supportsLastRect);
      var _ :- SendExtraRectangles();

      var last := ProcessRectangles(numberOfRectangles, supportsLastRect, mustUseLastRect);
      if last.Failure? {
        return Failure(last.error);
      }
      var (must, lastRectReceived) := last.value;
      if supportsLastRect {
        if must && !lastRectReceived {
          r := SendHeader(R.LAST_RECT_HEADER);
          return;
        }
      } else {
        assert !must;
      }
      return Success(Unit);
    }

    /** The rectangle loop of processFramebufferUpdate. */
    method ProcessRectangles(numberOfRectangles: nat, supportsLastRect: bool, mustUse: bool) returns (r: Result<(bool, bool)>)
      requires Valid() && supportsLastRect == (LAST_RECT in m_supportedEncodingsClient)
      requires mustUse ==> supportsLastRect
      modifies this`m_tightZlibResetQueued, Server()`bufferSize, Server().stream`incoming, Client().stream`outgoing,
        m_currentConnection`m_framebufferWidth, m_currentConnection`m_framebufferHeight,
        m_currentConnection.m_xvnc`m_desktopName, m_currentConnection.m_xvnc`m_approvedControllerKeys,
        m_currentConnection.m_xvnc.m_xvncManager`m_sessionListVersion
      ensures Valid()
      ensures Server().bufferSize <= old(Server().bufferSize)
      ensures r.Success? ==>
                && R.RelayRects(Cfg(), R.Progress(old(Fields()), mustUse, false), numberOfRectangles, old(Down())) ==
                   Success((R.Progress(Fields(), r.value.0, r.value.1), Down()))
                && (r.value.0 ==> supportsLastRect)
      ensures r.Failure? ==>
                || r.error == Errno
                || R.RelayRects(Cfg(), R.Progress(old(Fields()), mustUse, false), numberOfRectangles, old(Down())) == Failure(r.error)
      ensures old(m_currentConnection.m_xvnc.Desktop().Valid()) ==> m_currentConnection.m_xvnc.Desktop().Valid()
    {
      hide R.RelayRect;
      var mustUseLastRect, lastRectReceived := mustUse, false;
      ghost var all := R.RelayRects(Cfg(), R.Progress(Fields(), mustUse, false), numberOfRectangles, Down());
      var i: nat := 0;
      while i < numberOfRectangles && !lastRectReceived
        invariant Valid() && i <= numberOfRectangles && Server().bufferSize <= old(Server().bufferSize)
        invariant mustUseLastRect ==> supportsLastRect
        invariant old(m_currentConnection.m_xvnc.Desktop().Valid()) ==> m_currentConnection.m_xvnc.Desktop().Valid()
        invariant all == R.RelayRects(Cfg(), R.Progress(Fields(), mustUseLastRect, lastRectReceived), numberOfRectangles - i, Down())
        decreases numberOfRectangles - i
      {
        var flags :- ProcessRectangle(supportsLastRect, mustUseLastRect, R.Progress(Fields(), mustUseLastRect, false));
        mustUseLastRect, lastRectReceived := flags.0, flags.1;
        i := i + 1;
      }
      return Success((mustUseLastRect, lastRectReceived));
    }

    method ProcessServerCutText() returns (r: Result<Unit>)
      requires Valid()
      modifies Server()`bufferSize, Server().stream`incoming, Client().stream`outgoing
      ensures Valid()
      ensures r.Success? ==> Server().bufferSize == 0 && R.RelayServerCutText(old(Down())) == Success(Down())
      ensures r.Failure? ==> r.error == Errno || R.RelayServerCutText(old(Down())) == Failure(r.error)
    {
      hide R.Copy, R.Forward, GetU32;
      var message :- CopyDown(8);
      r := ForwardDown(GetU32(message[4..]));
    }

    /** processSetColourMapEntries, and the exception that always follows it. */
    method ProcessSetColourMapEntries() returns (e: Error)
      requires Valid()
      modifies Server()`bufferSize, Server().stream`incoming, Client().stream`outgoing
      ensures Valid()
      ensures e == Errno || e == R.RelayColourMap(old(Down()))
    {
      hide R.Copy, R.Forward, GetU16;
      var message := CopyDown(6);
      if message.Failure? {
        return message.error;
      }
      var entries := ForwardDown(6 * GetU16(message.value[4..]));
      if entries.Failure? {
        return entries.error;
      }
      return ColourMapUnsupported;
    }

    /** One dispatch of a server message. The type octet goes through the push-back
        buffer, which is empty again afterwards. */
    method ServerReceive() returns (r: Result<Unit>)
      requires Valid() && Server().bufferSize == 0
      modifies this`m_tightZlibResetQueued, this`m_desktopNameChangeQueued,
        Server()`bufferSize, Server().buffer, Server().stream`incoming, Client().stream`outgoing,
        m_currentConnection`m_framebufferWidth, m_currentConnection`m_framebufferHeight,
        m_currentConnection.m_xvnc`m_desktopName, m_currentConnection.m_xvnc`m_approvedControllerKeys,
        m_currentConnection.m_xvnc.m_xvncManager`m_sessionListVersion
      ensures Valid()
      ensures r.Success? ==> Server().bufferSize == 0
      ensures r.Success? ==>
                R.RelayServer(Cfg(), old(m_desktopNameChangeQueued), old(Fields()), old(Down())) ==
                Success(((m_desktopNameChangeQueued, Fields()), Down()))
      ensures r.Failure? ==>
                r.error == Errno || R.RelayServer(Cfg(), old(m_desktopNameChangeQueued), old(Fields()), old(Down())) == Failure(r.error)
      ensures Disciplined(Handler.ServerReceive, old(Pointers()), Pointers(), m_selector.m_pendingCancelation, r.Failure?)
      ensures old(m_currentConnection.m_xvnc.Desktop().Valid()) ==> m_currentConnection.m_xvnc.Desktop().Valid()
    {
      hide R.Forward, R.RelayUpdate, R.RelayServerCutText, R.RelayColourMap;
      ghost var start := Down();
      var messageType :- TakeDown(1);
      r := m_currentConnection.m_streamFormatter.PushBack(messageType[0]);
      assert r.Success? && Down().input == start.input;
      if messageType[0] == FRAMEBUFFER_UPDATE {
        r := ProcessFramebufferUpdate();
      } else if messageType[0] == SET_COLOUR_MAP_ENTRIES {
        var e := ProcessSetColourMapEntries();
        r := Failure(e);
      } else if messageType[0] == BELL {
        r := ForwardDown(1);
      } else if messageType[0] == SERVER_CUT_TEXT {
        r := ProcessServerCutText();
      } else {
        r := Failure(UnknownMessage);
      }
    }

    // ---------------------------------------------------------------- client to server

    /** cFmt().forward_directly(sStream(), size) */
    method ForwardUp(size: nat) returns (r: Result<Unit>)
      requires Valid()
      modifies Client()`bufferSize, Client().stream`incoming, Server().stream`outgoing
      ensures Valid()
      ensures Client().bufferSize <= old(Client().bufferSize)
      ensures r.Success? ==> R.Forward(old(Up()), size) == Success(Up())
      ensures r.Failure? ==> r.error == Errno || R.Forward(old(Up()), size) == Failure(r.error)
      ensures r.Success? && size > 0 ==> Client().bufferSize == 0
    {
      r := m_streamFormatter.ForwardDirectly(m_currentConnection.m_streamFormatter.stream, size);
    }

    /** cFmt().forward(sStream(), message) */
    method CopyUp(size: nat) returns (r: Result<bytes>)
      requires Valid()
      modifies Client()`bufferSize, Client().stream`incoming, Server().stream`outgoing
      ensures Valid()
      ensures Client().bufferSize <= old(Client().bufferSize)
      ensures r.Success? ==> |r.value| == size && R.Copy(old(Up()), size) == Success((r.value, Up()))
      ensures r.Failure? ==> r.error == Errno || R.Copy(old(Up()), size) == Failure(r.error)
      ensures r.Success? && size > 0 ==> Client().bufferSize == 0
    {
      r := m_streamFormatter.Forward(m_currentConnection.m_streamFormatter.stream, size);
    }

    /** cFmt().recv(message) */
    method TakeUp(size: nat) returns (r: Result<bytes>)
      requires Valid()
      modifies Client()`bufferSize, Client().stream`incoming
      ensures Valid()
      ensures Client().bufferSize <= old(Client().bufferSize)
      ensures r.Success? ==> |r.value| == size && R.Take(old(Up()), size) == Success((r.value, Up()))
      ensures r.Failure? ==> r.error == Errno || R.Take(old(Up()), size) == Failure(r.error)
      ensures r.Success? && size > 0 ==> Client().bufferSize == 0
    {
      r := m_streamFormatter.Recv(size);
    }

    method ProcessSetPixelFormat() returns (r: Result<Unit>)
      requires Valid()
      modifies this`m_pixelFormat, m_currentConnection`m_pixelFormat,
        Client()`bufferSize, Client().stream`incoming, Server().stream`outgoing
      ensures Valid()
      ensures r.Success? ==> Client().bufferSize == 0 && m_currentConnection.m_pixelFormat == m_pixelFormat
      ensures r.Success? ==> C.RelaySetPixelFormat(old(Settings()), old(Up())) == Success((Settings(), Up()))
      ensures r.Failure? ==> r.error == Errno || C.RelaySetPixelFormat(old(Settings()), old(Up())) == Failure(r.error)
    {
      hide R.Take, C.SetPixelFormatBytes;
      var message :- TakeUp(20);
      var pixelFormat := ReadPixelFormat(message[4..]).Ntoh();
      if !pixelFormat.Valid() {
        return Failure(InvalidPixelFormat);
      }
      m_pixelFormat := pixelFormat;
      r := m_currentConnection.SendSetPixelFormat(pixelFormat);
    }

    /** The loop over the client's list builds its two filtered forms. */
    method ChooseEncodings(encodings: seq<s32>)
      modifies this`m_supportedEncodingsClient, this`m_supportedEncodingsServer
      ensures Settings() == C.Choose(old(Settings()), encodings)
    {
      m_supportedEncodingsClient, m_supportedEncodingsServer := {}, [];
      for i := 0 to |encodings|
        invariant m_supportedEncodingsClient == C.KnownOnes(encodings[..i])
        invariant m_supportedEncodingsServer == C.Kept(m_tightEncodingDisabled, encodings[..i])
      {
        var encoding := encodings[i];
        assert encodings[..i + 1][..i] == encodings[..i];
        if encoding in {RAW, COPY_RECT, RRE, DESKTOP_SIZE, LAST_RECT, CURSOR, X_CURSOR, DESKTOP_NAME, EXTENDED_DESKTOP_SIZE} {
          m_supportedEncodingsClient := m_supportedEncodingsClient + {encoding};
          m_supportedEncodingsServer := m_supportedEncodingsServer + [encoding];
        } else if encoding == TIGHT {
          m_supportedEncodingsClient := m_supportedEncodingsClient + {encoding};
          if !m_tightEncodingDisabled {
            m_supportedEncodingsServer := m_supportedEncodingsServer + [encoding];
          }
        }
        if JPEG_QUALITY_LOWEST <= encoding <= JPEG_QUALITY_HIGHEST {
          m_supportedEncodingsClient := m_supportedEncodingsClient + {encoding};
          m_supportedEncodingsServer := m_supportedEncodingsServer + [encoding];
        }
      }
      assert encodings[..|encodings|] == encodings;
      if !ClientSupportsEncoding(DESKTOP_NAME) {
        m_supportedEncodingsServer := m_supportedEncodingsServer + [DESKTOP_NAME];
      }
    }

    method ProcessSetEncodings() returns (r: Result<Unit>)
      requires Valid()
      modifies this`m_supportedEncodingsClient, this`m_supportedEncodingsServer,
        Client()`bufferSize, Client().stream`incoming, Server().stream`outgoing
      ensures Valid()
      ensures r.Success? ==> Client().bufferSize == 0
      ensures r.Success? ==> C.RelaySetEncodings(old(Settings()), old(Up())) == Success((Settings(), Up()))
      ensures r.Failure? ==> r.error == Errno || C.RelaySetEncodings(old(Settings()), old(Up())) == Failure(r.error)
    {
      hide R.Take, C.SetEncodingsBytes, C.Choose, GetU16, DecodeList;
      var message :- TakeUp(4);
      var encodings :- TakeUp(4 * GetU16(message[2..]));
      ChooseEncodings(DecodeList(encodings));
      r := m_currentConnection.SendSetEncodings(m_supportedEncodingsServer);
    }

    method ProcessClientCutText() returns (r: Result<Unit>)
      requires Valid()
      modifies Client()`bufferSize, Client().stream`incoming, Server().stream`outgoing
      ensures Valid()
      ensures r.Success? ==> Client().bufferSize == 0 && C.RelayCutText(Settings(), old(Up())) == Success((Settings(), Up()))
      ensures r.Failure? ==> r.error == Errno || C.RelayCutText(Settings(), old(Up())) == Failure(r.error)
    {
      hide R.Copy, R.Forward, GetU32;
      var message :- CopyUp(8);
      r := ForwardUp(GetU32(message[4..]));
    }

    method ProcessSetDesktopSize() returns (r: Result<Unit>)
      requires Valid()
      modifies Client()`bufferSize, Client().stream`incoming, Server().stream`outgoing
      ensures Valid()
      ensures r.Success? ==> Client().bufferSize == 0 && C.RelaySetDesktopSize(Settings(), old(Up())) == Success((Settings(), Up()))
      ensures r.Failure? ==> r.error == Errno || C.RelaySetDesktopSize(Settings(), old(Up())) == Failure(r.error)
    {
      hide R.Copy, R.Forward;
      var message :- CopyUp(8);
      r := ForwardUp((message[6] as int) * 16);
    }

    /** Messages of a fixed size. */
    method ForwardMessage(size: nat) returns (r: Result<Unit>)
      requires Valid() && size > 0
      modifies Client()`bufferSize, Client().stream`incoming, Server().stream`outgoing
      ensures Valid()
      ensures r.Success? ==> Client().bufferSize == 0 && C.RelayFixed(Settings(), size, old(Up())) == Success((Settings(), Up()))
      ensures r.Failure? ==> r.error == Errno || C.RelayFixed(Settings(), size, old(Up())) == Failure(r.error)
    {
      hide R.Forward;
      r := ForwardUp(size);
    }

    /** The switch over the message type. */
    method ProcessClientMessage(messageType: byte) returns (r: Result<Unit>)
      requires Valid()
      modifies this`m_pixelFormat, this`m_supportedEncodingsClient, this`m_supportedEncodingsServer,
        m_currentConnection`m_pixelFormat,
        Client()`bufferSize, Client().stream`incoming, Server().stream`outgoing
      ensures Valid()
      ensures r.Success? ==> Client().bufferSize == 0
      ensures r.Success? ==> C.RelayMessage(messageType, old(Settings()), old(Up())) == Success((Settings(), Up()))
      ensures r.Success? ==> State() == S.AfterClient(old(State()), Settings(), messageType == SET_PIXEL_FORMAT)
      ensures r.Failure? ==> r.error == Errno || C.RelayMessage(messageType, old(Settings()), old(Up())) == Failure(r.error)
    {
      hide C.RelaySetPixelFormat, C.RelaySetEncodings, C.RelayCutText, C.RelaySetDesktopSize, C.RelayFixed, StreamFormatter.Pending;
      if messageType == SET_PIXEL_FORMAT {
        r := ProcessSetPixelFormat();
      } else if messageType == SET_ENCODINGS {
        r := ProcessSetEncodings();
      } else if messageType == FRAMEBUFFER_UPDATE_REQUEST {
        r := ForwardMessage(10);
      } else if messageType == KEY_EVENT {
        r := ForwardMessage(8);
      } else if messageType == POINTER_EVENT {
        r := ForwardMessage(6);
      } else if messageType == CLIENT_CUT_TEXT {
        r := ProcessClientCutText();
      } else if messageType == SET_DESKTOP_SIZE {
        r := ProcessSetDesktopSize();
      } else {
        r := Failure(UnknownMessage);
      }
    }

    /** One dispatch of a client message. The type octet goes through the push-back
        buffer, which is empty again afterwards. */
    method ClientReceive() returns (r: Result<Unit>)
      requires Valid() && Client().bufferSize == 0
      modifies this`m_pixelFormat, this`m_supportedEncodingsClient, this`m_supportedEncodingsServer,
        m_currentConnection`m_pixelFormat,
        Client()`bufferSize, Client().buffer, Client().stream`incoming, Server().stream`outgoing
      ensures Valid()
      ensures r.Success? ==> Client().bufferSize == 0
      ensures r.Success? ==> C.RelayClient(old(Settings()), old(Up())) == Success((Settings(), Up()))
      ensures r.Success? ==>
                State() == S.AfterClient(old(State()), Settings(), old(Up()).input[..1] == [SET_PIXEL_FORMAT])
      ensures r.Failure? ==> r.error == Errno || C.RelayClient(old(Settings()), old(Up())) == Failure(r.error)
      ensures Disciplined(Handler.ClientReceive, old(Pointers()), Pointers(), m_selector.m_pendingCancelation, r.Failure?)
    {
      hide C.RelayMessage, S.AfterClient;
      ghost var start := Up();
      var messageType :- TakeUp(1);
      r := m_streamFormatter.PushBack(messageType[0]);
      assert r.Success? && Up().input == start.input;
      r := ProcessClientMessage(messageType[0]);
    }

    // ---------------------------------------------------------------- switching servers

    /** switchToConnection up to the handshake on the new connection. A previous
        attempt is closed first. */
    method StartSwitch(xvnc: Xvnc, stream: FdStream)
      requires m_greeterConnection != null && stream.m_fd != -1
      requires m_potentialConnection != null ==> m_potentialConnection.m_xvnc.m_connectionCount > 0
      modifies this`m_tightEncodingDisabled, this`m_supportedEncodingsServer, this`m_potentialConnection,
        m_selector`m_pendingCancelation, xvnc`m_connectionCount,
        (if m_potentialConnection == null then {} else {m_potentialConnection.m_xvnc})`m_connectionCount
      ensures State() == S.SwitchStarted(old(State())) && m_selector.m_pendingCancelation
      ensures m_potentialConnection != null && fresh(m_potentialConnection)
      ensures m_potentialConnection.m_xvnc == xvnc && m_potentialConnection.m_streamFormatter.stream == stream
      ensures m_potentialConnection.m_streamFormatter.Valid() && m_potentialConnection.m_streamFormatter.bufferSize == 0
      ensures fresh(m_potentialConnection.m_streamFormatter) && fresh(m_potentialConnection.m_streamFormatter.buffer)
      ensures m_potentialConnection.Talk() == R.Io(stream.incoming, stream.outgoing)
      ensures
        var last := old(m_potentialConnection);
        && xvnc.m_connectionCount == old(xvnc.m_connectionCount) + (if last != null && last.m_xvnc == xvnc then 0 else 1)
        && (last != null && last.m_xvnc != xvnc ==>
              last.m_xvnc.m_connectionCount == old(m_potentialConnection.m_xvnc.m_connectionCount) - 1)
    {
      if m_tightEncodingDisabled {
        m_tightEncodingDisabled := false;
        if ClientSupportsEncoding(TIGHT) {
          m_supportedEncodingsServer := [TIGHT] + m_supportedEncodingsServer;
        }
      }
      if m_potentialConnection != null {
        m_potentialConnection.Close();
      }
      m_potentialConnection := new XvncConnection(xvnc, stream);
      m_selector.Cancel();
      assert m_greeterConnection != null;
    }

    /** The new server gets the client's format, if it has another one, the
        encodings, and a request for the whole framebuffer. */
    method ConfigureServer() returns (r: Result<Unit>)
      requires Valid()
      modifies m_currentConnection`m_pixelFormat, Server().stream`outgoing
      ensures Valid()
      ensures m_currentConnection.m_pixelFormat ==
              if old(m_currentConnection.m_pixelFormat).Same(m_pixelFormat) then old(m_currentConnection.m_pixelFormat) else m_pixelFormat
      ensures r.Success? ==>
                Server().stream.outgoing ==
                old(Server().stream.outgoing) + S.SwitchBytes(old(Settings()), old(LinkOf(m_currentConnection)))
      ensures r.Failure? ==> r.error == Errno
    {
      hide C.SetPixelFormatBytes, C.SetEncodingsBytes, S.FullUpdateRequest, PixelFormat.Same, StreamFormatter.Pending;
      ghost var start := Server().stream.outgoing;
      ghost var format: bytes := [];
      if !m_currentConnection.m_pixelFormat.Same(m_pixelFormat) {
        format := C.SetPixelFormatBytes(m_pixelFormat);
        var _ :- m_currentConnection.SendSetPixelFormat(m_pixelFormat);
      }
      var _ :- m_currentConnection.SendSetEncodings(m_supportedEncodingsServer);
      var _ :- m_currentConnection.SendNonIncrementalFramebufferUpdateRequest();
      r := Success(Unit);
      FourInARow(start, format, C.SetEncodingsBytes(m_supportedEncodingsServer),
        S.FullUpdateRequest(m_currentConnection.m_framebufferWidth, m_currentConnection.m_framebufferHeight));
    }

    static lemma FourInARow(a: bytes, b: bytes, c: bytes, d: bytes)
      ensures a + b + c + d == a + (b + c + d) == a + b + (c + d)
      ensures a + [] + c + d == a + c + d
    {
    }

    /** There is an attempt, and its connection shares nothing with the client. */
    ghost predicate Switchable()
      reads this, m_currentConnection.m_xvnc
      reads if m_potentialConnection == null then {} else {m_potentialConnection.m_streamFormatter, m_potentialConnection.m_streamFormatter.stream}
    {
      && m_greeterConnection != null && m_potentialConnection != null
      && m_potentialConnection != m_currentConnection && m_currentConnection.m_xvnc.m_connectionCount > 0
      && var fmt := m_potentialConnection.m_streamFormatter;
        fmt.Valid() && fmt != Client() && fmt.stream != Client().stream && fmt.buffer != Client().buffer
    }

    /** The first half of connectionSwitched: the greeter goes, the old connection is
        closed, and the potential one becomes current. */
    method Promote()
      requires Valid() && Switchable()
      modifies this`m_greeterConnection, this`m_currentConnection, this`m_potentialConnection,
        m_selector`m_pendingCancelation, m_currentConnection.m_xvnc`m_connectionCount
      ensures Valid() && m_selector.m_pendingCancelation
      ensures m_greeterConnection == null && m_potentialConnection == null && m_currentConnection == old(m_potentialConnection)
      ensures LinkOf(m_currentConnection) == old(LinkOf(m_potentialConnection))
      ensures old(m_currentConnection).m_xvnc.m_connectionCount == old(m_currentConnection.m_xvnc.m_connectionCount) - 1
    {
      assert m_greeterConnection != null;
      m_greeterConnection := null;

      assert m_potentialConnection != null;
      m_currentConnection.Close();
      m_currentConnection := m_potentialConnection;
      m_potentialConnection := null;

      m_selector.Cancel();
    }

    /** connectionSwitched, called when the potential connection is initialized. */
    method ConnectionSwitched() returns (r: Result<Unit>)
      requires Valid() && Switchable()
      modifies this, m_selector`m_pendingCancelation, m_potentialConnection`m_pixelFormat, m_potentialConnection.m_streamFormatter.stream`outgoing,
        m_currentConnection.m_xvnc`m_connectionCount
      ensures Valid()
      ensures m_currentConnection == old(m_potentialConnection) && m_selector.m_pendingCancelation
      ensures State() == S.Switched(old(State()), old(LinkOf(m_potentialConnection))) || r.Failure?
      ensures r.Success? ==>
                Server().stream.outgoing ==
                old(m_potentialConnection.m_streamFormatter.stream.outgoing) +
                S.SwitchBytes(old(Settings()), old(LinkOf(m_potentialConnection)))
      ensures old(m_currentConnection).m_xvnc.m_connectionCount == old(m_currentConnection.m_xvnc.m_connectionCount) - 1
      ensures r.Failure? ==> r.error == Errno
    {
      hide S.SwitchBytes, PixelFormat.Same, StreamFormatter.Pending, Switchable;
      Promote();
      var _ :- ConfigureServer();
      m_tightZlibResetQueued := true;
      if ClientSupportsEncoding(DESKTOP_NAME) {
        m_desktopNameChangeQueued := true;
      }
      return Success(Unit);
    }

    /** The handlers that initialize calls: connectionSwitched when it is done, and
        otherwise the greeter's request for what is needed. */
    method Proceed(asked: I.Asked) returns (r: Result<Unit>)
      requires Valid() && Switchable()
      modifies this, m_selector`m_pendingCancelation, m_potentialConnection`m_pixelFormat, m_potentialConnection.m_streamFormatter.stream`outgoing,
        m_currentConnection.m_xvnc`m_connectionCount, m_greeterConnection`m_out
      ensures Valid() && (old(m_selector.m_pendingCancelation) ==> m_selector.m_pendingCancelation)
      ensures r.Failure? ==> r.error == Errno
      ensures r.Success? && asked.Ready? ==>
                && State() == S.Switched(old(State()), old(LinkOf(m_potentialConnection)))
                && m_currentConnection == old(m_potentialConnection)
                && Server().stream.outgoing ==
                   old(m_potentialConnection.m_streamFormatter.stream.outgoing) +
                   S.SwitchBytes(old(Settings()), old(LinkOf(m_potentialConnection)))
      ensures !asked.Ready? ==>
                && r.Success? && State() == old(State()) && Switchable()
                && m_potentialConnection == old(m_potentialConnection) && m_greeterConnection == old(m_greeterConnection)
                && Server() == old(Server())
                && m_potentialConnection.m_streamFormatter.stream.outgoing == old(m_potentialConnection.m_streamFormatter.stream.outgoing)
                && m_greeterConnection.m_out ==
                   old(m_greeterConnection.m_out) + [if asked.NeedsPassword? then GetPassword else GetCredentials]
    {
      hide S.SwitchBytes, S.Switched;
      match asked
      case Ready(_) =>
        r := ConnectionSwitched();
      case NeedsPassword =>
        m_greeterConnection.AskForPassword();
        r := Success(Unit);
      case NeedsCredentials =>
        m_greeterConnection.AskForCredentials();
        r := Success(Unit);
    }

    static function LinkFor(d: H.Display, before: D.Desktop): S.Link {
      S.Link(d.pf, d.width, d.height, D.SetName(before, d.name))
    }

    /** The handshake on the potential connection, as far as it gets by itself. The
        rest of the tunnel does not notice, unless both connections lead to the
        same session. */
    method BeginHandshake() returns (r: Result<I.Asked>)
      requires Valid() && Switchable() && m_potentialConnection.m_streamFormatter != Server()
      modifies m_potentialConnection`m_framebufferWidth, m_potentialConnection`m_framebufferHeight, m_potentialConnection`m_pixelFormat,
        m_potentialConnection.m_streamFormatter`bufferSize,
        m_potentialConnection.m_streamFormatter.stream`incoming, m_potentialConnection.m_streamFormatter.stream`outgoing,
        m_potentialConnection.m_xvnc`m_desktopName, m_potentialConnection.m_xvnc`m_approvedControllerKeys,
        m_potentialConnection.m_xvnc.m_xvncManager`m_sessionListVersion
      ensures Valid() && Switchable()
      ensures r.Success? ==> I.Attempt(old(m_potentialConnection.Talk())) == Success((r.value, m_potentialConnection.Talk()))
      ensures r.Success? && r.value.Ready? ==>
                var link := LinkOf(m_potentialConnection);
                && link == LinkFor(r.value.display, old(m_potentialConnection.m_xvnc.Desktop())) && r.value.display.pf.WellSized()
                && S.Switched(State(), link) == S.Switched(old(State()), link)
      ensures r.Failure? || !r.value.Ready? ==> State() == old(State())
      ensures r.Failure? ==> r.error == Errno || I.Attempt(old(m_potentialConnection.Talk())) == Failure(r.error)
      ensures old(m_potentialConnection.m_xvnc.Desktop().Valid()) ==> m_potentialConnection.m_xvnc.Desktop().Valid()
    {
      hide I.Attempt, S.Switched, StreamFormatter.Pending, D.SetName;
      ghost var before := State();
      r := m_potentialConnection.Attempt();
      S.SwitchedForgets(State(), before, LinkOf(m_potentialConnection));
    }

    /** initialize on the potential connection, with the handlers it calls. */
    method InitializePotential() returns (r: Result<I.Asked>)
      requires Valid() && Switchable() && m_potentialConnection.m_streamFormatter != Server()
      requires m_potentialConnection.m_streamFormatter.stream != Server().stream
      modifies this, m_selector`m_pendingCancelation, m_greeterConnection`m_out, m_currentConnection.m_xvnc`m_connectionCount,
        m_potentialConnection`m_framebufferWidth, m_potentialConnection`m_framebufferHeight, m_potentialConnection`m_pixelFormat,
        m_potentialConnection.m_streamFormatter`bufferSize,
        m_potentialConnection.m_streamFormatter.stream`incoming, m_potentialConnection.m_streamFormatter.stream`outgoing,
        m_potentialConnection.m_xvnc`m_desktopName, m_potentialConnection.m_xvnc`m_approvedControllerKeys,
        m_potentialConnection.m_xvnc.m_xvncManager`m_sessionListVersion
      ensures Valid() && (old(m_selector.m_pendingCancelation) ==> m_selector.m_pendingCancelation)
      ensures r.Failure? ==> r.error == Errno || I.Attempt(old(m_potentialConnection.Talk())) == Failure(r.error)
      ensures r.Failure? && r.error != Errno ==>
                && State() == old(State()) && Switchable() && m_currentConnection == old(m_currentConnection)
                && m_potentialConnection == old(m_potentialConnection) && m_greeterConnection == old(m_greeterConnection)
                && m_potentialConnection.m_xvnc.m_connectionCount == old(m_potentialConnection.m_xvnc.m_connectionCount)
      ensures r.Success? ==>
                var spec := I.Attempt(old(m_potentialConnection.Talk()));
                && spec.Success? && spec.value.0 == r.value
                && (match r.value
                    case Ready(display) =>
                      var link := LinkFor(display, old(m_potentialConnection.m_xvnc.Desktop()));
                      && display.pf.WellSized()
                      && State() == S.Switched(old(State()), link) && m_currentConnection == old(m_potentialConnection)
                      && Server().stream == old(m_potentialConnection.m_streamFormatter.stream)
                      && Server().stream.outgoing == spec.value.1.output + S.SwitchBytes(old(Settings()), link)
                    case _ =>
                      && State() == old(State()) && Switchable() && m_potentialConnection == old(m_potentialConnection)
                      && m_potentialConnection.m_streamFormatter.stream.outgoing == spec.value.1.output
                      && m_greeterConnection == old(m_greeterConnection)
                      && m_greeterConnection.m_out ==
                         old(m_greeterConnection.m_out) + [if r.value.NeedsPassword? then GetPassword else GetCredentials])
    {
      hide I.Attempt, S.SwitchBytes, S.Switched, StreamFormatter.Pending, LinkFor;
      r := BeginHandshake();
      if r.Success? {
        var proceeds := Proceed(r.value);
        if proceeds.Failure? {
          return Failure(Errno);
        }
      }
    }

    /** The new attempt shares nothing with the client and the current connection. */
    method OpenPotential(xvnc: Xvnc, stream: FdStream)
      requires Valid() && m_greeterConnection != null
      requires stream.m_fd != -1 && stream != Client().stream && stream != Server().stream
      requires m_currentConnection.m_xvnc.m_connectionCount > 0
      requires m_potentialConnection != null ==>
                 && m_potentialConnection.m_xvnc.m_connectionCount > 0
                 && (m_potentialConnection.m_xvnc == m_currentConnection.m_xvnc ==> m_currentConnection.m_xvnc.m_connectionCount > 1)
      modifies this`m_tightEncodingDisabled, this`m_supportedEncodingsServer, this`m_potentialConnection,
        m_selector`m_pendingCancelation, xvnc`m_connectionCount,
        (if m_potentialConnection == null then {} else {m_potentialConnection.m_xvnc})`m_connectionCount
      ensures Valid() && Switchable() && m_selector.m_pendingCancelation && fresh(m_potentialConnection)
      ensures fresh(m_potentialConnection.m_streamFormatter) && m_potentialConnection.m_streamFormatter.stream == stream
      ensures m_potentialConnection.m_streamFormatter != Server() && stream != Server().stream
      ensures m_potentialConnection.m_xvnc == xvnc && xvnc.m_connectionCount > 0
      ensures State() == S.SwitchStarted(old(State())) && Settings() == S.EnableTight(old(Settings()))
      ensures m_potentialConnection.Talk() == R.Io(stream.incoming, stream.outgoing)
    {
      StartSwitch(xvnc, stream);
    }

    /** switchToConnection, called by the greeter's handlers. The handshake ends with
        the switch, or waits for the greeter's answer, or fails. */
    method SwitchToConnection(xvnc: Xvnc, stream: FdStream) returns (r: Result<I.Asked>)
      requires Valid() && m_greeterConnection != null
      requires stream.m_fd != -1 && stream != Client().stream && stream != Server().stream
      requires m_currentConnection.m_xvnc.m_connectionCount > 0
      requires m_potentialConnection != null ==>
                 && m_potentialConnection.m_xvnc.m_connectionCount > 0
                 && (m_potentialConnection.m_xvnc == m_currentConnection.m_xvnc ==> m_currentConnection.m_xvnc.m_connectionCount > 1)
      modifies this, m_selector`m_pendingCancelation, m_greeterConnection`m_out, stream`incoming, stream`outgoing,
        xvnc`m_connectionCount, xvnc`m_desktopName, xvnc`m_approvedControllerKeys, xvnc.m_xvncManager`m_sessionListVersion,
        m_currentConnection.m_xvnc`m_connectionCount,
        (if m_potentialConnection == null then {} else {m_potentialConnection.m_xvnc})`m_connectionCount
      ensures Valid() && m_selector.m_pendingCancelation
      ensures r.Failure? ==> r.error == Errno || I.Attempt(old(R.Io(stream.incoming, stream.outgoing))) == Failure(r.error)
      ensures r.Failure? && r.error != Errno ==>
                && State() == S.SwitchStarted(old(State())) && m_currentConnection == old(m_currentConnection)
                && m_greeterConnection == old(m_greeterConnection)
                && m_potentialConnection != null && m_potentialConnection != m_currentConnection
                && m_potentialConnection.m_xvnc.m_connectionCount > 0
      ensures r.Success? ==>
                var spec := I.Attempt(old(R.Io(stream.incoming, stream.outgoing)));
                && spec.Success? && spec.value.0 == r.value
                && (match r.value
                    case Ready(display) =>
                      var link := LinkFor(display, old(xvnc.Desktop()));
                      && State() == S.Switched(S.SwitchStarted(old(State())), link) && Server().stream == stream
                      && display.pf.WellSized()
                      && stream.outgoing == spec.value.1.output + S.SwitchBytes(S.EnableTight(old(Settings())), link)
                    case _ =>
                      && State() == S.SwitchStarted(old(State())) && Switchable()
                      && m_potentialConnection.m_streamFormatter.stream == stream && stream.outgoing == spec.value.1.output
                      && m_greeterConnection.m_out ==
                         old(m_greeterConnection.m_out) + [if r.value.NeedsPassword? then GetPassword else GetCredentials])
      ensures Disciplined(Handler.GreeterReceive, old(Pointers()), Pointers(), m_selector.m_pendingCancelation, r.Failure?)
    {
      hide I.Attempt, S.SwitchBytes, S.Switched, S.SwitchStarted, S.EnableTight, LinkFor, StreamFormatter.Pending,
        State, Settings, Client, Server, Valid, Switchable, Pointers;
      OpenPotential(xvnc, stream);
      r := InitializePotential();
    }

    /** The greeter's answer to a request: the switch is done, or fails. */
    method GreeterAnswers(encrypt: (bytes, bytes) -> bytes, answer: I.Answer) returns (r: Result<H.Display>)
      requires Valid() && Switchable() && m_potentialConnection.m_streamFormatter != Server()
      requires m_potentialConnection.m_streamFormatter.stream != Server().stream
      modifies this, m_selector`m_pendingCancelation, m_currentConnection.m_xvnc`m_connectionCount,
        m_potentialConnection`m_framebufferWidth, m_potentialConnection`m_framebufferHeight, m_potentialConnection`m_pixelFormat,
        m_potentialConnection.m_streamFormatter`bufferSize,
        m_potentialConnection.m_streamFormatter.stream`incoming, m_potentialConnection.m_streamFormatter.stream`outgoing,
        m_potentialConnection.m_xvnc`m_desktopName, m_potentialConnection.m_xvnc`m_approvedControllerKeys,
        m_potentialConnection.m_xvnc.m_xvncManager`m_sessionListVersion
      ensures Valid()
      ensures r.Failure? ==> r.error == Errno || I.Resume(encrypt, answer, old(m_potentialConnection.Talk())) == Failure(r.error)
      ensures r.Failure? && r.error != Errno ==>
                && State() == old(State()) && Switchable() && m_currentConnection == old(m_currentConnection)
                && m_potentialConnection == old(m_potentialConnection) && m_greeterConnection == old(m_greeterConnection)
                && m_potentialConnection.m_xvnc.m_connectionCount == old(m_potentialConnection.m_xvnc.m_connectionCount)
      ensures r.Success? ==>
                var spec := I.Resume(encrypt, answer, old(m_potentialConnection.Talk()));
                var link := LinkFor(r.value, old(m_potentialConnection.m_xvnc.Desktop()));
                && spec.Success? && spec.value.0 == r.value && r.value.pf.WellSized()
                && State() == S.Switched(old(State()), link) && m_currentConnection == old(m_potentialConnection)
                && Server().stream.outgoing == spec.value.1.output + S.SwitchBytes(old(Settings()), link)
      ensures Disciplined(Handler.GreeterReceive, old(Pointers()), Pointers(), m_selector.m_pendingCancelation, r.Failure?)
      ensures r.Success? ==> m_selector.m_pendingCancelation
    {
      hide I.Resume, S.SwitchBytes, S.Switched, StreamFormatter.Pending, D.SetName;
      ghost var before := State();
      r := m_potentialConnection.Resume(encrypt, answer);
      if r.Success? {
        S.SwitchedForgets(State(), before, LinkOf(m_potentialConnection));
        var switched := ConnectionSwitched();
        if switched.Failure? {
          return Failure(Errno);
        }
      }
    }

    /** The handler in start() of a ConnectionException of the potential connection:
        everything but the attempt itself stays as it was. */
    method PotentialConnectionFailed()
      requires m_greeterConnection != null && m_potentialConnection != null
      requires m_potentialConnection.m_xvnc.m_connectionCount > 0
      modifies this`m_potentialConnection, m_greeterConnection`m_out, m_potentialConnection.m_xvnc`m_connectionCount
      ensures State() == S.SwitchFailed(old(State()))
      ensures m_greeterConnection.m_out == old(m_greeterConnection.m_out) + [ShowError]
      ensures old(m_potentialConnection).m_xvnc.m_connectionCount == old(m_potentialConnection.m_xvnc.m_connectionCount) - 1
    {
      m_greeterConnection.ShowErrorMessage();
      m_potentialConnection.Close();
      m_potentialConnection := null;
    }

    /** The connection that a ConnectionException names. */
    ghost function FaultyOf(faulty: XvncConnection): ML.Faulty
      reads this
    {
      if faulty == m_currentConnection then ML.CurrentConnection
      else if faulty == m_potentialConnection then ML.PotentialConnection
      else ML.AnotherConnection
    }

    /** The catch clauses of start(): whether the main loop goes on. */
    method Catch(e: Error, faulty: XvncConnection) returns (goesOn: bool)
      requires m_potentialConnection != null ==> m_potentialConnection.m_xvnc.m_connectionCount > 0
      modifies this`m_potentialConnection,
        (if m_greeterConnection == null then {} else {m_greeterConnection})`m_out,
        (if m_potentialConnection == null then {} else {m_potentialConnection.m_xvnc})`m_connectionCount
      ensures
        match old(ML.Caught(State(), e, FaultyOf(faulty)))
        case GoesOn(t) => goesOn && State() == t
        case Disconnects => !goesOn && State() == old(State())
      ensures m_greeterConnection != null ==>
                m_greeterConnection.m_out == old(m_greeterConnection.m_out) + (if e == ConnectionFailed then [ShowError] else [])
      ensures
        var last := old(m_potentialConnection);
        last != null ==>
          last.m_xvnc.m_connectionCount == old(m_potentialConnection.m_xvnc.m_connectionCount) - (if m_potentialConnection == null then 1 else 0)
    {
      if e != ConnectionFailed {
        return false;
      }
      if m_greeterConnection != null {
        m_greeterConnection.ShowErrorMessage();
      }
      if faulty == m_currentConnection {
        return false;
      }
      if faulty == m_potentialConnection {
        m_potentialConnection.Close();
        m_potentialConnection := null;
      }
      return true;
    }

    // ---------------------------------------------------------------- dispatching

    ghost function Attempted(): set<object>
      reads this
    {
      if m_potentialConnection == null then {}
      else {m_potentialConnection, m_potentialConnection.m_xvnc, m_potentialConnection.m_xvnc.m_xvncManager,
            m_potentialConnection.m_streamFormatter, m_potentialConnection.m_streamFormatter.stream}
    }

    /** What the handlers may touch. */
    ghost function Reach(command: Command): set<object>
      reads this
    {
      {this, Client(), Client().buffer, Client().stream, Server(), Server().buffer, Server().stream, m_currentConnection,
       m_currentConnection.m_xvnc, m_currentConnection.m_xvnc.m_xvncManager} +
      (if m_greeterConnection == null then {} else {m_greeterConnection}) + Attempted() + command.Touched()
    }

    /** The command can be carried out: sessions that are opened exist and have been
        connected to, and answers have an attempt to go to. */
    ghost predicate CommandOk(command: Command)
      reads this, m_currentConnection.m_xvnc, Attempted(), command.Touched()
    {
      match command
      case NoCommand => true
      case Open(_, stream) =>
        && stream.m_fd != -1 && stream != Client().stream && stream != Server().stream
        && m_currentConnection.m_xvnc.m_connectionCount > 0
        && (m_potentialConnection != null ==>
              && m_potentialConnection.m_xvnc.m_connectionCount > 0
              && (m_potentialConnection.m_xvnc == m_currentConnection.m_xvnc ==> m_currentConnection.m_xvnc.m_connectionCount > 1))
      case Answered(_, _) =>
        && Switchable() && m_potentialConnection.m_streamFormatter != Server()
        && m_potentialConnection.m_streamFormatter.stream != Server().stream
    }

    /** GreeterConnection::receive and the tunnel's handlers for it. */
    method GreeterReceive(command: Command) returns (r: Result<Unit>)
      requires Valid() && m_greeterConnection != null && CommandOk(command)
      modifies Reach(command), m_selector`m_pendingCancelation
      ensures Valid()
      ensures r.Success? && !m_selector.m_pendingCancelation ==>
                && Client().bufferSize == old(Client().bufferSize) && Server().bufferSize == old(Server().bufferSize)
                && CommandOk(command) && Reach(command) == old(Reach(command))
      ensures Disciplined(Handler.GreeterReceive, old(Pointers()), Pointers(), m_selector.m_pendingCancelation, r.Failure?)
      ensures m_selector.m_fds == old(m_selector.m_fds)
    {
      hide I.Attempt, I.Resume, S.Switched, S.SwitchStarted, S.SwitchBytes, S.EnableTight, LinkFor, State, Settings, StreamFormatter.Pending;
      match command
      case NoCommand => r := Success(Unit);
      case Open(xvnc, stream) =>
        var asked := SwitchToConnection(xvnc, stream);
        r := if asked.Success? then Success(Unit) else Failure(asked.error);
      case Answered(encrypt, answer) =>
        var display := GreeterAnswers(encrypt, answer);
        r := if display.Success? then Success(Unit) else Failure(display.error);
    }

    /** clientReceive leaves the next handler everything it needs. */
    method HandleClient(command: Command) returns (r: Result<Unit>)
      requires Valid() && Client().bufferSize == 0 && Server().bufferSize == 0 && CommandOk(command)
      modifies Reach(command)
      ensures Valid() && Pointers() == old(Pointers())
      ensures r.Success? ==> Client().bufferSize == 0 && Server().bufferSize == 0 && CommandOk(command)
      ensures m_currentConnection == old(m_currentConnection) && m_potentialConnection == old(m_potentialConnection)
      ensures m_greeterConnection == old(m_greeterConnection)
      ensures m_selector.m_fds == old(m_selector.m_fds)
    {
      hide C.RelayClient, S.AfterClient, StreamFormatter.Pending;
      r := ClientReceive();
    }

    /** serverReceive leaves the next handler everything it needs. */
    method HandleServer(command: Command) returns (r: Result<Unit>)
      requires Valid() && Client().bufferSize == 0 && Server().bufferSize == 0 && CommandOk(command)
      modifies Reach(command)
      ensures Valid() && Pointers() == old(Pointers())
      ensures r.Success? ==> Client().bufferSize == 0 && Server().bufferSize == 0 && CommandOk(command)
      ensures m_currentConnection == old(m_currentConnection) && m_potentialConnection == old(m_potentialConnection)
      ensures m_greeterConnection == old(m_greeterConnection)
      ensures m_selector.m_fds == old(m_selector.m_fds)
    {
      hide R.RelayServer, StreamFormatter.Pending;
      r := ServerReceive();
    }

    /** A registered handler. When it neither cancels nor throws, the next one finds
        everything it needs. */
    method Handle(h: Handler, command: Command) returns (r: Result<Unit>)
      requires Valid() && Client().bufferSize == 0 && Server().bufferSize == 0 && CommandOk(command)
      requires h.GreeterReceive? ==> m_greeterConnection != null
      requires !m_selector.m_pendingCancelation
      modifies Reach(command), m_selector`m_pendingCancelation
      ensures Valid()
      ensures Disciplined(h, old(Pointers()), Pointers(), m_selector.m_pendingCancelation, r.Failure?)
      ensures r.Success? && !m_selector.m_pendingCancelation ==>
                && Client().bufferSize == 0 && Server().bufferSize == 0 && CommandOk(command)
                && Reach(command) == old(Reach(command))
      ensures m_selector.m_fds == old(m_selector.m_fds)
    {
      hide Valid, CommandOk;
      match h
      case ClientReceive => r := HandleClient(command);
      case ServerReceive => r := HandleServer(command);
      case GreeterReceive => r := GreeterReceive(command);
    }

    /** The second half of VncTunnel::select, for the ready set that ::select returned:
        a dispatch as module ReadSelectors describes it, of handlers `run` that keep
        its discipline. */
    method DispatchReady(ready: set<int>, limit: nat, command: Command)
      returns (r: Result<Unit>, ghost run: (Handler, Pointers) -> Outcome<Pointers>, ghost trace: seq<Pointers>)
      requires Valid() && Client().bufferSize == 0 && Server().bufferSize == 0 && CommandOk(command)
      requires m_selector.m_fds == Registered(Client().stream.m_fd, Pointers()) && !m_selector.m_pendingCancelation
      requires forall fd :: fd in m_selector.m_fds ==> 0 <= fd < limit
      modifies Reach(command), m_selector`m_pendingCancelation
      ensures Valid() && Discipline(run) && m_selector.m_fds == old(m_selector.m_fds)
      ensures
        var queue := ReadyBelow(m_selector.m_fds, ready, limit);
        && (forall i :: 0 <= i < |queue| ==> queue[i] in m_selector.m_fds)
        && trace == Dispatch(m_selector.m_fds, queue, old(Pointers()), run)
        && trace != [] && trace[|trace| - 1] == Pointers()
        && (r.Failure? <==> LastThrew(m_selector.m_fds, queue, trace, run))
    {
      hide Dispatch, ReadyBelow, ReadyFrom, Valid, CommandOk, Reach, Discipline, Only, Registered, LastThrew;
      ghost var p, fds := Pointers(), m_selector.m_fds;
      ghost var clientFd := Client().stream.m_fd;
      ReadyAreRegistered(fds, ready, limit);
      ReadyFromZero(fds, ready, limit);
      ghost var all, queue := ReadyBelow(fds, ready, limit), ReadyBelow(fds, ready, limit);
      ghost var done: seq<int> := [];
      for fd := 0 to limit
        invariant Valid() && Client().bufferSize == 0 && Server().bufferSize == 0 && CommandOk(command)
        invariant m_selector.m_fds == fds && !m_selector.m_pendingCancelation && Pointers() == p
        invariant Reach(command) == old(Reach(command))
        invariant all == done + queue && queue == ReadyFrom(fds, ready, fd, limit)
        invariant forall i :: 0 <= i < |done| ==> done[i] in fds && done[i] < fd
        invariant forall i :: 0 <= i < |queue| ==> queue[i] in fds
      {
        ReadyFromStep(fds, ready, fd, limit);
        if fd in m_selector.m_fds && fd in ready {
          var h := m_selector.m_fds[fd];
          GreeterThere(h, fd, clientFd, p);
          r := Handle(h, command);
          if r.Failure? || m_selector.m_pendingCancelation {
            ghost var o := Outcome(Pointers(), m_selector.m_pendingCancelation, r.Failure?);
            run, trace := Only(h, p, o), Again(p, |done| + 1) + [o.world];
            StoppedAt(clientFd, p, all, done, queue, o);
            return;
          }
          done, queue := done + [fd], queue[1..];
        }
      }
      r := Success(Unit);
      NothingReady(fds, ready, limit);
      run, trace := Only(Handler.ClientReceive, p, Outcome(p, false, false)), Again(p, |all| + 1);
      RanThrough(fds, all, p);
    }

    method StartDispatch(command: Command)
      requires Valid() && Client().bufferSize == 0 && Server().bufferSize == 0 && CommandOk(command)
      requires
        var p := Pointers();
        && Client().stream.m_fd != p.serverFd
        && (p.greeterFd.Some? ==> p.greeterFd.value != Client().stream.m_fd && p.greeterFd.value != p.serverFd)
      modifies m_selector
      ensures Valid() && Client().bufferSize == 0 && Server().bufferSize == 0 && CommandOk(command)
      ensures m_selector.m_fds == Registered(Client().stream.m_fd, Pointers()) && !m_selector.m_pendingCancelation
      ensures Pointers() == old(Pointers()) && Reach(command) == old(Reach(command))
    {
      hide Registered;
      RegisterHandlers();
      m_selector.m_pendingCancelation := false;
    }

    /** VncTunnel::select, with the ready set that ::select returns. Open descriptors
        are non-negative and differ from each other. */
    method Select(ready: set<int>, limit: nat, command: Command)
      returns (r: Result<Unit>, ghost run: (Handler, Pointers) -> Outcome<Pointers>, ghost trace: seq<Pointers>)
      requires Valid() && Client().bufferSize == 0 && Server().bufferSize == 0 && CommandOk(command)
      requires
        var p, clientFd := Pointers(), Client().stream.m_fd;
        && clientFd != p.serverFd
        && (p.greeterFd.Some? ==> p.greeterFd.value != clientFd && p.greeterFd.value != p.serverFd)
        && forall fd :: fd in Registered(clientFd, p) ==> 0 <= fd < limit
      modifies Reach(command), m_selector
      ensures Valid() && Discipline(run)
      ensures
        var fds := old(Registered(Client().stream.m_fd, Pointers()));
        var queue := ReadyBelow(fds, ready, limit);
        && (forall i :: 0 <= i < |queue| ==> queue[i] in fds)
        && trace == Dispatch(fds, queue, old(Pointers()), run) && trace != [] && trace[|trace| - 1] == Pointers()
        && (r.Failure? <==> LastThrew(fds, queue, trace, run))
        && OwnersOnly(fds, queue, trace)
    {
      hide Dispatch, ReadyBelow, LastThrew, Discipline, OwnersOnly, Registered, Valid, CommandOk, Reach, Pointers, Server;
      ghost var p, clientFd := Pointers(), Client().stream.m_fd;
      StartDispatch(command);
      assert m_selector.m_fds == Registered(clientFd, p) && Pointers() == p;
      r, run, trace := DispatchReady(ready, limit, command);
      EveryDispatchSafe(clientFd, p, ready, limit, run);
    }
  }
}
