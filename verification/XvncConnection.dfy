/** XvncConnection.cpp: the tunnel's connection to one Xvnc. */
module XvncConnections {
  import opened Bytes
  import opened ClientMessages
  import opened ClientRelay
  import D = Desktop
  import opened Failures
  import H = Handshake
  import I = Initialization
  import opened Relay
  import opened Rfb
  import opened Sessions
  import opened StreamFormatters
  import opened Streams
  import opened Switching

  class XvncConnection {
    const m_xvnc: Xvnc
    const m_streamFormatter: StreamFormatter
    var m_framebufferWidth: u16
    var m_framebufferHeight: u16
    var m_pixelFormat: PixelFormat

    /** Opening a connection counts as one in the session. */
    constructor (xvnc: Xvnc, stream: FdStream)
      requires stream.m_fd != -1
      modifies xvnc`m_connectionCount
      ensures m_xvnc == xvnc && xvnc.m_connectionCount == old(xvnc.m_connectionCount) + 1
      ensures fresh(m_streamFormatter) && fresh(m_streamFormatter.buffer)
      ensures m_streamFormatter.stream == stream && m_streamFormatter.Valid()
      ensures m_streamFormatter.bufferSize == 0 && Talk() == Io(stream.incoming, stream.outgoing)
      ensures m_pixelFormat.WellSized()
    {
      m_xvnc := xvnc;
      m_streamFormatter := new StreamFormatter(stream);
      m_framebufferWidth, m_framebufferHeight := 0, 0;
      m_pixelFormat := PixelFormat(0, 0, 0, 0, Zeros(6), Zeros(3), Zeros(3));
      new;
      xvnc.Connect();
    }

    /** What the server still has to say, and what it has been told. */
    ghost function Talk(): Io
      requires m_streamFormatter.Valid()
      reads m_streamFormatter, m_streamFormatter.stream, m_streamFormatter.buffer
    {
      Io(m_streamFormatter.Pending(), m_streamFormatter.stream.outgoing)
    }

    /** fmt().recv(value) */
    method Hear(size: nat) returns (r: Result<bytes>)
      requires m_streamFormatter.Valid()
      modifies m_streamFormatter`bufferSize, m_streamFormatter.stream`incoming
      ensures m_streamFormatter.Valid()
      ensures r.Success? ==> |r.value| == size && Take(old(Talk()), size) == Success((r.value, Talk()))
      ensures r.Failure? ==> r.error == Errno || Take(old(Talk()), size) == Failure(r.error)
    {
      r := m_streamFormatter.Recv(size);
    }

    /** fmt().send(value) */
    method Say(b: bytes) returns (r: Result<Unit>)
      requires m_streamFormatter.Valid()
      modifies m_streamFormatter.stream`outgoing
      ensures m_streamFormatter.Valid()
      ensures r.Success? ==> Talk() == Put(old(Talk()), b)
      ensures r.Failure? ==> r.error == Errno
    {
      r := m_streamFormatter.Send(b);
    }

    method ReceiveFailureReason() returns (e: Error)
      requires m_streamFormatter.Valid()
      modifies m_streamFormatter`bufferSize, m_streamFormatter.stream`incoming
      ensures m_streamFormatter.Valid()
      ensures e == Errno || e == I.FailWithReason(old(Talk()))
    {
      hide Take;
      var reasonLength := Hear(4);
      if reasonLength.Failure? {
        return reasonLength.error;
      }
      var reason := Hear(GetU32(reasonLength.value));
      if reason.Failure? {
        return reason.error;
      }
      return ConnectionFailed;
    }

    method StartInitialization(supportedTypes: set<byte>) returns (r: Result<byte>)
      requires m_streamFormatter.Valid()
      modifies m_streamFormatter`bufferSize, m_streamFormatter.stream`incoming, m_streamFormatter.stream`outgoing
      ensures m_streamFormatter.Valid()
      ensures r.Success? ==> I.StartInitialization(supportedTypes, old(Talk())) == Success((r.value, Talk()))
      ensures r.Failure? ==> r.error == Errno || I.StartInitialization(supportedTypes, old(Talk())) == Failure(r.error)
    {
      hide I.FailWithReason, Take, Put;
      var versionString :- Hear(12);
      if versionString != H.VERSION {
        return Failure(ConnectionFailed);
      }
      var _ :- Say(versionString);
      var numberOfSecurityTypes :- Hear(1);
      if numberOfSecurityTypes[0] == 0 {
        var e := ReceiveFailureReason();
        return Failure(e);
      }
      var securityTypes :- Hear(numberOfSecurityTypes[0]);
      var selectedSecurityType := SelectType(securityTypes, supportedTypes);
      if selectedSecurityType == 0 {
        return Failure(ConnectionFailed);
      }
      var _ :- Say([selectedSecurityType]);
      return Success(selectedSecurityType);
    }

    /** The loop that finds any supported security type. */
    static method SelectType(securityTypes: bytes, supportedTypes: set<byte>) returns (selected: byte)
      ensures selected == I.Select(securityTypes, supportedTypes)
    {
      for i := 0 to |securityTypes|
        invariant I.Select(securityTypes, supportedTypes) == I.Select(securityTypes[i..], supportedTypes)
      {
        if securityTypes[i] in supportedTypes {
          return securityTypes[i];
        }
        assert securityTypes[i..][1..] == securityTypes[i + 1..];
      }
      selected := 0;
    }

    method ReceiveSecurityResult() returns (r: Result<Unit>)
      requires m_streamFormatter.Valid()
      modifies m_streamFormatter`bufferSize, m_streamFormatter.stream`incoming
      ensures m_streamFormatter.Valid()
      ensures r.Success? ==> I.ReceiveSecurityResult(old(Talk())) == Success(Talk())
      ensures r.Failure? ==> r.error == Errno || I.ReceiveSecurityResult(old(Talk())) == Failure(r.error)
    {
      hide I.FailWithReason, Take, Put;
      var status :- Hear(4);
      if GetU32(status) != 0 {
        var e := ReceiveFailureReason();
        return Failure(e);
      }
      return Success(Unit);
    }

    /** The connection has taken over what ServerInit said. */
    ghost predicate Holds(d: H.Display, before: D.Desktop)
      reads this, m_xvnc
    {
      && m_framebufferWidth == d.width && m_framebufferHeight == d.height && m_pixelFormat == d.pf
      && m_xvnc.Desktop() == D.SetName(before, d.name)
    }

    /** The size, format and name of ServerInit become those of the connection and
        its session. */
    method CompleteInitialization() returns (r: Result<H.Display>)
      requires m_streamFormatter.Valid()
      modifies this`m_framebufferWidth, this`m_framebufferHeight, this`m_pixelFormat,
        m_streamFormatter`bufferSize, m_streamFormatter.stream`incoming, m_streamFormatter.stream`outgoing,
        m_xvnc`m_desktopName, m_xvnc`m_approvedControllerKeys, m_xvnc.m_xvncManager`m_sessionListVersion
      ensures m_streamFormatter.Valid()
      ensures r.Success? ==>
                I.CompleteInitialization(old(Talk())) == Success((r.value, Talk())) && Holds(r.value, old(m_xvnc.Desktop()))
      ensures r.Success? ==> m_pixelFormat.WellSized()
      ensures r.Failure? ==> r.error == Errno || I.CompleteInitialization(old(Talk())) == Failure(r.error)
      ensures r.Failure? ==> m_xvnc.Desktop() == old(m_xvnc.Desktop())
      ensures old(m_xvnc.Desktop().Valid()) ==> m_xvnc.Desktop().Valid()
    {
      hide GetU16, GetU32, Take, Put;
      var _ :- Say([1]);
      var serverInit :- Hear(24);
      m_framebufferWidth, m_framebufferHeight := GetU16(serverInit[..2]), GetU16(serverInit[2..4]);
      m_pixelFormat := ReadPixelFormat(serverInit[4..20]).Ntoh();
      var name :- Hear(GetU32(serverInit[20..]));
      m_xvnc.SetDesktopName(name);
      return Success(H.Display(m_framebufferWidth, m_framebufferHeight, m_pixelFormat, name));
    }

    method HandleNoneSecurity() returns (r: Result<H.Display>)
      requires m_streamFormatter.Valid()
      modifies this`m_framebufferWidth, this`m_framebufferHeight, this`m_pixelFormat,
        m_streamFormatter`bufferSize, m_streamFormatter.stream`incoming, m_streamFormatter.stream`outgoing,
        m_xvnc`m_desktopName, m_xvnc`m_approvedControllerKeys, m_xvnc.m_xvncManager`m_sessionListVersion
      ensures m_streamFormatter.Valid()
      ensures r.Success? ==> I.Finish(old(Talk())) == Success((r.value, Talk())) && Holds(r.value, old(m_xvnc.Desktop()))
      ensures r.Success? ==> m_pixelFormat.WellSized()
      ensures r.Failure? ==> r.error == Errno || I.Finish(old(Talk())) == Failure(r.error)
      ensures r.Failure? ==> m_xvnc.Desktop() == old(m_xvnc.Desktop())
      ensures old(m_xvnc.Desktop().Valid()) ==> m_xvnc.Desktop().Valid()
    {
      hide I.ReceiveSecurityResult, I.CompleteInitialization;
      var _ :- ReceiveSecurityResult();
      r := CompleteInitialization();
    }

    /** initialize, for a server that asks for no security. */
    method Initialize() returns (r: Result<H.Display>)
      requires m_streamFormatter.Valid()
      modifies this`m_framebufferWidth, this`m_framebufferHeight, this`m_pixelFormat,
        m_streamFormatter`bufferSize, m_streamFormatter.stream`incoming, m_streamFormatter.stream`outgoing,
        m_xvnc`m_desktopName, m_xvnc`m_approvedControllerKeys, m_xvnc.m_xvncManager`m_sessionListVersion
      ensures m_streamFormatter.Valid()
      ensures r.Success? ==> I.Initialize(old(Talk())) == Success((r.value, Talk())) && Holds(r.value, old(m_xvnc.Desktop()))
      ensures r.Failure? ==> r.error == Errno || I.Initialize(old(Talk())) == Failure(r.error)
      ensures r.Failure? ==> m_xvnc.Desktop() == old(m_xvnc.Desktop())
      ensures old(m_xvnc.Desktop().Valid()) ==> m_xvnc.Desktop().Valid()
    {
      hide I.StartInitialization, I.Finish;
      var selectedSecurityType :- StartInitialization({H.SECURITY_NONE});
      r := HandleNoneSecurity();
    }

    /** initialize with handlers: what it asks of the greeter, if anything. */
    method Attempt() returns (r: Result<I.Asked>)
      requires m_streamFormatter.Valid()
      modifies this`m_framebufferWidth, this`m_framebufferHeight, this`m_pixelFormat,
        m_streamFormatter`bufferSize, m_streamFormatter.stream`incoming, m_streamFormatter.stream`outgoing,
        m_xvnc`m_desktopName, m_xvnc`m_approvedControllerKeys, m_xvnc.m_xvncManager`m_sessionListVersion
      ensures m_streamFormatter.Valid()
      ensures r.Success? ==> I.Attempt(old(Talk())) == Success((r.value, Talk()))
      ensures r.Success? && r.value.Ready? ==> Holds(r.value.display, old(m_xvnc.Desktop())) && m_pixelFormat.WellSized()
      ensures r.Failure? ==> r.error == Errno || I.Attempt(old(Talk())) == Failure(r.error)
      ensures r.Failure? || !r.value.Ready? ==> m_xvnc.Desktop() == old(m_xvnc.Desktop())
      ensures old(m_xvnc.Desktop().Valid()) ==> m_xvnc.Desktop().Valid()
    {
      hide I.StartInitialization, I.Finish, I.HandleVeNCrypt;
      var selectedSecurityType :- StartInitialization({H.SECURITY_NONE, H.SECURITY_VNC_AUTH, H.SECURITY_VENCRYPT});
      if selectedSecurityType == H.SECURITY_NONE {
        var display :- HandleNoneSecurity();
        return Success(I.Ready(display));
      } else if selectedSecurityType == H.SECURITY_VNC_AUTH {
        return Success(I.NeedsPassword);
      } else {
        r := HandleVeNCryptSecurity();
      }
    }

    method HandleVeNCryptSecurity() returns (r: Result<I.Asked>)
      requires m_streamFormatter.Valid()
      modifies this`m_framebufferWidth, this`m_framebufferHeight, this`m_pixelFormat,
        m_streamFormatter`bufferSize, m_streamFormatter.stream`incoming, m_streamFormatter.stream`outgoing,
        m_xvnc`m_desktopName, m_xvnc`m_approvedControllerKeys, m_xvnc.m_xvncManager`m_sessionListVersion
      ensures m_streamFormatter.Valid()
      ensures r.Success? ==> I.HandleVeNCrypt(old(Talk())) == Success((r.value, Talk()))
      ensures r.Success? && r.value.Ready? ==> Holds(r.value.display, old(m_xvnc.Desktop())) && m_pixelFormat.WellSized()
      ensures r.Failure? ==> r.error == Errno || I.HandleVeNCrypt(old(Talk())) == Failure(r.error)
      ensures r.Failure? || !r.value.Ready? ==> m_xvnc.Desktop() == old(m_xvnc.Desktop())
      ensures old(m_xvnc.Desktop().Valid()) ==> m_xvnc.Desktop().Valid()
    {
      hide I.VeNCrypt, I.Finish;
      var selectedSubtype :- NegotiateVeNCrypt();
      if selectedSubtype == I.SUBTYPE_NONE {
        var display :- HandleNoneSecurity();
        return Success(I.Ready(display));
      } else if selectedSubtype == I.SUBTYPE_VNC_AUTH {
        return Success(I.NeedsPassword);
      } else {
        return Success(I.NeedsCredentials);
      }
    }

    method NegotiateVeNCrypt() returns (r: Result<s32>)
      requires m_streamFormatter.Valid()
      modifies m_streamFormatter`bufferSize, m_streamFormatter.stream`incoming, m_streamFormatter.stream`outgoing
      ensures m_streamFormatter.Valid()
      ensures r.Success? ==> I.VeNCrypt(old(Talk())) == Success((r.value, Talk()))
      ensures r.Failure? ==> r.error == Errno || I.VeNCrypt(old(Talk())) == Failure(r.error)
    {
      hide DecodeList, PutU32, Take, Put;
      var version :- Hear(2);
      if version != [0, 2] {
        return Failure(ConnectionFailed);
      }
      var _ :- Say(version);
      var status :- Hear(1);
      if status[0] != 0 {
        return Failure(ConnectionFailed);
      }
      var length :- Hear(1);
      var subtypes :- Hear(4 * (length[0] as int));
      var selectedSubtype := SelectSubtype(DecodeList(subtypes));
      if selectedSubtype == 0 {
        return Failure(ConnectionFailed);
      }
      var _ :- Say(PutU32(ToUnsigned(selectedSubtype)));
      return Success(selectedSubtype);
    }

    /** The loop that finds any supported subtype. */
    static method SelectSubtype(subtypes: seq<s32>) returns (selected: s32)
      ensures selected == I.SelectSubtype(subtypes)
    {
      for i := 0 to |subtypes|
        invariant I.SelectSubtype(subtypes) == I.SelectSubtype(subtypes[i..])
      {
        if subtypes[i] in {I.SUBTYPE_NONE, I.SUBTYPE_VNC_AUTH, I.SUBTYPE_PLAIN} {
          return subtypes[i];
        }
        assert subtypes[i..][1..] == subtypes[i + 1..];
      }
      selected := 0;
    }

    method SendAnswer(encrypt: (bytes, bytes) -> bytes, answer: I.Answer) returns (r: Result<Unit>)
      requires m_streamFormatter.Valid()
      modifies m_streamFormatter`bufferSize, m_streamFormatter.stream`incoming, m_streamFormatter.stream`outgoing
      ensures m_streamFormatter.Valid()
      ensures r.Success? ==> I.SendAnswer(encrypt, answer, old(Talk())) == Success(Talk())
      ensures r.Failure? ==> r.error == Errno || I.SendAnswer(encrypt, answer, old(Talk())) == Failure(r.error)
    {
      hide I.CredentialsHeader, Take, Put;
      match answer
      case Password(password) =>
        var challenge :- Hear(16);
        r := Say(encrypt(password, challenge));
      case Credentials(username, password) =>
        var _ :- Say(I.CredentialsHeader(username, password));
        var _ :- Say(username);
        r := Say(password);
    }

    /** The greeter's answer, and the rest of the handshake. */
    method Resume(encrypt: (bytes, bytes) -> bytes, answer: I.Answer) returns (r: Result<H.Display>)
      requires m_streamFormatter.Valid()
      modifies this`m_framebufferWidth, this`m_framebufferHeight, this`m_pixelFormat,
        m_streamFormatter`bufferSize, m_streamFormatter.stream`incoming, m_streamFormatter.stream`outgoing,
        m_xvnc`m_desktopName, m_xvnc`m_approvedControllerKeys, m_xvnc.m_xvncManager`m_sessionListVersion
      ensures m_streamFormatter.Valid()
      ensures r.Success? ==>
                I.Resume(encrypt, answer, old(Talk())) == Success((r.value, Talk())) && Holds(r.value, old(m_xvnc.Desktop()))
      ensures r.Success? ==> m_pixelFormat.WellSized()
      ensures r.Failure? ==> r.error == Errno || I.Resume(encrypt, answer, old(Talk())) == Failure(r.error)
      ensures r.Failure? ==> m_xvnc.Desktop() == old(m_xvnc.Desktop())
      ensures old(m_xvnc.Desktop().Valid()) ==> m_xvnc.Desktop().Valid()
    {
      hide I.Finish, I.SendAnswer;
      var _ :- SendAnswer(encrypt, answer);
      r := HandleNoneSecurity();
    }

    /** ~XvncConnection */
    method Close()
      requires m_xvnc.m_connectionCount > 0
      modifies m_xvnc`m_connectionCount
      ensures m_xvnc.m_connectionCount == old(m_xvnc.m_connectionCount) - 1
    {
      m_xvnc.Disconnect();
    }

    method SendSetPixelFormat(format: PixelFormat) returns (r: Result<Unit>)
      requires m_streamFormatter.Valid() && format.WellSized()
      modifies this`m_pixelFormat, m_streamFormatter.stream`outgoing
      ensures m_pixelFormat == format
      ensures r.Success? ==>
                m_streamFormatter.stream.outgoing == old(m_streamFormatter.stream.outgoing) + SetPixelFormatBytes(format)
      ensures r.Failure? ==> r.error == Errno
    {
      m_pixelFormat := format;
      r := m_streamFormatter.Send(SetPixelFormatBytes(format));
    }

    method SendSetEncodings(encodings: seq<s32>) returns (r: Result<Unit>)
      requires m_streamFormatter.Valid()
      modifies m_streamFormatter.stream`outgoing
      ensures r.Success? ==>
                m_streamFormatter.stream.outgoing == old(m_streamFormatter.stream.outgoing) + SetEncodingsBytes(encodings)
      ensures r.Failure? ==> r.error == Errno
    {
      hide PutU16, EncodeList;
      var _ :- m_streamFormatter.Send([SET_ENCODINGS, 0] + PutU16(|encodings| % 0x1_0000));
      var list := ListOctets(encodings);
      r := m_streamFormatter.Send(list);
    }

    /** send of a vector: each element in network order. */
    static method ListOctets(encodings: seq<s32>) returns (list: bytes)
      ensures list == EncodeList(encodings)
    {
      list := [];
      for i := 0 to |encodings|
        invariant list + EncodeListFrom(encodings, i) == EncodeListFrom(encodings, 0)
      {
        list := list + PutU32(ToUnsigned(encodings[i]));
      }
      assert EncodeListFrom(encodings, |encodings|) == [];
      assert encodings[0..] == encodings;
    }

    method SendNonIncrementalFramebufferUpdateRequest() returns (r: Result<Unit>)
      requires m_streamFormatter.Valid()
      modifies m_streamFormatter.stream`outgoing
      ensures r.Success? ==>
                m_streamFormatter.stream.outgoing ==
                old(m_streamFormatter.stream.outgoing) + FullUpdateRequest(m_framebufferWidth, m_framebufferHeight)
      ensures r.Failure? ==> r.error == Errno
    {
      r := m_streamFormatter.Send(FullUpdateRequest(m_framebufferWidth, m_framebufferHeight));
    }

    method SetFramebufferSize(width: u16, height: u16)
      modifies this`m_framebufferWidth, this`m_framebufferHeight
      ensures m_framebufferWidth == width && m_framebufferHeight == height
    {
      m_framebufferWidth, m_framebufferHeight := width, height;
    }

    method SetDesktopName(desktopName: bytes)
      modifies m_xvnc`m_desktopName, m_xvnc`m_approvedControllerKeys, m_xvnc.m_xvncManager`m_sessionListVersion
      ensures m_xvnc.Desktop() == D.SetName(old(m_xvnc.Desktop()), desktopName)
      ensures old(m_xvnc.Desktop().Valid()) && |desktopName| < 0x1_0000_0000 ==> m_xvnc.Desktop().Valid()
    {
      m_xvnc.SetDesktopName(desktopName);
    }
  }

  ghost function EncodeListFrom(l: seq<s32>, i: nat): bytes
    requires i <= |l|
  {
    EncodeList(l[i..])
  }
}
