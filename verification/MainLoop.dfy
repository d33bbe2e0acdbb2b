/** The try block of VncTunnel::start (VncTunnel.cpp:86-118): which exceptions the
    tunnel survives. */
module MainLoop {
  import opened Bytes
  import C = ClientRelay
  import opened Failures
  import H = Handshake
  import HE = HandshakeEnds
  import I = Initialization
  import R = Relay
  import opened Rfb
  import opened Switching

  /** The connection that a ConnectionException names. */
  datatype Faulty = CurrentConnection | PotentialConnection | AnotherConnection

  /** What becomes of the tunnel: its loop goes on, or it disconnects the client. */
  datatype Verdict = GoesOn(t: Tunnel) | Disconnects

  /** The catch clauses. Only a ConnectionException can be survived, and only when the
      current connection is not at fault; an eof_exception breaks the loop, and
      everything else leaves it. */
  function Caught(t: Tunnel, e: Error, faulty: Faulty): Verdict {
    if !e.ConnectionFailed? then Disconnects
    else
      match faulty
      case CurrentConnection => Disconnects
      case PotentialConnection => GoesOn(SwitchFailed(t))
      case AnotherConnection => GoesOn(t)
  }

  /** The tunnel goes on exactly after a ConnectionException that names another than its
      current connection, and then has everything it had but the attempt at fault. */
  lemma CaughtExactly(t: Tunnel, e: Error, faulty: Faulty)
    ensures Caught(t, e, faulty).GoesOn? <==> e == ConnectionFailed && faulty != CurrentConnection
    ensures Caught(t, e, faulty).GoesOn? ==>
              var t' := Caught(t, e, faulty).t;
              && t'.settings == t.settings && t'.current == t.current && t'.greeter == t.greeter
              && t'.resetQueued == t.resetQueued && t'.nameQueued == t.nameQueued
              && t'.potential == (t.potential && faulty != PotentialConnection)
  {
  }

  /** After a failed attempt the tunnel goes on exactly when the server said all that
      the handshake reads, that is, when it was refused and not cut short. */
  lemma AttemptSurvived(t: Tunnel, said: bytes, out: bytes)
    requires I.Attempt(R.Io(said, out)).Failure?
    ensures Caught(t, I.Attempt(R.Io(said, out)).error, PotentialConnection) ==
            if |said| >= HE.AttemptLength(said) then GoesOn(SwitchFailed(t)) else Disconnects
  {
    hide I.Attempt, HE.AttemptLength;
    HE.AttemptTakes(said, out);
  }

  /** The same for an attempt that fails after the greeter's answer. */
  lemma ResumeSurvived(t: Tunnel, encrypt: (bytes, bytes) -> bytes, answer: I.Answer, said: bytes, out: bytes)
    requires I.Resume(encrypt, answer, R.Io(said, out)).Failure?
    ensures Caught(t, I.Resume(encrypt, answer, R.Io(said, out)).error, PotentialConnection) ==
            if |said| >= HE.ResumeLength(answer, said) then GoesOn(SwitchFailed(t)) else Disconnects
  {
    hide I.Resume, HE.ResumeLength;
    HE.ResumeTakes(encrypt, answer, said, out);
  }

  /** A server that closes in mid-handshake, or in the middle of the reason for its
      refusal, takes the client's connection with it. */
  lemma ClosedServerDisconnects(t: Tunnel)
    ensures I.Attempt(R.Io(H.VERSION, [])) == Failure(Eof) == I.Attempt(R.Io(H.VERSION + [0], []))
    ensures Caught(t, Eof, PotentialConnection).Disconnects?
  {
    HE.AttemptTakes(H.VERSION, []);
    HE.AttemptTakes(H.VERSION + [0], []);
    assert (H.VERSION + [0])[..12] == H.VERSION;
    hide I.Attempt;
  }

  /** Whatever a dispatch of the client's or the current server's messages throws
      ends the tunnel, whoever it is blamed on. */
  lemma DispatchNotSurvived(t: Tunnel, s: C.Settings, cfg: R.Config, nameQueued: bool, f: R.Fields, io: R.Io, faulty: Faulty)
    ensures C.RelayClient(s, io).Failure? ==> Caught(t, C.RelayClient(s, io).error, faulty).Disconnects?
    ensures R.RelayServer(cfg, nameQueued, f, io).Failure? ==> Caught(t, R.RelayServer(cfg, nameQueued, f, io).error, faulty).Disconnects?
  {
    hide R.RelayUpdate, R.RelayColourMap, C.RelaySetPixelFormat, C.RelaySetEncodings, R.Put;
    UpdateErrors(cfg, nameQueued, f, io);
    FormatErrors(s, io);
    ColourErrors(io);
  }

  lemma FormatErrors(s: C.Settings, io: R.Io)
    ensures C.RelaySetPixelFormat(s, io).Failure? ==> C.RelaySetPixelFormat(s, io).error in {Eof, InvalidPixelFormat}
    ensures C.RelaySetEncodings(s, io).Failure? ==> C.RelaySetEncodings(s, io).error == Eof
  {
    hide C.SetPixelFormatBytes, C.SetEncodingsBytes, C.Choose;
  }

  lemma ColourErrors(io: R.Io)
    ensures R.RelayColourMap(io) in {Eof, ColourMapUnsupported}
  {
  }

  lemma TightErrors(cfg: R.Config, p: R.Progress, hd: RectHeader, io: R.Io)
    ensures R.RelayTight(cfg, p, hd, io).Failure? ==> R.RelayTight(cfg, p, hd, io).error in {Eof, Undefined}
  {
    hide PutHeader, Times, R.Put;
  }

  lemma OtherErrors(cfg: R.Config, p: R.Progress, hd: RectHeader, io: R.Io)
    ensures R.RelayDesktopName(cfg, p, hd, io).Failure? ==> R.RelayDesktopName(cfg, p, hd, io).error in {Eof, NoDummyEncoding}
    ensures R.RelayExtendedDesktopSize(p, hd, io).Failure? ==> R.RelayExtendedDesktopSize(p, hd, io).error == Eof
    ensures R.RelayRre(cfg, p, hd, io).Failure? ==> R.RelayRre(cfg, p, hd, io).error == Eof
  {
    hide PutHeader, PutU16, R.Put, R.NameBytes, R.RreSize, GetU32;
  }

  lemma PassThruErrors(cfg: R.Config, p: R.Progress, hd: RectHeader, io: R.Io)
    requires hd.encoding in {RAW, COPY_RECT, CURSOR, X_CURSOR}
    ensures R.RelayPassThru(cfg, p, hd, io).Failure? ==> R.RelayPassThru(cfg, p, hd, io).error in {Eof, Undefined}
  {
    hide PutHeader, Times, R.Put;
  }

  lemma RectErrors(cfg: R.Config, p: R.Progress, io: R.Io)
    ensures R.RelayRect(cfg, p, io).Failure? ==> !R.RelayRect(cfg, p, io).error.ConnectionFailed?
  {
    hide PutHeader, GetHeader, R.Put, R.RelayTight, R.RelayDesktopName, R.RelayExtendedDesktopSize, R.RelayRre, R.RelayPassThru;
    if R.Take(io, RECT_HEADER_SIZE).Success? {
      var (b, io1) := R.Take(io, RECT_HEADER_SIZE).value;
      var hd := GetHeader(b);
      TightErrors(cfg, p, hd, io1);
      OtherErrors(cfg, p, hd, io1);
      if hd.encoding in {RAW, COPY_RECT, CURSOR, X_CURSOR} {
        PassThruErrors(cfg, p, hd, io1);
      }
    }
  }

  lemma {:induction false} RectsErrors(cfg: R.Config, p: R.Progress, n: nat, io: R.Io)
    ensures R.RelayRects(cfg, p, n, io).Failure? ==> !R.RelayRects(cfg, p, n, io).error.ConnectionFailed?
    decreases n
  {
    hide R.RelayRect;
    if n > 0 && !p.lastRectReceived {
      RectErrors(cfg, p, io);
      match R.RelayRect(cfg, p, io)
      case Success((p1, io1)) => RectsErrors(cfg, p1, n - 1, io1);
      case Failure(_) =>
    }
  }

  lemma UpdateErrors(cfg: R.Config, nameQueued: bool, f: R.Fields, io: R.Io)
    ensures R.RelayUpdate(cfg, nameQueued, f, io).Failure? ==> !R.RelayUpdate(cfg, nameQueued, f, io).error.ConnectionFailed?
  {
    hide R.RelayRects, R.SendExtra, PutU16, GetU16;
    if R.Take(io, 4).Success? {
      var (b, io1) := R.Take(io, 4).value;
      var count := GetU16(b[2..]);
      var io2 := R.Put(io1, [b[0], b[1]] + PutU16(R.Announced(count, nameQueued)));
      RectsErrors(cfg, R.Progress(f, R.Saturates(count, nameQueued), false), count, R.SendExtra(nameQueued, f.desktop, io2));
    }
  }
}
