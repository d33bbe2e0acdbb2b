/** Switch attempts that come to nothing (VncTunnel.cpp:93-116, 730-750): when their
    servers refuse, the client is shown what it would have been shown without them
    and stays connected; when a handshake is cut short it is disconnected. */
module FailedAttempts {
  import opened Bytes
  import opened ClientMessages
  import opened ClientRelay
  import opened ClientRelayProofs
  import opened Failures
  import opened FormatFraming
  import H = Handshake
  import HE = HandshakeEnds
  import I = Initialization
  import opened Intended
  import ML = MainLoop
  import R = Relay
  import opened Rfb
  import opened ServerMessages
  import SP = ServerRelayProofs
  import opened Standard
  import opened Switching
  import opened TunnelRun
  import Z = ZlibStreams

  /** What the client is sent meanwhile. */
  ghost function Shows(w: World, es: seq<Event>): seq<ServerMessage>
    requires RunTo(w, es).Some?
    decreases |es|
  {
    if es == [] then []
    else (if es[0].Reads? then [ForClient(w, w.unread[0].message)] else []) + Shows(Next(w, es[0]), es[1..])
  }

  function Without(es: seq<Event>): seq<Event> {
    if es == [] then []
    else (if es[0].Attempt? || es[0].Failed? then [] else [es[0]]) + Without(es[1..])
  }

  /** v is w but for an attempt and for Tight in the list offered to the server. */
  ghost predicate Alike(w: World, v: World) {
    && v == w.(t := v.t, heldBack := v.heldBack)
    && v.t == w.t.(potential := v.t.potential, settings := v.t.settings)
    && v.t.settings == w.t.settings.(serverEncodings := v.t.settings.serverEncodings, tightDisabled := v.t.settings.tightDisabled)
    && (w.t.settings.tightDisabled ==> v.t.settings.tightDisabled)
  }

  /** Whatever fits without holding Tight back fits with it. */
  lemma HeldBackFits(tightDisabled: bool, m: ClientMessage)
    requires Relayable(false, m) || Relayable(tightDisabled, m)
    ensures Relayable(true, m)
  {
  }

  /** What a message does to the settings, and to the rest of the world. */
  lemma SettingsAlike(w: World, v: World, m: ClientMessage)
    requires Alike(w, v) && MessageOk(m)
    ensures AfterMessage(v.t.settings, m) ==
            AfterMessage(w.t.settings, m).(serverEncodings := AfterMessage(v.t.settings, m).serverEncodings,
                                           tightDisabled := v.t.settings.tightDisabled)
    ensures AfterMessage(w.t.settings, m).tightDisabled == w.t.settings.tightDisabled
  {
    hide KnownOnes, Kept;
  }

  lemma TunnelAlike(w: World, v: World, s: Settings, s': Settings, formatChanged: bool)
    requires Alike(w, v) && s' == s.(serverEncodings := s'.serverEncodings, tightDisabled := v.t.settings.tightDisabled)
    requires s.tightDisabled == w.t.settings.tightDisabled
    ensures Alike(w.(t := AfterClient(w.t, s, formatChanged)), v.(t := AfterClient(v.t, s', formatChanged)))
  {
  }

  lemma Noted(w: World, v: World, t: Tunnel, t': Tunnel, l: seq<s32>, format: PixelFormat, sent: PixelFormat)
    requires Alike(w, v) && Alike(w.(t := t), v.(t := t'))
    ensures Alike(w.(t := t, requested := Some(l), heldBack := w.t.settings.tightDisabled),
                  v.(t := t', requested := Some(l), heldBack := v.t.settings.tightDisabled))
    ensures Alike(w.(t := t, clientFormat := format, told := w.told + [sent]),
                  v.(t := t', clientFormat := format, told := v.told + [sent]))
  {
  }

  lemma MayBeSent(w: World, v: World, m: ClientMessage)
    requires Alike(w, v) && Enabled(w, Client(m))
    ensures Enabled(v, Client(m))
  {
    hide ListFits, PixelFormat.Valid;
    HeldBackFits(w.t.settings.tightDisabled, m);
  }

  lemma MessageAlike(w: World, v: World, m: ClientMessage)
    requires Alike(w, v) && Enabled(w, Client(m))
    ensures Enabled(v, Client(m)) && Alike(Next(w, Client(m)), Next(v, Client(m)))
  {
    MayBeSent(w, v, m);
    SettingsAlike(w, v, m);
    var s, s' := AfterMessage(w.t.settings, m), AfterMessage(v.t.settings, m);
    TunnelAlike(w, v, s, s', m.SetPixelFormat?);
    var t, t' := AfterClient(w.t, s, m.SetPixelFormat?), AfterClient(v.t, s', m.SetPixelFormat?);
    hide Alike, Relayable, AfterMessage, AfterClient;
    match m
    case SetEncodings(_, l) => Noted(w, v, t, t', l, w.clientFormat, w.clientFormat);
    case SetPixelFormat(_, format) => Noted(w, v, t, t', [], format, format.Ntoh().Hton());
    case _ =>
  }

  /** Nothing that a rewriting depends on differs. */
  lemma ViewAlike(w: World, v: World)
    requires Alike(w, v)
    ensures w.t.Cfg() == v.t.Cfg() && w.t.Fields() == v.t.Fields() && w.t.nameQueued == v.t.nameQueued
    ensures w.unread == v.unread && w.t.settings.pf == v.t.settings.pf
    ensures w.unread != [] ==> Alike(w.(unread := w.unread[1..]), v.(unread := v.unread[1..]))
  {
  }

  lemma UpdateAlike(w: World, v: World, u: Update)
    requires Alike(w, v)
    ensures Alike(AfterReading(w, u), AfterReading(v, u))
  {
    hide ClientView, AfterAll, Z.ProcessAll;
  }

  lemma ReadAlike(w: World, v: World)
    requires Alike(w, v) && Enabled(w, Reads)
    ensures Enabled(v, Reads) && Alike(Next(w, Reads), Next(v, Reads))
    ensures ForClient(w, w.unread[0].message) == ForClient(v, v.unread[0].message)
  {
    hide Alike, AfterReading, ClientView, AllReadAlike, SP.Relayable, SP.ForClient, Tunnel.Cfg, Tunnel.Fields;
    ViewAlike(w, v);
    if w.unread[0].message.FramebufferUpdate? {
      UpdateAlike(w.(unread := w.unread[1..]), v.(unread := v.unread[1..]), w.unread[0].message.update);
    }
  }

  lemma ServerSideAlike(w: World, v: World, e: Event)
    requires Alike(w, v) && Enabled(w, e) && (e.Obeys? || e.Sends? || e.Raised? || e.Renamed?)
    ensures Enabled(v, e) && Alike(Next(w, e), Next(v, e))
  {
    hide ServerOk;
  }

  lemma EventAlike(w: World, v: World, e: Event)
    requires Alike(w, v) && Enabled(w, e) && !e.Attempt? && !e.Failed? && !e.Completed?
    ensures Enabled(v, e) && Alike(Next(w, e), Next(v, e))
  {
    hide Alike, Possible, Next;
    match e
    case Client(m) => MessageAlike(w, v, m);
    case Reads => ReadAlike(w, v);
    case _ => ServerSideAlike(w, v, e);
  }

  lemma AttemptAlike(w: World, v: World, e: Event)
    requires Alike(w, v) && Enabled(w, e) && Harmless(e)
    ensures Alike(Next(w, e), v)
  {
  }

  /** An attempt, or one that is refused. */
  predicate Harmless(e: Event) {
    e.Attempt? || (e.Failed? && e.error == ConnectionFailed)
  }

  ghost predicate AllRefused(es: seq<Event>) {
    forall e :: e in es && e.Failed? ==> e.error == ConnectionFailed
  }

  /** A handshake that fails otherwise is the last event, and the tunnel that never
      attempted it is still there. */
  lemma CutShort(w: World, v: World, e: Event, more: seq<Event>)
    requires Alike(w, v) && Enabled(w, e) && e.Failed? && e.error != ConnectionFailed
    requires RunTo(Next(w, e), more).Some?
    ensures more == [] && Next(w, e).ended && !v.ended && !Alike(Next(w, e), v)
  {
  }

  /** MAIN RESULT. Of events none of which completes a switch, leave out every attempt
      and every failure: the others may still happen, and the client is sent the
      same messages. The tunnel is left as it would have been, apart from Tight in
      the server's list, if and only if every failure was a refusal; otherwise it
      has disconnected the client of a tunnel that would have gone on. */
  lemma {:induction false} FailedAttemptsInvisible(w: World, v: World, es: seq<Event>)
    requires Alike(w, v) && RunTo(w, es).Some? && forall e :: e in es ==> !e.Completed?
    ensures RunTo(v, Without(es)).Some? && Shows(v, Without(es)) == Shows(w, es)
    ensures Alike(RunTo(w, es).value, RunTo(v, Without(es)).value) <==> AllRefused(es)
    ensures !AllRefused(es) ==> RunTo(w, es).value.ended && !RunTo(v, Without(es)).value.ended
    decreases |es|
  {
    hide Alike, Possible, Next, ForClient;
    if es != [] {
      var e, more := es[0], es[1..];
      assert es == [e] + more;
      assert AllRefused(es) <==> (e.Failed? ==> e.error == ConnectionFailed) && AllRefused(more);
      if Harmless(e) {
        AttemptAlike(w, v, e);
        FailedAttemptsInvisible(Next(w, e), v, more);
        assert Without(es) == Without(more);
      } else if e.Failed? {
        CutShort(w, v, e, more);
        assert Without(es) == [];
      } else {
        EventAlike(w, v, e);
        if e.Reads? {
          ReadAlike(w, v);
        }
        FailedAttemptsInvisible(Next(w, e), Next(v, e), more);
        assert Without(es) == [e] + Without(more) && Without(es)[1..] == Without(more);
      }
    }
  }

  /** Whatever the new server says, as long as the handshake fails on it: the failure
      ends the run exactly when the server stopped short of what the handshake reads. */
  lemma FailureDecided(w: World, said: bytes)
    requires !w.ended && w.t.potential && I.Attempt(R.Io(said, [])).Failure?
    ensures
      var e := Failed(I.Attempt(R.Io(said, [])).error);
      && Enabled(w, e)
      && Next(w, e) == if |said| < HE.AttemptLength(said) then w.(ended := true) else w.(t := SwitchFailed(w.t))
  {
    hide I.Attempt, HE.AttemptLength;
    HE.AttemptTakes(said, []);
    ML.AttemptSurvived(w.t, said, []);
  }

  /** Such a run: the greeter opens a session whose server closes after its version,
      and the client is disconnected. */
  lemma ClosedServerEndsRun(link: Link)
    requires LinkOk(link)
    ensures
      var es := [Attempt, Failed(I.Attempt(R.Io(H.VERSION, [])).error)];
      && I.Attempt(R.Io(H.VERSION, [])).Failure?
      && RunTo(Start(link, true), es).Some? && RunTo(Start(link, true), es).value.ended
  {
    var w := Start(link, true);
    ML.ClosedServerDisconnects(w.t);
    hide I.Attempt, H.VERSION;
    RunStep(Next(w, Attempt), Failed(Eof), []);
    RunStep(w, Attempt, [Failed(Eof)]);
    assert [Attempt, Failed(Eof)] == [Attempt] + [Failed(Eof)];
  }
}
