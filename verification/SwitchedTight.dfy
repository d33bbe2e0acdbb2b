/** Tight over whole runs (VncTunnel.cpp:361-364, 585-596, 730-737, 773): it is kept from
    the server exactly until the greeter first asks for a session, and the zlib streams
    are due for a reset exactly from a switch to the first Tight rectangle behind it. */
module SwitchedTight {
  import opened Bytes
  import opened ClientRelay
  import opened ClientRelayProofs
  import opened Failures
  import opened Intended
  import R = Relay
  import opened Rfb
  import opened ServerMessages
  import opened Standard
  import opened Switching
  import opened TunnelRun
  import Z = ZlibStreams

  // ---------------------------------------------------------------- Tight held back

  ghost predicate AttemptBefore(es: seq<Event>, k: nat)
    requires k <= |es|
  {
    exists j :: 0 <= j < k && es[j].Attempt?
  }

  lemma HoldingStep(w: World, e: Event)
    requires Enabled(w, e)
    ensures Next(w, e).t.settings.tightDisabled <==> w.t.settings.tightDisabled && !e.Attempt?
  {
    hide AfterMessage, AfterAll, ClientView, Z.ProcessAll, ServerOk, Accepted, Fits, PixelFormat.Same;
    if e.Client? {
      StillHeldBack(w.t.settings, e.message);
    }
  }

  /** Tight is held back exactly in tunnels that started with a greeter, until the first
      attempt of a switch. */
  lemma {:induction false} HeldBackExactly(ws: seq<World>, es: seq<Event>, link: Link, greeter: bool, k: nat)
    requires IsRunFrom(ws, es, link, greeter) && k <= |es|
    ensures ws[k].t.settings.tightDisabled <==> greeter && !AttemptBefore(es, k)
  {
    hide Enabled, Next, LinkOk;
    if k > 0 {
      HeldBackExactly(ws, es, link, greeter, k - 1);
      assert Enabled(ws[k - 1], es[k - 1]) && ws[k] == Next(ws[k - 1], es[k - 1]);
      HoldingStep(ws[k - 1], es[k - 1]);
      assert AttemptBefore(es, k) <==> AttemptBefore(es, k - 1) || es[k - 1].Attempt?;
    }
  }

  /** So the list a server is given has Tight in it exactly when the client asked for it
      and the tunnel had no greeter or was asked for a session before. */
  lemma TightOffered(ws: seq<World>, es: seq<Event>, link: Link, greeter: bool, k: nat)
    requires IsRunFrom(ws, es, link, greeter) && k <= |es| && ws[k].requested.Some?
    ensures 7 in ws[k].t.settings.serverEncodings <==>
            7 in ws[k].requested.value && (!greeter || AttemptBefore(es, k))
  {
    HeldBackExactly(ws, es, link, greeter, k);
    ListsAgree(ws, es, link, greeter, k);
    hide IsRunFrom, AttemptBefore, OfferedFor;
    var s := ws[k].t.settings;
    var offered := set e | e in s.serverEncodings;
    assert TIGHT in s.serverEncodings <==> TIGHT in offered;
    assert TIGHT in s.clientEncodings <==> TIGHT in ws[k].requested.value;
  }

  // ---------------------------------------------------------------- the reset

  predicate HasTight(rs: seq<Rect>) {
    exists r :: r in rs && r.body.Tight?
  }

  /** The event hands the client an update with a Tight rectangle in it. */
  predicate ReadsTight(w: World, e: Event) {
    ReadsUpdate(w, e) && HasTight(w.unread[0].message.update.rects)
  }

  lemma {:induction false} TightClears(f: R.Fields, rs: seq<Rect>)
    ensures AfterAll(f, rs).resetQueued <==> f.resetQueued && !HasTight(rs)
    decreases |rs|
  {
    if rs != [] {
      TightClears(After(f, rs[0]), rs[1..]);
      assert HasTight(rs) <==> rs[0].body.Tight? || HasTight(rs[1..]) by {
        assert forall r :: r in rs <==> r == rs[0] || r in rs[1..];
      }
    }
  }

  lemma ResetStep(w: World, e: Event)
    requires Enabled(w, e)
    ensures Next(w, e).t.resetQueued <==> e.Completed? || (w.t.resetQueued && !ReadsTight(w, e))
  {
    hide AfterMessage, AfterAll, ClientView, Z.ProcessAll, ServerOk, Relayable, Accepted, Fits, PixelFormat.Same, HasTight;
    if ReadsUpdate(w, e) {
      TightClears(w.t.Fields(), w.unread[0].message.update.rects);
    }
  }

  /** A switch has completed, and no Tight rectangle has been handed over since. */
  ghost predicate ResetDue(ws: seq<World>, es: seq<Event>, k: nat)
    requires k <= |es| < |ws|
  {
    exists j :: 0 <= j < k && es[j].Completed? && forall n :: j < n < k ==> !ReadsTight(ws[n], es[n])
  }

  /** MAIN RESULT. In every world of every run a reset is queued exactly when it is due. */
  lemma {:induction false} ResetsExactly(ws: seq<World>, es: seq<Event>, link: Link, greeter: bool, k: nat)
    requires IsRunFrom(ws, es, link, greeter) && k <= |es|
    ensures ws[k].t.resetQueued <==> ResetDue(ws, es, k)
  {
    hide Enabled, Next, LinkOk, ReadsTight;
    if k > 0 {
      ResetsExactly(ws, es, link, greeter, k - 1);
      assert Enabled(ws[k - 1], es[k - 1]) && ws[k] == Next(ws[k - 1], es[k - 1]);
      ResetStep(ws[k - 1], es[k - 1]);
      if es[k - 1].Completed? {
        assert ResetDue(ws, es, k);
      } else if ResetDue(ws, es, k - 1) && !ReadsTight(ws[k - 1], es[k - 1]) {
        var j :| 0 <= j < k - 1 && es[j].Completed? && forall n :: j < n < k - 1 ==> !ReadsTight(ws[n], es[n]);
        assert forall n :: j < n < k ==> !ReadsTight(ws[n], es[n]);
      }
    }
  }

  /** The first Tight rectangle behind a switch is shown with all four resets, and every
      other one with its own. */
  lemma {:induction false} FirstTightResets(cfg: R.Config, f: R.Fields, rs: seq<Rect>, k: nat)
    requires k < |rs| && rs[k].body.Tight?
    ensures Image(cfg, AfterAll(f, rs[..k]), rs[k]) ==
            [rs[k].(body := rs[k].body.(resets := if f.resetQueued && !HasTight(rs[..k]) then 15 else rs[k].body.resets))]
  {
    TightClears(f, rs[..k]);
  }
}
