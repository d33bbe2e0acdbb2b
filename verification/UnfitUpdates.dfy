/** Updates that the tunnel accepts but sends with more records than announced
    (VncTunnel.cpp:453-459): what the client reads of them, and what that does to
    its zlib streams. */
module UnfitUpdates {
  import opened Bytes
  import opened ClientMessages
  import opened ClientRelay
  import opened Failures
  import opened FormatFraming
  import opened Intended
  import R = Relay
  import opened Rfb
  import opened ServerMessages
  import opened Standard
  import opened Switching
  import opened TunnelRun
  import opened UpdateProofs
  import Z = ZlibStreams

  /** The records of the update that the client reads, and those it leaves. */
  function Found(w: World, u: Update): seq<Rect> {
    var announced := R.Announced(u.count, w.t.nameQueued);
    if |Shown(w, u)| <= announced then Shown(w, u) else Shown(w, u)[..announced]
  }

  function LeftOver(w: World, u: Update): seq<Rect> {
    Shown(w, u)[|Found(w, u)|..]
  }

  /** Whatever update the tunnel accepts: a standard reader finds the announced
      records and leaves the rest on the stream. Its zlib streams end up in step
      with the server's exactly when nothing is left, or what is left would not
      have changed them, or no Tight rectangle has been sent since the switch. */
  lemma WhatIsFound(w: World, d: Drawn, tail: bytes)
    requires Inv(w) && d in w.unread && d.message.FramebufferUpdate? && Accepted(w, d)
    ensures
      var u, next := d.message.update, AfterReading(w, d.message.update);
      var client := Z.ProcessAll(w.clientZlib, Found(w, u));
      && DecodeUpdate(w.t.settings.pf, EncodeUpdate(ForClient(w, d.message).update) + tail) ==
         Some((ForClient(w, d.message).update.(rects := Found(w, u)), EncodeRects(LeftOver(w, u)) + tail))
      && (LeftOver(w, u) == [] <==> Fits(w, d.message))
      && (Z.InStep(next.t.resetQueued, next.serverZlib, client) <==>
            next.t.resetQueued || Z.ProcessAll(client, LeftOver(w, u)) == client)
  {
    hide DecodeUpdate, EncodeUpdate, ClientView, RectsOk, LastRectLast, EndsInLastRect, AfterAll, Z.ProcessAll;
    var u := d.message.update;
    UnreadKept(w, d);
    AcceptedOk(w, d);
    ViewShape(w.t.Cfg(), w.t.nameQueued, w.t.Fields(), u);
    ReadsBack(w.t.settings.pf, ForClient(w, d.message).update, tail);
    assert EncodeRects([]) + tail == tail;
    assert Shown(w, u) == Found(w, u) + LeftOver(w, u);
    Z.ProcessAppend(w.clientZlib, Found(w, u), LeftOver(w, u));
    Z.ViewInStep(w.t.Cfg(), w.t.nameQueued, w.t.Fields(), u, w.serverZlib, w.clientZlib);
  }

  // ---------------------------------------------------------------- a run that gets out of step

  function SizeChange(): Rect {
    Rect(0, 0, 0, 0, DesktopSize)
  }

  function SizeChanges(n: nat): (rs: seq<Rect>)
    ensures |rs| == n
    ensures forall r :: r in rs ==> r == SizeChange()
  {
    if n == 0 then [] else [SizeChange()] + SizeChanges(n - 1)
  }

  /** Sixteen pixels in one octet of compressed data on stream 0. */
  function Deflate(resets: byte): Rect {
    Rect(0, 0, 4, 4, Tight(resets, Basic(0, Implicit, Deflated(Chunk([1], [7])))))
  }

  /** An update of 65535 rectangles, the last of which uses a zlib stream. */
  function DeflateLast(): Update {
    Update(0, U16_MAX, SizeChanges(U16_MAX - 1) + [Deflate(0)])
  }

  lemma DeflateLastOk(cfg: R.Config)
    requires cfg.pf.Valid()
    ensures UpdateOk(cfg.pf, DeflateLast()) && AllFramed(cfg.pf, DeflateLast().rects)
    ensures AllSubstitutable(cfg, DeflateLast().rects) && !EndsInLastRect(DeflateLast().rects)
    ensures AllReadAlike(cfg.pf, cfg.pf, DeflateLast().rects)
  {
    assert RectOk(cfg.pf, SizeChange()) && RectOk(cfg.pf, Deflate(0));
    assert Framed(cfg.pf, SizeChange()) && Framed(cfg.pf, Deflate(0));
    var rs := DeflateLast().rects;
    assert forall k :: 0 <= k < |rs| - 1 ==> rs[k] in SizeChanges(U16_MAX - 1);
  }

  lemma {:induction false} ChangesShown(cfg: R.Config, f: R.Fields, n: nat, last: Rect)
    requires last.body.Tight?
    ensures Images(cfg, f, SizeChanges(n) + [last]) ==
            SizeChanges(n) + [last.(body := Tight(if f.resetQueued then 0xF else last.body.resets, last.body.image))]
    ensures !AfterAll(f, SizeChanges(n) + [last]).resetQueued
    decreases n
  {
    var rs := SizeChanges(n) + [last];
    if n == 0 {
      assert rs == [last] && rs[1..] == [];
    } else {
      assert rs[1..] == SizeChanges(n - 1) + [last];
      ChangesShown(cfg, After(f, SizeChange()), n - 1, last);
    }
  }

  lemma {:induction false} ChangesLeave(h: Z.Histories, n: nat)
    ensures Z.ProcessAll(h, SizeChanges(n)) == h
  {
    if n > 0 {
      ChangesLeave(h, n - 1);
    }
  }

  /** The client asks for DesktopName, LastRect and Tight; the greeter switches to a
      session whose server sends such an update first. */
  function OutOfStepEvents(link: Link): seq<Event> {
    [Client(SetEncodings(0, [DESKTOP_NAME, LAST_RECT, TIGHT])), Attempt, Completed(link), Sends(FramebufferUpdate(DeflateLast()))]
  }

  /** After these events. */
  ghost function SwitchedWorld(link: Link): World {
    var asked := Settings(link.pf, {DESKTOP_NAME, LAST_RECT, TIGHT}, [TIGHT, DESKTOP_NAME, LAST_RECT], false);
    World(Tunnel(asked, link, false, false, true, true), Some([DESKTOP_NAME, LAST_RECT, TIGHT]), true, link.pf, link.pf, [],
      [Drawn(link.pf, FramebufferUpdate(DeflateLast()))], Z.FRESH, Z.FRESH, 1, 0, false)
  }

  lemma KeptOfThree()
    ensures Kept(true, [DESKTOP_NAME, LAST_RECT, TIGHT]) == [DESKTOP_NAME, LAST_RECT]
  {
    assert [DESKTOP_NAME][..0] == [];
    assert Kept(true, [DESKTOP_NAME]) == [DESKTOP_NAME];
    assert [DESKTOP_NAME, LAST_RECT][..1] == [DESKTOP_NAME];
    assert Kept(true, [DESKTOP_NAME, LAST_RECT]) == [DESKTOP_NAME, LAST_RECT];
    assert [DESKTOP_NAME, LAST_RECT, TIGHT][..2] == [DESKTOP_NAME, LAST_RECT];
  }

  lemma GetsThere(link: Link)
    requires LinkOk(link)
    ensures RunTo(Start(link, true), OutOfStepEvents(link)) == Some(SwitchedWorld(link))
  {
    hide DeflateLast, UpdateOk, PixelFormat.Valid;
    var l := [DESKTOP_NAME, LAST_RECT, TIGHT];
    var es := OutOfStepEvents(link);
    var w0 := Start(link, true);
    KeptOfThree();
    assert KnownOnes(l) == {DESKTOP_NAME, LAST_RECT, TIGHT};
    assert Enabled(w0, es[0]);
    var w1 := Next(w0, es[0]);
    assert w1.t.settings == Settings(link.pf, {DESKTOP_NAME, LAST_RECT, TIGHT}, [DESKTOP_NAME, LAST_RECT], true);
    var w2 := Next(w1, es[1]);
    assert w2.t.settings == Settings(link.pf, {DESKTOP_NAME, LAST_RECT, TIGHT}, [TIGHT, DESKTOP_NAME, LAST_RECT], false);
    var w3 := Next(w2, es[2]);
    DeflateLastOk(R.Config({}, link.pf));
    assert Enabled(w3, es[3]);
    var w4 := Next(w3, es[3]);
    assert w4 == SwitchedWorld(link);
    RunStep(w3, es[3], []);
    RunStep(w2, es[2], [es[3]]);
    RunStep(w1, es[1], [es[2], es[3]]);
    RunStep(w0, es[0], [es[1], es[2], es[3]]);
    assert es == [es[0]] + [es[1], es[2], es[3]];
  }

  /** The update is accepted, a standard reader finds everything but its Tight
      rectangle, and from then on its zlib streams are still fresh while the
      server's are not. */
  lemma GetsOutOfStep(link: Link, tail: bytes)
    requires LinkOk(link)
    ensures RunTo(Start(link, true), OutOfStepEvents(link)) == Some(SwitchedWorld(link))
    ensures
      var w, u := SwitchedWorld(link), DeflateLast();
      var m := ForClient(w, FramebufferUpdate(u));
      && Accepted(w, w.unread[0]) && !Fits(w, w.unread[0].message)
      && DecodeUpdate(link.pf, EncodeUpdate(m.update) + tail) ==
         Some((m.update.(rects := Found(w, u)), EncodeRects(LeftOver(w, u)) + tail))
      && Z.ProcessAll(w.clientZlib, Found(w, u)) == Z.FRESH
      && !Z.InStep(AfterReading(w, u).t.resetQueued, AfterReading(w, u).serverZlib, Z.ProcessAll(w.clientZlib, Found(w, u)))
  {
    hide DeflateLast, Found, LeftOver, Fits, Accepted, AfterReading, DecodeUpdate, EncodeUpdate, OutOfStepEvents, Inv;
    GetsThere(link);
    StartInv(link, true);
    RunToKeeps(Start(link, true), OutOfStepEvents(link));
    ServerUsesStream(link);
    DeflateLastAccepted(link);
    ClientFindsNone(link);
    WhatIsFound(SwitchedWorld(link), SwitchedWorld(link).unread[0], tail);
  }

  lemma ServerUsesStream(link: Link)
    requires LinkOk(link)
    ensures AfterReading(SwitchedWorld(link), DeflateLast()).serverZlib == [[[7]], [], [], []]
    ensures !AfterReading(SwitchedWorld(link), DeflateLast()).t.resetQueued
  {
    var w := SwitchedWorld(link);
    ChangesShown(w.t.Cfg(), w.t.Fields(), U16_MAX - 1, Deflate(0));
    ChangesLeave(Z.FRESH, U16_MAX - 1);
    hide SizeChanges, Images, AfterAll;
    Z.ProcessAppend(Z.FRESH, SizeChanges(U16_MAX - 1), [Deflate(0)]);
    Z.ProcessOne(Z.FRESH, Deflate(0));
    DeflateUses();
  }

  lemma DeflateUses()
    ensures Z.Process(Z.FRESH, Deflate(0)) == [[[7]], [], [], []]
  {
    Z.ResetFresh(0);
    assert [] + [[7]] == [[7]];
  }

  lemma DeflateLastAccepted(link: Link)
    requires LinkOk(link)
    ensures Accepted(SwitchedWorld(link), SwitchedWorld(link).unread[0])
  {
    hide DeflateLast, AllFramed, AllSubstitutable, AllReadAlike;
    DeflateLastOk(SwitchedWorld(link).t.Cfg());
  }

  lemma DeflateLastShown(link: Link)
    requires LinkOk(link)
    ensures Shown(SwitchedWorld(link), DeflateLast()) ==
            [NameRect(link.desktop.name)] + SizeChanges(U16_MAX - 1) + [Deflate(0xF)] + [LAST]
  {
    var w, u := SwitchedWorld(link), DeflateLast();
    ChangesShown(w.t.Cfg(), w.t.Fields(), U16_MAX - 1, Deflate(0));
    assert Images(w.t.Cfg(), w.t.Fields(), u.rects) == SizeChanges(U16_MAX - 1) + [Deflate(0xF)];
    LastIsOwed(w.t.Cfg());
    hide SizeChanges, Images, AfterAll, DeflateLast, Deflate, Ending, LinkOk;
  }

  lemma LastIsOwed(cfg: R.Config)
    requires LAST_RECT in cfg.encodings
    ensures Ending(cfg, true, DeflateLast()) == [LAST]
  {
    hide SizeChanges;
    assert DeflateLast().rects[U16_MAX - 1] == Deflate(0);
  }

  lemma ClientFindsNone(link: Link)
    requires LinkOk(link)
    ensures
      var w := SwitchedWorld(link);
      !Fits(w, w.unread[0].message) && Z.ProcessAll(Z.FRESH, Found(w, DeflateLast())) == Z.FRESH
  {
    DeflateLastShown(link);
    ChangesLeave(Z.FRESH, U16_MAX - 1);
    var w, name := SwitchedWorld(link), [NameRect(link.desktop.name)];
    hide SizeChanges, ClientView, Z.Process, Z.ProcessAll;
    assert Found(w, DeflateLast()) == name + SizeChanges(U16_MAX - 1);
    Z.ProcessAppend(Z.FRESH, name, SizeChanges(U16_MAX - 1));
    Z.ProcessOne(Z.FRESH, name[0]);
    NameLeaves(link.desktop.name);
  }

  lemma NameLeaves(name: bytes)
    ensures Z.Process(Z.FRESH, NameRect(name)) == Z.FRESH
  {
  }
}
