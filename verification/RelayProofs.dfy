/** What processFramebufferUpdate preserves: the client's decoder reads from the
    tunnel's output exactly the intended update, and both streams end where the
    update ends. */
module RelayProofs {
  import opened Bytes
  import opened Desktop
  import opened Failures
  import opened FramingProofs
  import opened Intended
  import opened Relay
  import opened Rfb
  import opened Standard
  import opened StandardCodec

  // ---------------------------------------------------------------- one rectangle

  /** How one rectangle moves the loop of processFramebufferUpdate on. */
  function Advance(cfg: Config, p: Progress, r: Rect): Progress {
    Progress(After(p.fields, r), p.mustUseLastRect || Drops(cfg, r), p.lastRectReceived || r.body.LastRect?)
  }

  /** The octets sent for one rectangle. */
  function Sent(cfg: Config, p: Progress, r: Rect): bytes {
    EncodeRects(Image(cfg, p.fields, r))
  }

  lemma PassThruForwarded(cfg: Config, p: Progress, r: Rect, rest: bytes, out: bytes)
    requires cfg.pf.Valid() && RectOk(cfg.pf, r) && Framed(cfg.pf, r)
    requires r.body.Raw? || r.body.CopyRect? || r.body.Cursor? || r.body.XCursor?
    ensures RelayBody(cfg, p, r.Header(), Io(EncodeBody(r.body) + rest, out))
            == Success((p, Io(rest, out + EncodeRect(r))))
  {
    hide RelayRre, RelayTight, RelayDesktopName, RelayExtendedDesktopSize, RawSize, CursorSize, XCursorSize, PutHeader;
    var header := PutHeader(r.Header());
    match r.body {
      case Raw(_) => RawSizeExact(cfg.pf, r.w, r.h);
      case Cursor(_, _) => CursorSizeExact(cfg.pf, r.w, r.h);
      case XCursor(_, _, _) => XCursorSizeExact(cfg.pf, r);
      case _ =>
    }
    assert PassThruSize(cfg, r.Header()) == Success(|EncodeBody(r.body)|);
    TakeAppend(EncodeBody(r.body), rest, out + header);
    assert out + header + EncodeBody(r.body) == out + EncodeRect(r);
  }

  lemma RreForwarded(cfg: Config, p: Progress, r: Rect, rest: bytes, out: bytes)
    requires RectOk(cfg.pf, r) && Framed(cfg.pf, r) && r.body.Rre?
    ensures RelayRre(cfg, p, r.Header(), Io(EncodeBody(r.body) + rest, out))
            == Success((p, Io(rest, out + EncodeRect(r))))
  {
    hide PutHeader, PutU32, GetU32;
    var header, count := PutHeader(r.Header()), PutU32(r.body.count);
    var data := r.body.background + r.body.subrectangles;
    RreSizeExact(cfg.pf, r);
    TakeSecond(count, data, rest, out + header);
    assert out + header + (count + data) == out + EncodeRect(r);
  }

  lemma LayoutForwarded(cfg: Config, p: Progress, r: Rect, rest: bytes, out: bytes)
    requires RectOk(cfg.pf, r) && r.body.ExtendedDesktopSize?
    ensures RelayExtendedDesktopSize(p, r.Header(), Io(EncodeBody(r.body) + rest, out))
            == Success((p.(fields := After(p.fields, r)), Io(rest, out + EncodeRect(r))))
  {
    hide PutHeader, Copy, Forward, Take;
    var header, data := PutHeader(r.Header()), [r.body.screens] + r.body.padding;
    assert EncodeBody(r.body) == data + r.body.layout by {
      Regroup([r.body.screens], r.body.padding, r.body.layout);
    }
    assert data[0] == r.body.screens && |r.body.layout| == 16 * r.body.screens;
    TakeSecond(data, r.body.layout, rest, out + header);
    Regroup(out, header, data + r.body.layout);
  }

  lemma TightForwarded(cfg: Config, p: Progress, r: Rect, rest: bytes, out: bytes)
    requires cfg.pf.Valid() && RectOk(cfg.pf, r) && Framed(cfg.pf, r) && r.body.Tight?
    ensures RelayTight(cfg, p, r.Header(), Io(EncodeBody(r.body) + rest, out))
            == Success((p.(fields := After(p.fields, r)), Io(rest, out + EncodeRect(Image(cfg, p.fields, r)[0]))))
  {
    hide PutHeader, RelayTightImage, ImageOk, TightFramed, ImageRest, ImageBytes;
    var header, image := PutHeader(r.Header()), r.body.image;
    ImageRestBound(image);
    var control: byte := ImageRest(image) * 0x10 + r.body.resets;
    ControlByte(r.body, control);
    var sent := if p.fields.resetQueued then WithAllResets(control) else control;
    var seen := Image(cfg, p.fields, r)[0];
    assert ControlResets(control) == r.body.resets && ControlRest(control) == ImageRest(image);
    ControlByte(seen.body, sent);
    assert EncodeBody(r.body) + rest == [control] + (ImageBytes(image) + rest);
    TakeAppend([control], ImageBytes(image) + rest, out + header);
    TightImageForwarded(cfg.pf, r.w, r.h, sent, image, rest, out + header + [sent]);
    assert out + header + [sent] + ImageBytes(image) == out + EncodeRect(seen);
  }

  lemma NameEncoded(r: Rect)
    requires r.body.DesktopName? && |r.body.name| < 0x1_0000_0000
    ensures EncodeRect(r) == PutHeader(r.Header()) + NameBytes(r.body.name)
  {
    hide PutHeader, PutU32;
  }

  lemma DummyEncoded(cfg: Config)
    ensures EncodeRect(Dummy(cfg)) == PutHeader(Dummy(cfg).Header()) + EncodeBody(Dummy(cfg).body)
  {
  }

  lemma NothingSent(out: bytes)
    ensures out + EncodeRects([]) == out
  {
  }

  lemma NameForwarded(cfg: Config, p: Progress, r: Rect, rest: bytes, out: bytes)
    requires r.body.DesktopName? && RectOk(cfg.pf, r) && p.fields.desktop.Valid()
    ensures RelayDesktopName(cfg, p, r.Header(), Io(EncodeBody(r.body) + rest, out)) ==
            if Substitutable(cfg, r)
            then Success((Advance(cfg, p, r), Io(rest, out + Sent(cfg, p, r))))
            else Failure(NoDummyEncoding)
  {
    hide PutHeader, PutU32, GetU32, Take, Copy, PutU16, EncodeRect, EncodeRects, NameBytes;
    var name := r.body.name;
    var length := PutU32(|name|);
    TakeSecond(length, name, rest, out);
    TakeAppend(name, rest, out);
    var header, mine := PutHeader(r.Header()), After(p.fields, r).desktop.name;
    if DESKTOP_NAME in cfg.encodings {
      EncodeOne(r.(body := DesktopName(mine)));
      NameEncoded(r.(body := DesktopName(mine)));
      Regroup(out, header, NameBytes(mine));
    } else if LAST_RECT in cfg.encodings {
      NothingSent(out);
    } else {
      EncodeOne(Dummy(cfg));
      DummyEncoded(cfg);
      PutTwo(Io(rest, out), PutHeader(Dummy(cfg).Header()), EncodeBody(Dummy(cfg).body));
      assert Substitutable(cfg, r) <==> RAW in cfg.encodings || COPY_RECT in cfg.encodings;
    }
  }

  /** One rectangle: the input is consumed up to its end, and the client gets the
      octets of its intended image. It fails exactly when a name can be neither
      sent, dropped nor replaced. */
  lemma RectForwarded(cfg: Config, p: Progress, r: Rect, rest: bytes, out: bytes)
    requires cfg.pf.Valid() && RectOk(cfg.pf, r) && Framed(cfg.pf, r)
    requires p.fields.desktop.Valid()
    ensures RelayRect(cfg, p, Io(EncodeRect(r) + rest, out)) ==
            if Substitutable(cfg, r)
            then Success((Advance(cfg, p, r), Io(rest, out + Sent(cfg, p, r))))
            else Failure(NoDummyEncoding)
  {
    hide PutHeader, GetHeader, RelayRre, RelayTight, RelayDesktopName, RelayExtendedDesktopSize, PassThruSize, EncodeBody, Framed, BodyOk;
    var header, body := PutHeader(r.Header()), EncodeBody(r.body);
    assert EncodeRect(r) + rest == header + (body + rest);
    TakeAppend(header, body + rest, out);
    HeaderReadsBack(r.Header());
    assert !r.body.DesktopName? && !r.body.Tight? ==> Sent(cfg, p, r) == EncodeRect(r) by {
      EncodeOne(r);
    }
    match r.body {
      case Rre(_, _, _) => RreForwarded(cfg, p, r, rest, out);
      case DesktopName(_) => NameForwarded(cfg, p, r, rest, out);
      case ExtendedDesktopSize(_, _, _) => LayoutForwarded(cfg, p, r, rest, out);
      case Tight(_, _) =>
        TightForwarded(cfg, p, r, rest, out);
        EncodeOne(Image(cfg, p.fields, r)[0]);
      case DesktopSize => HeaderOnlyForwarded(r, rest, out);
      case LastRect => HeaderOnlyForwarded(r, rest, out);
      case _ => PassThruForwarded(cfg, p, r, rest, out);
    }
  }

  lemma HeaderOnlyForwarded(r: Rect, rest: bytes, out: bytes)
    requires r.body.DesktopSize? || r.body.LastRect?
    ensures Put(Io(EncodeBody(r.body) + rest, out), PutHeader(r.Header())) == Io(rest, out + EncodeRect(r))
  {
  }

  lemma ImageRestBound(i: TightImage)
    ensures ImageRest(i) <= 9
  {
  }

  // ---------------------------------------------------------------- the loop

  /** The state after the whole list. */
  function AdvanceAll(cfg: Config, p: Progress, rs: seq<Rect>): Progress
    decreases |rs|
  {
    if rs == [] then p else AdvanceAll(cfg, Advance(cfg, p, rs[0]), rs[1..])
  }

  lemma {:induction false} AdvanceAllMeans(cfg: Config, p: Progress, rs: seq<Rect>)
    requires LastRectLast(rs)
    ensures AdvanceAll(cfg, p, rs) ==
            Progress(AfterAll(p.fields, rs), p.mustUseLastRect || DropsSome(cfg, rs), p.lastRectReceived || EndsInLastRect(rs))
    decreases |rs|
  {
    if rs != [] {
      AdvanceAllMeans(cfg, Advance(cfg, p, rs[0]), rs[1..]);
      assert DropsSome(cfg, rs) <==> Drops(cfg, rs[0]) || DropsSome(cfg, rs[1..]) by {
        assert forall r :: r in rs <==> r == rs[0] || r in rs[1..];
      }
    }
  }

  lemma AdvanceKeepsDesktop(f: Fields, pf: PixelFormat, r: Rect)
    requires f.desktop.Valid() && RectOk(pf, r)
    ensures After(f, r).desktop.Valid()
  {
  }

  lemma FirstAndRest(cfg: Config, rs: seq<Rect>)
    requires rs != [] && RectsOk(cfg.pf, rs) && AllFramed(cfg.pf, rs) && LastRectLast(rs)
    ensures RectOk(cfg.pf, rs[0]) && Framed(cfg.pf, rs[0])
    ensures RectsOk(cfg.pf, rs[1..]) && AllFramed(cfg.pf, rs[1..]) && LastRectLast(rs[1..])
    ensures AllSubstitutable(cfg, rs) <==> Substitutable(cfg, rs[0]) && AllSubstitutable(cfg, rs[1..])
    ensures if rs[0].body.LastRect? then rs[1..] == [] else EndsInLastRect(rs[1..]) == EndsInLastRect(rs)
  {
  }

  lemma {:induction false} RectsForwarded(cfg: Config, p: Progress, n: nat, rs: seq<Rect>, rest: bytes, out: bytes)
    requires cfg.pf.Valid() && RectsOk(cfg.pf, rs) && AllFramed(cfg.pf, rs) && LastRectLast(rs)
    requires |rs| == n || (|rs| <= n && EndsInLastRect(rs))
    requires p.fields.desktop.Valid() && !p.lastRectReceived
    ensures RelayRects(cfg, p, n, Io(EncodeRects(rs) + rest, out)) ==
            if AllSubstitutable(cfg, rs)
            then Success((AdvanceAll(cfg, p, rs), Io(rest, out + EncodeRects(Images(cfg, p.fields, rs)))))
            else Failure(NoDummyEncoding)
    decreases |rs|
  {
    hide RelayRect, EncodeRect, RectOk, RectsOk, Framed, AllFramed, Substitutable, LastRectLast, Image, After, Drops;
    if rs == [] {
      assert EncodeRects(rs) + rest == rest && out + EncodeRects(Images(cfg, p.fields, rs)) == out;
    } else {
      var r, rs1 := rs[0], rs[1..];
      var more := EncodeRects(rs1) + rest;
      FirstAndRest(cfg, rs);
      Regroup(EncodeRect(r), EncodeRects(rs1), rest);
      RectForwarded(cfg, p, r, more, out);
      if Substitutable(cfg, r) {
        var p1, out1 := Advance(cfg, p, r), out + Sent(cfg, p, r);
        AdvanceKeepsDesktop(p.fields, cfg.pf, r);
        EncodeRectsAppend(Image(cfg, p.fields, r), Images(cfg, p1.fields, rs1));
        assert out1 + EncodeRects(Images(cfg, p1.fields, rs1)) == out + EncodeRects(Images(cfg, p.fields, rs));
        if r.body.LastRect? {
          assert more == rest;
          assert out1 == out + EncodeRects(Images(cfg, p.fields, rs));
          assert RelayRects(cfg, p1, n - 1, Io(rest, out1)) == Success((p1, Io(rest, out1)));
        } else {
          RectsForwarded(cfg, p1, n - 1, rs1, rest, out1);
        }
      }
    }
  }
}
