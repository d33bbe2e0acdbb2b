/** Meaning preservation for whole updates (VncTunnel.cpp:442-653). */
module UpdateProofs {
  import opened Bytes
  import opened Desktop
  import opened Failures
  import opened FramingProofs
  import opened Intended
  import opened Relay
  import opened RelayProofs
  import opened Rfb
  import opened Standard
  import opened StandardCodec

  // ---------------------------------------------------------------- shape of the client's view

  lemma ImageShape(cfg: Config, f: Fields, r: Rect)
    requires cfg.pf.Valid() && RectOk(cfg.pf, r) && f.desktop.Valid()
    ensures RectsOk(cfg.pf, Image(cfg, f, r))
    ensures |Image(cfg, f, r)| == if Drops(cfg, r) then 0 else 1
    ensures forall s :: s in Image(cfg, f, r) ==> (s.body.LastRect? <==> r.body.LastRect?)
    ensures After(f, r).desktop.Valid()
  {
  }

  /** As many images as rectangles unless some are dropped, LastRect staying last. */
  lemma {:induction false} ImagesShape(cfg: Config, f: Fields, rs: seq<Rect>)
    requires cfg.pf.Valid() && RectsOk(cfg.pf, rs) && LastRectLast(rs) && f.desktop.Valid()
    ensures RectsOk(cfg.pf, Images(cfg, f, rs)) && LastRectLast(Images(cfg, f, rs))
    ensures EndsInLastRect(Images(cfg, f, rs)) <==> EndsInLastRect(rs)
    ensures DropsSome(cfg, rs) ==> |Images(cfg, f, rs)| < |rs|
    ensures !DropsSome(cfg, rs) ==> |Images(cfg, f, rs)| == |rs|
    decreases |rs|
  {
    hide RectOk, Image, After, Drops;
    if rs != [] {
      var r, rs1 := rs[0], rs[1..];
      ImageShape(cfg, f, r);
      assert RectsOk(cfg.pf, rs1) && LastRectLast(rs1) by {
        assert forall k :: 0 <= k < |rs1| ==> rs1[k] == rs[k + 1];
      }
      ImagesShape(cfg, After(f, r), rs1);
      DropsSplit(cfg, rs);
      var first, more := Image(cfg, f, r), Images(cfg, After(f, r), rs1);
      if r.body.LastRect? {
        assert rs1 == [];
      } else {
        assert EndsInLastRect(rs) == EndsInLastRect(rs1);
      }
      assert Images(cfg, f, rs) == first + more;
      DropsNoLast(cfg, r);
    }
  }

  lemma DropsNoLast(cfg: Config, r: Rect)
    ensures r.body.LastRect? ==> !Drops(cfg, r)
  {
  }

  lemma DropsSplit(cfg: Config, rs: seq<Rect>)
    requires rs != []
    ensures DropsSome(cfg, rs) <==> Drops(cfg, rs[0]) || DropsSome(cfg, rs[1..])
  {
  }

  /** How the update leaves the server. */
  ghost predicate UpdateOk(pf: PixelFormat, u: Update) {
    && RectsOk(pf, u.rects) && LastRectLast(u.rects) && |u.rects| <= u.count
    && (|u.rects| == u.count || EndsInLastRect(u.rects))
  }

  /** The client's view is well formed. It fits the announced count unless the
      count saturated, and a shorter one ends in LastRect. */
  lemma ViewShape(cfg: Config, nameQueued: bool, f: Fields, u: Update)
    requires cfg.pf.Valid() && UpdateOk(cfg.pf, u) && f.desktop.Valid()
    requires Saturates(u.count, nameQueued) ==> LAST_RECT in cfg.encodings
    ensures
      var view, announced := ClientView(cfg, nameQueued, f, u), Announced(u.count, nameQueued);
      && RectsOk(cfg.pf, view) && LastRectLast(view)
      && (!Saturates(u.count, nameQueued) ==> |view| <= announced)
      && (|view| < announced ==> EndsInLastRect(view))
  {
    hide RectOk, Image, After, Drops;
    ImagesShape(cfg, f, u.rects);
    assert RectOk(cfg.pf, LAST) && RectOk(cfg.pf, NameRect(f.desktop.name)) by {
      PseudoRectsOk(cfg.pf, f.desktop.name);
    }
    assert DropsSome(cfg, u.rects) ==> LAST_RECT in cfg.encodings by {
      DropsNeedLastRect(cfg, u.rects);
    }
    JoinShape(cfg.pf, Extra(nameQueued, f.desktop), Images(cfg, f, u.rects), Ending(cfg, nameQueued, u));
  }

  lemma JoinShape(pf: PixelFormat, a: seq<Rect>, b: seq<Rect>, c: seq<Rect>)
    requires RectsOk(pf, a) && RectsOk(pf, b) && RectsOk(pf, c)
    requires LastRectLast(b) && (a != [] ==> |a| == 1 && !a[0].body.LastRect?)
    requires c != [] ==> c == [LAST] && !EndsInLastRect(b)
    ensures RectsOk(pf, a + b + c) && LastRectLast(a + b + c)
    ensures c != [] || EndsInLastRect(b) ==> EndsInLastRect(a + b + c)
  {
  }

  lemma PseudoRectsOk(pf: PixelFormat, name: bytes)
    requires |name| < 0x1_0000_0000
    ensures RectOk(pf, LAST) && RectOk(pf, NameRect(name))
  {
  }

  lemma DropsNeedLastRect(cfg: Config, rs: seq<Rect>)
    ensures DropsSome(cfg, rs) ==> LAST_RECT in cfg.encodings
  {
  }

  // ---------------------------------------------------------------- the octets

  /** An update as it goes onto the wire. */
  function EncodeUpdate(u: Update): bytes {
    [FRAMEBUFFER_UPDATE, u.padding] + PutU16(u.count) + EncodeRects(u.rects)
  }

  /** The update sent to the client. */
  function Rewritten(cfg: Config, nameQueued: bool, f: Fields, u: Update): Update {
    Update(u.padding, Announced(u.count, nameQueued), ClientView(cfg, nameQueued, f, u))
  }

  lemma EncodeDecodedUpdate(pf: PixelFormat, input: bytes, u: Update, rest: bytes)
    requires DecodeUpdate(pf, input) == Some((u, rest))
    ensures UpdateOk(pf, u) && input == EncodeUpdate(u) + rest
  {
    hide DecodeRects, EncodeRects;
    var (rects, end) := DecodeRects(pf, u.count, input[4..]).value;
    EncodeDecodedRects(pf, u.count, input[4..], rects, end);
    PutGetU16(input[..4][2..]);
    assert input[..4] == [FRAMEBUFFER_UPDATE, u.padding] + PutU16(u.count);
    Regroup(input[..4], EncodeRects(u.rects), rest);
  }

  /** What a client reads from an encoded list of rectangles, whatever follows.
      It reads back the whole list exactly when the list fits the count. */
  lemma ReadsBack(pf: PixelFormat, u: Update, tail: bytes)
    requires RectsOk(pf, u.rects) && LastRectLast(u.rects)
    requires |u.rects| < u.count ==> EndsInLastRect(u.rects)
    ensures |u.rects| <= u.count ==>
              DecodeUpdate(pf, EncodeUpdate(u) + tail) == Some((u, tail))
    ensures |u.rects| > u.count ==>
              DecodeUpdate(pf, EncodeUpdate(u) + tail) ==
              Some((u.(rects := u.rects[..u.count]), EncodeRects(u.rects[u.count..]) + tail))
  {
    hide DecodeRects, EncodeRects, RectsOk, LastRectLast;
    var header, data := [FRAMEBUFFER_UPDATE, u.padding] + PutU16(u.count), EncodeRects(u.rects);
    ReadPair(header, data, tail);
    assert header[2..] == PutU16(u.count);
    if |u.rects| <= u.count {
      DecodeEncodedRects(pf, u.count, u.rects, tail);
    } else {
      DecodeEncodedFirst(pf, u.count, u.rects, tail);
    }
  }

  // ---------------------------------------------------------------- the tunnel

  lemma ExtraSent(nameQueued: bool, d: Desktop, io: Io)
    requires d.Valid()
    ensures SendExtra(nameQueued, d, io) == Put(io, EncodeRects(Extra(nameQueued, d)))
  {
    hide PutHeader, Put, PutU32, EncodeRects;
    if nameQueued {
      EncodeOne(NameRect(d.name));
      NameEncoded(NameRect(d.name));
      PutTwo(io, PutHeader(NAME_HEADER), NameBytes(d.name));
    } else {
      PutNothing(io);
    }
  }

  lemma PutNothing(io: Io)
    ensures Put(io, EncodeRects([])) == io
  {
  }

  lemma EndingSent(cfg: Config, nameQueued: bool, u: Update, f: Fields, io: Io)
    ensures
      var p := Progress(f, Saturates(u.count, nameQueued) || DropsSome(cfg, u.rects), EndsInLastRect(u.rects));
      Finish(cfg, p, io) == Put(io, EncodeRects(Ending(cfg, nameQueued, u)))
  {
  }

  /** The exact outcome of processFramebufferUpdate on a well-formed update: which
      updates it refuses and why, and otherwise what it consumes and sends. */
  lemma UpdateOutcome(cfg: Config, nameQueued: bool, f: Fields, u: Update, rest: bytes, out: bytes)
    requires cfg.pf.Valid() && f.desktop.Valid()
    requires UpdateOk(cfg.pf, u) && AllFramed(cfg.pf, u.rects)
    ensures RelayUpdate(cfg, nameQueued, f, Io(EncodeUpdate(u) + rest, out)) ==
            if Saturates(u.count, nameQueued) && LAST_RECT !in cfg.encodings then Failure(TooManyRectangles)
            else if !AllSubstitutable(cfg, u.rects) then Failure(NoDummyEncoding)
            else Success((AfterAll(f, u.rects), Io(rest, out + EncodeUpdate(Rewritten(cfg, nameQueued, f, u)))))
  {
    hide RelayRects, EncodeRects, RectsOk, AllFramed, AllSubstitutable, LastRectLast, EndsInLastRect, DropsSome, SendExtra, Finish, Extra, Ending, Images;
    var header := [FRAMEBUFFER_UPDATE, u.padding] + PutU16(u.count);
    var input := EncodeUpdate(u) + rest;
    Regroup(header, EncodeRects(u.rects), rest);
    assert input[..4] == header && input[4..] == EncodeRects(u.rects) + rest;
    assert header[2..] == PutU16(u.count);
    if !(Saturates(u.count, nameQueued) && LAST_RECT !in cfg.encodings) {
      var mine := [FRAMEBUFFER_UPDATE, u.padding] + PutU16(Announced(u.count, nameQueued));
      var extra := EncodeRects(Extra(nameQueued, f.desktop));
      var io := Io(EncodeRects(u.rects) + rest, out);
      ExtraSent(nameQueued, f.desktop, Put(io, mine));
      var p := Progress(f, Saturates(u.count, nameQueued), false);
      RectsForwarded(cfg, p, u.count, u.rects, rest, out + mine + extra);
      if AllSubstitutable(cfg, u.rects) {
        AdvanceAllMeans(cfg, p, u.rects);
        var images, ending := EncodeRects(Images(cfg, f, u.rects)), EncodeRects(Ending(cfg, nameQueued, u));
        EndingSent(cfg, nameQueued, u, AfterAll(f, u.rects), Io(rest, out + mine + extra + images));
        EncodeRectsAppend(Extra(nameQueued, f.desktop), Images(cfg, f, u.rects));
        EncodeRectsAppend(Extra(nameQueued, f.desktop) + Images(cfg, f, u.rects), Ending(cfg, nameQueued, u));
        assert out + mine + extra + images + ending == out + (mine + (extra + images + ending));
      }
    }
  }

  /** MAIN RESULT. Whatever octets the server sends, if the standard reads them as
      an update u followed by `rest`, and the tunnel accepts it, then the tunnel
      stops exactly at `rest`, and a standard reader of the client's stream finds
      exactly the intended update, followed by whatever is sent next -- if and only
      if the records really sent fit the announced count. They always do unless
      the count saturated. */
  lemma UpdatePreserved(cfg: Config, nameQueued: bool, f: Fields, input: bytes, u: Update, rest: bytes, out: bytes, tail: bytes)
    requires cfg.pf.Valid() && f.desktop.Valid()
    requires DecodeUpdate(cfg.pf, input) == Some((u, rest)) && AllFramed(cfg.pf, u.rects)
    requires RelayUpdate(cfg, nameQueued, f, Io(input, out)).Success?
    ensures
      var (f', io) := RelayUpdate(cfg, nameQueued, f, Io(input, out)).value;
      var mine := Rewritten(cfg, nameQueued, f, u);
      && f' == AfterAll(f, u.rects)
      && io.input == rest
      && io.output == out + EncodeUpdate(mine)
      && (DecodeUpdate(cfg.pf, EncodeUpdate(mine) + tail) == Some((mine, tail)) <==> |mine.rects| <= mine.count)
      && (!Saturates(u.count, nameQueued) ==> |mine.rects| <= mine.count)
  {
    hide RelayUpdate, DecodeUpdate, EncodeUpdate, ClientView, RectsOk, AllFramed, LastRectLast, EndsInLastRect;
    EncodeDecodedUpdate(cfg.pf, input, u, rest);
    UpdateOutcome(cfg, nameQueued, f, u, rest, out);
    ViewShape(cfg, nameQueued, f, u);
    ReadsBack(cfg.pf, Rewritten(cfg, nameQueued, f, u), tail);
  }

  // ---------------------------------------------------------------- the count

  /** 65535 rectangles announced by the server while a name is queued: the one case
      in which there is no room for the name in the count. */
  predicate NoRoom(count: u16, nameQueued: bool) {
    nameQueued && count == 65535
  }

  /** What goes onto the wire in place of an update, with every number written out:
      the count, the queued name in front, the images, and LastRect behind when a
      name was dropped or there was no room, unless the server sent one itself. */
  function SentFor(cfg: Config, nameQueued: bool, f: Fields, u: Update): bytes {
    var n: int := if NoRoom(u.count, nameQueued) then 65535 else u.count + (if nameQueued then 1 else 0);
    var dropped := -307 !in cfg.encodings && -224 in cfg.encodings && exists r :: r in u.rects && r.body.DesktopName?;
    var ended := u.rects != [] && u.rects[|u.rects| - 1].body.LastRect?;
    [0, u.padding, n / 256, n % 256] +
    EncodeRects((if nameQueued then [Rect(0, 0, 0, 0, DesktopName(f.desktop.name))] else []) +
                Images(cfg, f, u.rects) +
                (if (dropped || NoRoom(u.count, nameQueued)) && !ended then [Rect(0, 0, 0, 0, LastRect)] else []))
  }

  /** A well-formed update is refused for its count exactly when there is no room for
      the queued name and the client does not take LastRect, and what is sent for any
      other is SentFor. */
  lemma CountExactly(cfg: Config, nameQueued: bool, f: Fields, u: Update, rest: bytes, out: bytes)
    requires cfg.pf.Valid() && f.desktop.Valid()
    requires UpdateOk(cfg.pf, u) && AllFramed(cfg.pf, u.rects)
    ensures RelayUpdate(cfg, nameQueued, f, Io(EncodeUpdate(u) + rest, out)) == Failure(TooManyRectangles) <==>
            NoRoom(u.count, nameQueued) && -224 !in cfg.encodings
    ensures
      var r := RelayUpdate(cfg, nameQueued, f, Io(EncodeUpdate(u) + rest, out));
      r.Success? ==> r.value.1 == Io(rest, out + SentFor(cfg, nameQueued, f, u))
  {
    hide RelayUpdate, EncodeRects, Images, AfterAll, RectsOk, AllFramed, AllSubstitutable, LastRectLast;
    UpdateOutcome(cfg, nameQueued, f, u, rest, out);
    if !(NoRoom(u.count, nameQueued) && -224 !in cfg.encodings) {
      assert EncodeUpdate(Rewritten(cfg, nameQueued, f, u)) == SentFor(cfg, nameQueued, f, u) by {
        RewrittenIsSent(cfg, nameQueued, f, u);
      }
    }
  }

  lemma RewrittenIsSent(cfg: Config, nameQueued: bool, f: Fields, u: Update)
    requires NoRoom(u.count, nameQueued) ==> -224 in cfg.encodings
    ensures EncodeUpdate(Rewritten(cfg, nameQueued, f, u)) == SentFor(cfg, nameQueued, f, u)
  {
    hide EncodeRects, Images;
    assert DropsSome(cfg, u.rects) <==>
           -307 !in cfg.encodings && -224 in cfg.encodings && exists r :: r in u.rects && r.body.DesktopName?;
  }

  // ---------------------------------------------------------------- the saturated count

  /** How many of the server's rectangles the client gets something for. */
  function Shows(cfg: Config, rs: seq<Rect>): nat {
    if rs == [] then 0 else (if Drops(cfg, rs[0]) then 0 else 1) + Shows(cfg, rs[1..])
  }

  lemma {:induction false} ShowsThatMany(cfg: Config, f: Fields, rs: seq<Rect>)
    requires cfg.pf.Valid() && RectsOk(cfg.pf, rs) && f.desktop.Valid()
    ensures |Images(cfg, f, rs)| == Shows(cfg, rs) <= |rs|
    decreases |rs|
  {
    hide RectOk, Image, After, Drops;
    if rs != [] {
      ImageShape(cfg, f, rs[0]);
      ShowsThatMany(cfg, After(f, rs[0]), rs[1..]);
    }
  }

  lemma {:induction false} ShowsEverything(cfg: Config, rs: seq<Rect>)
    requires DESKTOP_NAME in cfg.encodings
    ensures Shows(cfg, rs) == |rs|
  {
    if rs != [] {
      ShowsEverything(cfg, rs[1..]);
    }
  }

  /** With a saturated count the records fit exactly when there is room for those
      shown, the name in front and the LastRect behind. For a client that takes
      DesktopName that is: when the server itself ended with LastRect before its
      last slot. */
  lemma SaturatedFits(cfg: Config, f: Fields, u: Update)
    requires cfg.pf.Valid() && UpdateOk(cfg.pf, u) && f.desktop.Valid()
    requires Saturates(u.count, true) && LAST_RECT in cfg.encodings
    ensures |ClientView(cfg, true, f, u)| <= Announced(u.count, true) <==>
            1 + Shows(cfg, u.rects) + (if EndsInLastRect(u.rects) then 0 else 1) <= U16_MAX
    ensures DESKTOP_NAME in cfg.encodings ==>
              (|ClientView(cfg, true, f, u)| <= Announced(u.count, true) <==> EndsInLastRect(u.rects) && |u.rects| < u.count)
  {
    hide RectOk, Image, After, Drops;
    ImagesShape(cfg, f, u.rects);
    ShowsThatMany(cfg, f, u.rects);
    if DESKTOP_NAME in cfg.encodings {
      ShowsEverything(cfg, u.rects);
    }
  }

  /** 65535 size changes in one update. */
  function FullUpdate(): Update {
    Update(0, U16_MAX, seq(U16_MAX, _ => Rect(0, 0, 0, 0, DesktopSize)))
  }

  lemma FullUpdateOk(cfg: Config)
    ensures UpdateOk(cfg.pf, FullUpdate()) && AllFramed(cfg.pf, FullUpdate().rects)
    ensures AllSubstitutable(cfg, FullUpdate().rects) && !EndsInLastRect(FullUpdate().rects)
    ensures Saturates(FullUpdate().count, true)
  {
  }

  /** Such an update arriving while a name is queued is accepted, and leaves
      rectangles on the stream for the client to misread as messages. */
  lemma SaturationLeavesOctets(cfg: Config, f: Fields, tail: bytes)
    requires cfg.pf.Valid() && f.desktop.Valid() && {DESKTOP_NAME, LAST_RECT} <= cfg.encodings
    ensures
      var mine := Rewritten(cfg, true, f, FullUpdate());
      && RelayUpdate(cfg, true, f, Io(EncodeUpdate(FullUpdate()), [])) == Success((AfterAll(f, FullUpdate().rects), Io([], EncodeUpdate(mine))))
      && DecodeUpdate(cfg.pf, EncodeUpdate(mine) + tail) != Some((mine, tail))
  {
    hide EncodeUpdate, DecodeUpdate, RelayUpdate, ClientView, AfterAll, FullUpdate, UpdateOk, AllFramed, AllSubstitutable;
    var u := FullUpdate();
    FullUpdateOk(cfg);
    UpdateOutcome(cfg, true, f, u, [], []);
    assert EncodeUpdate(u) + [] == EncodeUpdate(u);
    assert [] + EncodeUpdate(Rewritten(cfg, true, f, u)) == EncodeUpdate(Rewritten(cfg, true, f, u));
    SaturatedFits(cfg, f, u);
    ViewShape(cfg, true, f, u);
    ReadsBack(cfg.pf, Rewritten(cfg, true, f, u), tail);
  }
}
