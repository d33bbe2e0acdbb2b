/** The four zlib streams of the Tight encoding. A stream's history is what has
    been deflated or inflated on it since it was last reset; the content itself is
    opaque. A chunk inflates correctly when both ends have the same history. */
module ZlibStreams {
  import opened Bytes
  import opened Intended
  import opened Relay
  import opened Rfb
  import opened Standard

  type Histories = h: seq<seq<bytes>> | |h| == 4 witness [[], [], [], []]

  const FRESH: Histories := [[], [], [], []]

  /** Bit k of the four reset flags. */
  predicate ResetFlag(resets: byte, k: nat)
    requires k < 4
  {
    match k
    case 0 => resets % 2 == 1
    case 1 => resets / 2 % 2 == 1
    case 2 => resets / 4 % 2 == 1
    case _ => resets / 8 % 2 == 1
  }

  function Reset(h: Histories, resets: byte): Histories {
    seq(4, k requires 0 <= k < 4 => if ResetFlag(resets, k) then [] else h[k])
  }

  /** Either end's streams after one rectangle. */
  function Process(h: Histories, r: Rect): Histories {
    match r.body
    case Tight(resets, Basic(stream, _, Deflated(chunk))) =>
      var h1 := Reset(h, resets);
      if stream < 4 then h1[stream := h1[stream] + [chunk.data]] else h1
    case Tight(resets, _) => Reset(h, resets)
    case _ => h
  }

  function ProcessAll(h: Histories, rs: seq<Rect>): Histories
    decreases |rs|
  {
    if rs == [] then h else ProcessAll(Process(h, rs[0]), rs[1..])
  }

  /** While a reset is queued the server has not used its streams; otherwise both
      ends agree on all four. */
  ghost predicate InStep(resetQueued: bool, server: Histories, client: Histories) {
    if resetQueued then server == FRESH else server == client
  }

  lemma ResetEverything(h: Histories)
    ensures Reset(h, 0xF) == FRESH
  {
  }

  lemma ResetFresh(resets: byte)
    ensures Reset(FRESH, resets) == FRESH
  {
  }

  lemma ProcessOne(h: Histories, r: Rect)
    ensures ProcessAll(h, [r]) == Process(h, r)
  {
  }

  lemma {:induction false} ProcessAppend(h: Histories, a: seq<Rect>, b: seq<Rect>)
    ensures ProcessAll(h, a + b) == ProcessAll(ProcessAll(h, a), b)
    decreases |a|
  {
    if a == [] {
      assert a + b == b;
    } else {
      assert (a + b)[1..] == a[1..] + b;
      ProcessAppend(Process(h, a[0]), a[1..], b);
    }
  }

  /** One server rectangle and its image at the client: a Tight rectangle finds
      both ends with equal histories once its resets are done. */
  lemma RectInStep(cfg: Config, f: Fields, r: Rect, server: Histories, client: Histories)
    requires InStep(f.resetQueued, server, client)
    ensures InStep(After(f, r).resetQueued, Process(server, r), ProcessAll(client, Image(cfg, f, r)))
    ensures r.body.Tight? ==>
              var image := Image(cfg, f, r)[0].body;
              image.Tight? && Reset(client, image.resets) == Reset(server, r.body.resets)
  {
    var image := Image(cfg, f, r);
    if image != [] {
      ProcessOne(client, image[0]);
      assert image == [image[0]];
    }
    if r.body.Tight? && f.resetQueued {
      ResetEverything(client);
      ResetFresh(r.body.resets);
    }
  }

  lemma {:induction false} ImagesInStep(cfg: Config, f: Fields, rs: seq<Rect>, server: Histories, client: Histories)
    requires InStep(f.resetQueued, server, client)
    ensures InStep(AfterAll(f, rs).resetQueued, ProcessAll(server, rs), ProcessAll(client, Images(cfg, f, rs)))
    decreases |rs|
  {
    hide Image, After, Process, InStep;
    if rs != [] {
      var image, more := Image(cfg, f, rs[0]), Images(cfg, After(f, rs[0]), rs[1..]);
      RectInStep(cfg, f, rs[0], server, client);
      ImagesInStep(cfg, After(f, rs[0]), rs[1..], Process(server, rs[0]), ProcessAll(client, image));
      ProcessAppend(client, image, more);
    }
  }

  /** Pseudo-encodings leave the streams alone. */
  lemma {:induction false} ViewInStep(cfg: Config, nameQueued: bool, f: Fields, u: Update, server: Histories, client: Histories)
    requires InStep(f.resetQueued, server, client)
    ensures InStep(AfterAll(f, u.rects).resetQueued, ProcessAll(server, u.rects), ProcessAll(client, ClientView(cfg, nameQueued, f, u)))
  {
    hide InStep, AfterAll, Images;
    var extra, images, ending := Extra(nameQueued, f.desktop), Images(cfg, f, u.rects), Ending(cfg, nameQueued, u);
    ProcessAppend(client, extra + images, ending);
    ProcessAppend(client, extra, images);
    ProcessOne(client, NameRect(f.desktop.name));
    ProcessOne(ProcessAll(client, images), LAST);
    ImagesInStep(cfg, f, u.rects, server, client);
  }
}
