/** What VncTunnel::processSetEncodings makes of a client's list, number by number
    (VncTunnel.cpp:332-382), and that it offers the server nothing that the tunnel
    then cannot relay (VncTunnel.cpp:478-641). */
module EncodingLists {
  import opened Bytes
  import opened ClientRelay
  import opened Failures
  import ML = MainLoop
  import R = Relay
  import opened Rfb

  /** Raw, CopyRect, RRE, Tight, DesktopSize, LastRect, Cursor, XCursor, DesktopName
      and ExtendedDesktopSize, and the JPEG quality levels. */
  predicate Listed(e: s32) {
    e in {0, 1, 2, 7, -223, -224, -239, -240, -307, -308} || -32 <= e <= -23
  }

  /** The client's list without what is not relayed, and without Tight while that is
      held back. */
  function PassedOn(tightDisabled: bool, l: seq<s32>): seq<s32> {
    if l == [] then []
    else (if Listed(l[0]) && !(l[0] == 7 && tightDisabled) then [l[0]] else []) + PassedOn(tightDisabled, l[1..])
  }

  lemma {:induction false} KeptSplits(tightDisabled: bool, a: seq<s32>, b: seq<s32>)
    ensures Kept(tightDisabled, a + b) == Kept(tightDisabled, a) + Kept(tightDisabled, b)
  {
    if b == [] {
      assert a + b == a;
    } else {
      assert (a + b)[..|a + b| - 1] == a + b[..|b| - 1];
      KeptSplits(tightDisabled, a, b[..|b| - 1]);
    }
  }

  lemma {:induction false} KeptIsPassedOn(tightDisabled: bool, l: seq<s32>)
    ensures Kept(tightDisabled, l) == PassedOn(tightDisabled, l)
  {
    if l != [] {
      assert l == [l[0]] + l[1..];
      KeptSplits(tightDisabled, [l[0]], l[1..]);
      assert [l[0]][..0] == [];
      assert Offered(tightDisabled, l[0]) <==> Listed(l[0]) && !(l[0] == 7 && tightDisabled);
      KeptIsPassedOn(tightDisabled, l[1..]);
    }
  }

  lemma {:induction false} PassedOnMembers(tightDisabled: bool, l: seq<s32>, e: s32)
    ensures e in PassedOn(tightDisabled, l) <==> e in l && Listed(e) && !(e == 7 && tightDisabled)
  {
    if l != [] {
      PassedOnMembers(tightDisabled, l[1..], e);
      assert e in l <==> e == l[0] || e in l[1..];
    }
  }

  /** The server is offered exactly the client's encodings that are listed here, as
      often and in the same order, but for a Tight held back, and DesktopName behind
      them if the client did not list it; and the tunnel remembers exactly the listed
      ones of the client. */
  lemma OfferExactly(s: Settings, l: seq<s32>)
    ensures Choose(s, l).serverEncodings == PassedOn(s.tightDisabled, l) + (if -307 in l then [] else [-307])
    ensures forall e :: e in Choose(s, l).serverEncodings <==>
              e == -307 || (e in l && Listed(e) && !(e == 7 && s.tightDisabled))
    ensures forall e :: e in Choose(s, l).clientEncodings <==> e in l && Listed(e)
    ensures Choose(s, l).pf == s.pf && Choose(s, l).tightDisabled == s.tightDisabled
  {
    KeptIsPassedOn(s.tightDisabled, l);
    forall e
      ensures e in Choose(s, l).serverEncodings <==> e == -307 || (e in l && Listed(e) && !(e == 7 && s.tightDisabled))
    {
      PassedOnMembers(s.tightDisabled, l, e);
    }
  }

  /** Exactly the listed encodings, quality levels aside, are ones that the tunnel can
      relay a rectangle of. */
  lemma RelaysWhatIsListed(cfg: R.Config, p: R.Progress, hd: RectHeader, io: R.Io)
    requires !(-32 <= hd.encoding <= -23)
    ensures R.RelayBody(cfg, p, hd, io) == Failure(UnknownEncoding) <==> !Listed(hd.encoding)
  {
    hide R.RelayTight, R.RelayDesktopName, R.RelayExtendedDesktopSize, R.RelayRre, R.RelayPassThru, R.Put, PutHeader;
    ML.TightErrors(cfg, p, hd, io);
    ML.OtherErrors(cfg, p, hd, io);
    if hd.encoding in {RAW, COPY_RECT, CURSOR, X_CURSOR} {
      ML.PassThruErrors(cfg, p, hd, io);
    }
  }

  /** So no rectangle in an encoding that the server was offered is refused as unknown. */
  lemma OfferIsRelayed(s: Settings, l: seq<s32>, cfg: R.Config, p: R.Progress, hd: RectHeader, io: R.Io)
    requires hd.encoding in Choose(s, l).serverEncodings && !(-32 <= hd.encoding <= -23)
    ensures R.RelayBody(cfg, p, hd, io) != Failure(UnknownEncoding)
  {
    hide R.RelayBody, Choose;
    OfferExactly(s, l);
    RelaysWhatIsListed(cfg, p, hd, io);
  }
}
