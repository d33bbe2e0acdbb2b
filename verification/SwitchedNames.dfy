/** The desktop name after a switch (VncTunnel.cpp:775-777, 780-810): the client that
    takes DesktopName is told the new session's name in front of the first update it
    gets, once, and any other client never. */
module SwitchedNames {
  import opened Bytes
  import opened ClientRelay
  import opened ClientRelayProofs
  import D = Desktop
  import opened Failures
  import opened Intended
  import ML = MainLoop
  import opened Rfb
  import opened ServerMessages
  import opened Standard
  import opened Switching
  import opened TunnelRun
  import Z = ZlibStreams

  /** The j-th event completes a switch for a client that takes DesktopName. */
  ghost predicate TakesName(ws: seq<World>, es: seq<Event>, j: nat)
    requires j < |es| && |es| < |ws|
  {
    es[j].Completed? && -307 in ws[j].t.settings.clientEncodings
  }

  /** No update is handed to the client by the events from i on and before k. */
  ghost predicate NoUpdate(ws: seq<World>, es: seq<Event>, i: nat, k: nat)
    requires k <= |es| < |ws|
  {
    forall n :: i <= n < k ==> !ReadsUpdate(ws[n], es[n])
  }

  /** A name is due: such a switch has completed, and no update has been handed to the
      client since. */
  ghost predicate Due(ws: seq<World>, es: seq<Event>, k: nat)
    requires k <= |es| < |ws|
  {
    exists j :: 0 <= j < k && TakesName(ws, es, j) && NoUpdate(ws, es, j + 1, k)
  }

  /** A name has been sent: such a switch has completed, and an update been handed to
      the client since. */
  ghost predicate Done(ws: seq<World>, es: seq<Event>, k: nat)
    requires k <= |es| < |ws|
  {
    exists j :: 0 <= j < k && TakesName(ws, es, j) && !NoUpdate(ws, es, j + 1, k)
  }

  lemma {:induction false} NoSwitchYet(ws: seq<World>, es: seq<Event>, link: Link, greeter: bool, k: nat, j: nat)
    requires IsRunFrom(ws, es, link, greeter) && j < k <= |es| && ws[k].switches == 0
    ensures !es[j].Completed?
  {
    hide Enabled, Next, LinkOk, Start;
    assert Enabled(ws[k - 1], es[k - 1]) && ws[k] == Next(ws[k - 1], es[k - 1]);
    SwitchesCount(ws[k - 1], es[k - 1]);
    if j < k - 1 {
      NoSwitchYet(ws, es, link, greeter, k - 1, j);
    }
  }

  lemma SwitchesCount(w: World, e: Event)
    requires Enabled(w, e)
    ensures Next(w, e).switches == w.switches + (if e.Completed? then 1 else 0)
  {
    hide AfterMessage, AfterAll, ClientView, Z.ProcessAll, ServerOk, Relayable, Accepted, Fits;
  }

  /** How an event changes what is queued and what has been sent. */
  lemma NameStep(w: World, e: Event)
    requires Enabled(w, e) && SwitchInv(w)
    ensures
      var next := Next(w, e);
      if e.Completed? then
        !w.t.nameQueued && next.t.nameQueued == (-307 in w.t.settings.clientEncodings) && next.madeUpNames == w.madeUpNames == 0
        && next.t.current.desktop == e.link.desktop
      else if ReadsUpdate(w, e) then
        !next.t.nameQueued && next.madeUpNames == w.madeUpNames + (if w.t.nameQueued then 1 else 0)
      else next.t.nameQueued == w.t.nameQueued && next.madeUpNames == w.madeUpNames
    ensures !e.Completed? && !e.Renamed? && !ReadsUpdate(w, e) ==> Next(w, e).t.current.desktop == w.t.current.desktop
  {
    hide AfterMessage, AfterAll, ClientView, Z.ProcessAll, ServerOk, Relayable, Accepted, Fits, PixelFormat.Same;
  }

  lemma DueStep(ws: seq<World>, es: seq<Event>, k: nat)
    requires k < |es| < |ws|
    ensures es[k].Completed? && (forall j :: 0 <= j < k ==> !es[j].Completed?) ==>
              (Due(ws, es, k + 1) <==> TakesName(ws, es, k)) && !Done(ws, es, k + 1)
    ensures !es[k].Completed? && ReadsUpdate(ws[k], es[k]) ==>
              !Due(ws, es, k + 1) && (Done(ws, es, k + 1) <==> Due(ws, es, k) || Done(ws, es, k))
    ensures !es[k].Completed? && !ReadsUpdate(ws[k], es[k]) ==>
              (Due(ws, es, k + 1) <==> Due(ws, es, k)) && (Done(ws, es, k + 1) <==> Done(ws, es, k))
  {
    hide ReadsUpdate;
    if !es[k].Completed? {
      forall j | 0 <= j < k && TakesName(ws, es, j)
        ensures NoUpdate(ws, es, j + 1, k + 1) <==> NoUpdate(ws, es, j + 1, k) && !ReadsUpdate(ws[k], es[k])
      {
      }
      hide NoUpdate;
      assert forall j :: 0 <= j < k + 1 && TakesName(ws, es, j) ==> j < k;
    }
  }

  /** MAIN RESULT. In every world of every run a name is queued exactly when it is due,
      and the tunnel has made up one name or none, one exactly when it was sent. */
  lemma {:induction false} NamesExactly(ws: seq<World>, es: seq<Event>, link: Link, greeter: bool, k: nat)
    requires IsRunFrom(ws, es, link, greeter) && k <= |es|
    ensures ws[k].t.nameQueued <==> Due(ws, es, k)
    ensures ws[k].madeUpNames == if Done(ws, es, k) then 1 else 0
  {
    hide Enabled, Next, LinkOk, Due, Done, ReadsUpdate, TakesName;
    if k == 0 {
      NothingDue(ws, es);
    } else {
      NamesExactly(ws, es, link, greeter, k - 1);
      RunKeeps(ws, es, link, greeter, k - 1);
      RunKeeps(ws, es, link, greeter, k);
      hide EncodingInv, FormatInv, UnreadInv, Z.InStep;
      var w, e := ws[k - 1], es[k - 1];
      assert Enabled(w, e) && ws[k] == Next(w, e);
      NameStep(w, e);
      if e.Completed? {
        SwitchesOnce(ws, es, link, greeter, k - 1);
        forall j | 0 <= j < k - 1 ensures !es[j].Completed? {
          NoSwitchYet(ws, es, link, greeter, k - 1, j);
        }
        TakesMeans(ws, es, k - 1);
      }
      DueStep(ws, es, k - 1);
    }
  }

  lemma TakesMeans(ws: seq<World>, es: seq<Event>, j: nat)
    requires j < |es| < |ws| && es[j].Completed?
    ensures TakesName(ws, es, j) <==> -307 in ws[j].t.settings.clientEncodings
  {
  }

  lemma NothingDue(ws: seq<World>, es: seq<Event>)
    requires |es| < |ws|
    ensures !Due(ws, es, 0) && !Done(ws, es, 0)
  {
  }

  /** The desktop of the new session stays the tunnel's until an update or another
      tunnel changes it. */
  lemma {:induction false} DesktopStays(ws: seq<World>, es: seq<Event>, link: Link, greeter: bool, j: nat, k: nat)
    requires IsRunFrom(ws, es, link, greeter) && j < k <= |es| && es[j].Completed? && NoUpdate(ws, es, j + 1, k)
    requires forall n :: j < n < k ==> !es[n].Renamed?
    ensures ws[k].t.current.desktop == es[j].link.desktop
  {
    hide Next, Enabled, LinkOk, Start, Inv;
    assert Enabled(ws[k - 1], es[k - 1]) && ws[k] == Next(ws[k - 1], es[k - 1]);
    RunKeeps(ws, es, link, greeter, k - 1);
    SwitchPart(ws[k - 1]);
    NameStep(ws[k - 1], es[k - 1]);
    if j < k - 1 {
      DesktopStays(ws, es, link, greeter, j, k - 1);
      OnlySwitch(ws, es, link, greeter, j, k - 1);
    }
  }

  lemma SwitchPart(w: World)
    requires Inv(w)
    ensures SwitchInv(w)
  {
  }

  lemma OnlySwitch(ws: seq<World>, es: seq<Event>, link: Link, greeter: bool, j: nat, k: nat)
    requires IsRunFrom(ws, es, link, greeter) && j < k < |es| && es[j].Completed?
    ensures !es[k].Completed?
  {
    hide Next, Enabled, LinkOk, Start;
    if es[k].Completed? {
      SwitchesOnce(ws, es, link, greeter, k);
      NoSwitchYet(ws, es, link, greeter, k, j);
    }
  }

  /** The first update after the switch is shown with the name in front for a client
      that took DesktopName at the switch: the session's present name, which is the
      one it had at the switch unless another tunnel changed it since. */
  lemma NewNameShown(ws: seq<World>, es: seq<Event>, link: Link, greeter: bool, j: nat, k: nat)
    requires IsRunFrom(ws, es, link, greeter) && j < k < |es|
    requires TakesName(ws, es, j) && NoUpdate(ws, es, j + 1, k) && ReadsUpdate(ws[k], es[k])
    ensures
      var shown := Shown(ws[k], ws[k].unread[0].message.update);
      && shown != [] && shown[0] == Rect(0, 0, 0, 0, DesktopName(ws[k].t.current.desktop.name))
      && ((forall n :: j < n < k ==> !es[n].Renamed?) ==> ws[k].t.current.desktop == es[j].link.desktop)
      && ws[k + 1].madeUpNames == 1 && !ws[k + 1].t.nameQueued
  {
    NamesExactly(ws, es, link, greeter, k);
    assert Due(ws, es, k);
    if forall n :: j < n < k ==> !es[n].Renamed? {
      DesktopStays(ws, es, link, greeter, j, k);
    }
    RunKeeps(ws, es, link, greeter, k);
    hide Next, Enabled, Images, Ending, EncodingInv, FormatInv, UnreadInv, Z.InStep, Due, NoUpdate;
    OnlySwitch(ws, es, link, greeter, j, k);
    assert Enabled(ws[k], es[k]) && ws[k + 1] == Next(ws[k], es[k]);
    NameStep(ws[k], es[k]);
  }

  /** A client that did not take DesktopName at the switch, or was never switched, gets
      no made-up name: no update has one in front. */
  lemma NoNameShown(ws: seq<World>, es: seq<Event>, link: Link, greeter: bool, k: nat)
    requires IsRunFrom(ws, es, link, greeter) && k < |es| && ReadsUpdate(ws[k], es[k])
    requires forall j :: 0 <= j < k ==> !TakesName(ws, es, j)
    ensures
      var w, u := ws[k], ws[k].unread[0].message.update;
      Shown(w, u) == Images(w.t.Cfg(), w.t.Fields(), u.rects) + Ending(w.t.Cfg(), false, u)
    ensures ws[k].madeUpNames == 0
  {
    NamesExactly(ws, es, link, greeter, k);
    hide Next, Enabled, Images, Ending;
    assert !Due(ws, es, k) && !Done(ws, es, k);
  }
}
