/** The tunnel's own fields and how each kind of event changes them: what class
    VncTunnel implements and module TunnelRun runs (VncTunnel.cpp:319-382,
    442-653, 730-810). */
module Switching {
  import opened Bytes
  import opened ClientMessages
  import opened ClientRelay
  import D = Desktop
  import R = Relay
  import opened Rfb

  /** A connection to a server: the format last received from it or sent to it,
      its framebuffer size and the state of its session. */
  datatype Link = Link(pf: PixelFormat, width: u16, height: u16, desktop: D.Desktop)

  datatype Tunnel = Tunnel(
    settings: Settings,
    current: Link,
    potential: bool,
    greeter: bool,
    resetQueued: bool,
    nameQueued: bool
  ) {
    function Cfg(): R.Config {
      R.Config(settings.clientEncodings, settings.pf)
    }

    function Fields(): R.Fields {
      R.Fields(resetQueued, current.width, current.height, current.desktop)
    }
  }

  /** After a client message that left these settings. A message that changes the
      pixel format also changes that of the connection. */
  function AfterClient(t: Tunnel, s: Settings, formatChanged: bool): Tunnel {
    t.(settings := s, current := if formatChanged then t.current.(pf := s.pf) else t.current)
  }

  /** After an update that left these fields. */
  function AfterUpdate(t: Tunnel, f: R.Fields): Tunnel {
    t.(resetQueued := f.resetQueued, nameQueued := false,
       current := t.current.(width := f.width, height := f.height, desktop := f.desktop))
  }

  /** The settings once a switch is attempted: Tight is no longer held back. */
  function EnableTight(s: Settings): Settings {
    if !s.tightDisabled then s
    else if TIGHT in s.clientEncodings then s.(tightDisabled := false, serverEncodings := [TIGHT] + s.serverEncodings)
    else s.(tightDisabled := false)
  }

  /** switchToConnection up to the handshake. */
  function SwitchStarted(t: Tunnel): Tunnel {
    t.(settings := EnableTight(t.settings), potential := true)
  }

  /** connectionSwitched */
  function Switched(t: Tunnel, link: Link): Tunnel {
    t.(greeter := false, potential := false, resetQueued := true,
       nameQueued := t.nameQueued || DESKTOP_NAME in t.settings.clientEncodings,
       current := if link.pf.Same(t.settings.pf) then link else link.(pf := t.settings.pf))
  }

  /** Nothing of the old connection survives a switch. */
  lemma SwitchedForgets(t: Tunnel, other: Tunnel, link: Link)
    requires t.(current := other.current) == other
    ensures Switched(t, link) == Switched(other, link)
  {
  }

  /** The handler of a ConnectionException of the potential connection. */
  function SwitchFailed(t: Tunnel): Tunnel {
    t.(potential := false)
  }

  /** A request for the whole framebuffer, not incremental. */
  function FullUpdateRequest(width: u16, height: u16): bytes {
    [FRAMEBUFFER_UPDATE_REQUEST, 0] + PutU16(0) + PutU16(0) + PutU16(width) + PutU16(height)
  }

  /** What the new server is told. */
  function SwitchBytes(s: Settings, link: Link): bytes
    requires s.pf.WellSized()
  {
    (if link.pf.Same(s.pf) then [] else SetPixelFormatBytes(s.pf)) +
    SetEncodingsBytes(s.serverEncodings) +
    FullUpdateRequest(link.width, link.height)
  }
}
