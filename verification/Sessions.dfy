/** Xvnc.cpp and XvncManager.cpp: the managed sessions and the version counter
    that greeters compare their cached list against. Each method body runs under
    the object's lock; module GreeterCache interleaves the steps. */
module Sessions {
  import opened Bytes
  import D = Desktop
  import opened Failures

  class Xvnc {
    const m_xvncManager: XvncManager
    const m_id: int
    const m_pid: int
    const m_displayNumber: int

    var m_connectionCount: nat
    var m_visible: bool
    var m_desktopName: bytes
    var m_sessionUsername: bytes
    var m_approvedControllerKeys: set<bytes>

    constructor (xvncManager: XvncManager, id: int, pid: int, displayNumber: int)
      ensures m_xvncManager == xvncManager && m_id == id && m_pid == pid && m_displayNumber == displayNumber
      ensures m_connectionCount == 0 && !m_visible && m_sessionUsername == []
      ensures Desktop() == D.Desktop([], {}) && Desktop().Valid()
    {
      m_xvncManager, m_id, m_pid, m_displayNumber := xvncManager, id, pid, displayNumber;
      m_connectionCount, m_visible, m_desktopName, m_sessionUsername, m_approvedControllerKeys := 0, false, [], [], {};
    }

    ghost function Desktop(): D.Desktop
      reads this
    {
      D.Desktop(m_desktopName, m_approvedControllerKeys)
    }

    /** Announces exactly the changes of visibility. */
    method MarkVisible(newVisible: bool)
      modifies this`m_visible, m_xvncManager`m_sessionListVersion
      ensures m_visible == newVisible
      ensures m_xvncManager.m_sessionListVersion ==
              old(m_xvncManager.m_sessionListVersion) + (if old(m_visible) == newVisible then 0 else 1)
    {
      if m_visible == newVisible {
        return;
      }
      m_visible := newVisible;
      m_xvncManager.NotifySessionChanged();
    }

    /** Either a controller key is approved or the name is set; only a changed
        name is announced. */
    method SetDesktopName(newDesktopName: bytes)
      modifies this`m_desktopName, this`m_approvedControllerKeys, m_xvncManager`m_sessionListVersion
      ensures Desktop() == D.SetName(old(Desktop()), newDesktopName)
      ensures old(Desktop().Valid()) && |newDesktopName| < 0x1_0000_0000 ==> Desktop().Valid()
      ensures m_xvncManager.m_sessionListVersion ==
              old(m_xvncManager.m_sessionListVersion) + (if m_desktopName == old(m_desktopName) then 0 else 1)
    {
      if D.KEY_PREFIX <= newDesktopName {
        m_approvedControllerKeys := m_approvedControllerKeys + {newDesktopName[|D.KEY_PREFIX|..]};
        return;
      }
      if m_desktopName == newDesktopName {
        return;
      }
      m_desktopName := newDesktopName;
      m_xvncManager.NotifySessionChanged();
    }

    method SetSessionUsername(newSessionUsername: bytes)
      modifies this`m_sessionUsername, m_xvncManager`m_sessionListVersion
      ensures m_sessionUsername == newSessionUsername
      ensures m_xvncManager.m_sessionListVersion ==
              old(m_xvncManager.m_sessionListVersion) + (if old(m_sessionUsername) == newSessionUsername then 0 else 1)
    {
      if m_sessionUsername == newSessionUsername {
        return;
      }
      m_sessionUsername := newSessionUsername;
      m_xvncManager.NotifySessionChanged();
    }

    /** connect, once the socket calls have succeeded. */
    method Connect()
      modifies this`m_connectionCount
      ensures m_connectionCount == old(m_connectionCount) + 1
    {
      m_connectionCount := m_connectionCount + 1;
    }

    method Disconnect()
      requires m_connectionCount > 0
      modifies this`m_connectionCount
      ensures m_connectionCount == old(m_connectionCount) - 1
    {
      m_connectionCount := m_connectionCount - 1;
    }
  }

  class XvncManager {
    var m_xvncs: map<int, Xvnc>
    var m_nextId: int
    var m_sessionListVersion: int

    constructor ()
      ensures Valid() && m_xvncs == map[] && m_sessionListVersion == 0
    {
      m_xvncs, m_nextId, m_sessionListVersion := map[], 0, 0;
    }

    /** Every session is filed under its own identifier, and the next identifier
        has not been given out. */
    ghost predicate Valid()
      reads this
    {
      && 0 <= m_nextId
      && (forall id :: id in m_xvncs ==> 0 <= id < m_nextId && m_xvncs[id].m_id == id && m_xvncs[id].m_xvncManager == this)
    }

    method NotifySessionChanged()
      modifies this`m_sessionListVersion
      ensures m_sessionListVersion == old(m_sessionListVersion) + 1
    {
      m_sessionListVersion := m_sessionListVersion + 1;
    }

    /** A new session gets an identifier no session ever had. The spawned process
        and its display number come from outside. */
    method CreateSession(pid: int, displayNumber: int) returns (xvnc: Xvnc)
      requires Valid()
      modifies this`m_xvncs, this`m_nextId
      ensures Valid() && fresh(xvnc) && !xvnc.m_visible
      ensures xvnc.m_id == old(m_nextId) && xvnc.m_id !in old(m_xvncs)
      ensures m_xvncs == old(m_xvncs)[xvnc.m_id := xvnc]
      ensures xvnc.m_pid == pid && xvnc.m_displayNumber == displayNumber
    {
      xvnc := new Xvnc(this, m_nextId, pid, displayNumber);
      m_nextId := m_nextId + 1;
      assert xvnc.m_id !in m_xvncs;
      m_xvncs := m_xvncs[xvnc.m_id := xvnc];
    }

    method GetSession(id: int) returns (xvnc: Xvnc?)
      requires Valid()
      ensures if id in m_xvncs then xvnc == m_xvncs[id] else xvnc == null
    {
      xvnc := if id in m_xvncs then m_xvncs[id] else null;
    }

    /** The managed session with the smallest identifier on that display. */
    method GetSessionByDisplayNumber(displayNumber: int) returns (xvnc: Xvnc?)
      requires Valid()
      ensures xvnc == null ==> forall id :: id in m_xvncs ==> m_xvncs[id].m_displayNumber != displayNumber
      ensures xvnc != null ==> xvnc.m_id in m_xvncs && m_xvncs[xvnc.m_id] == xvnc && xvnc.m_displayNumber == displayNumber
      ensures xvnc != null ==> forall id :: id in m_xvncs && m_xvncs[id].m_displayNumber == displayNumber ==> xvnc.m_id <= id
    {
      for id := 0 to m_nextId
        invariant forall i :: i in m_xvncs && i < id ==> m_xvncs[i].m_displayNumber != displayNumber
      {
        if id in m_xvncs {
          if m_xvncs[id].m_displayNumber == displayNumber {
            return m_xvncs[id];
          }
        }
      }
      xvnc := null;
    }

    method HasVisibleSessions() returns (any: bool)
      requires Valid()
      ensures any <==> exists id :: id in m_xvncs && m_xvncs[id].m_visible
    {
      for id := 0 to m_nextId
        invariant forall i :: i in m_xvncs && i < id ==> !m_xvncs[i].m_visible
      {
        if id in m_xvncs {
          if m_xvncs[id].m_visible {
            return true;
          }
        }
      }
      any := false;
    }

    /** The first session of that process is no longer managed. Nothing is
        announced here: the version moves when the object is destroyed. */
    method ChildDied(pid: int)
      requires Valid()
      modifies this`m_xvncs
      ensures Valid()
      ensures forall id :: id in m_xvncs ==> id in old(m_xvncs) && m_xvncs[id] == old(m_xvncs)[id]
      ensures forall id :: id in old(m_xvncs) && id !in m_xvncs ==>
                old(m_xvncs)[id].m_pid == pid && m_xvncs == old(m_xvncs) - {id}
                && forall i :: i in old(m_xvncs) && i < id ==> old(m_xvncs)[i].m_pid != pid
      ensures m_xvncs == old(m_xvncs) <==> forall id :: id in old(m_xvncs) ==> old(m_xvncs)[id].m_pid != pid
    {
      for id := 0 to m_nextId
        invariant m_xvncs == old(m_xvncs)
        invariant forall i :: i in m_xvncs && i < id ==> m_xvncs[i].m_pid != pid
      {
        if id in m_xvncs {
          if m_xvncs[id].m_pid == pid {
            m_xvncs := m_xvncs - {id};
            assert id !in m_xvncs;
            return;
          }
        }
      }
    }
  }
}
