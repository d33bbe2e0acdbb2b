/** GreeterConnection.cpp: a greeter program's pipe and its cached session list,
    as one thread sees it. Module GreeterCache lets other threads interfere. */
module Greeters {
  import opened Bytes
  import opened Failures
  import opened Sessions

  datatype Line = Line(id: int, username: bytes, name: bytes)

  /** What is written to the greeter program. */
  datatype Command = SessionList(count: int, lines: seq<Line>) | GetPassword | GetCredentials | ShowError

  /** The visible sessions with identifiers below n, in order. */
  ghost function VisibleLines(m: map<int, Xvnc>, n: nat): seq<Line>
    reads m.Values
  {
    if n == 0 then []
    else
      VisibleLines(m, n - 1) +
      (if n - 1 in m && m[n - 1].m_visible
       then [Line(n - 1, m[n - 1].m_sessionUsername, m[n - 1].m_desktopName)] else [])
  }

  /** Exactly the visible sessions of the map have a line, the one that shows them as
      they are, in the order of their identifiers. */
  lemma {:induction false} LinesExactly(m: map<int, Xvnc>, n: nat)
    ensures forall line :: line in VisibleLines(m, n) <==>
              && 0 <= line.id < n && line.id in m && m[line.id].m_visible
              && line.username == m[line.id].m_sessionUsername && line.name == m[line.id].m_desktopName
    ensures forall i, j :: 0 <= i < j < |VisibleLines(m, n)| ==> VisibleLines(m, n)[i].id < VisibleLines(m, n)[j].id
  {
    if n > 0 {
      LinesExactly(m, n - 1);
      var before := VisibleLines(m, n - 1);
      assert forall i :: 0 <= i < |before| ==> before[i] in before;
    }
  }

  class GreeterConnection {
    const m_manager: XvncManager
    const m_greeterStdout: int
    var m_dead: bool // set by the thread that reaps child processes
    var m_lastSentSessionListVersion: int
    var m_out: seq<Command>

    constructor (manager: XvncManager, greeterStdout: int)
      ensures m_manager == manager && m_greeterStdout == greeterStdout && !m_dead && m_lastSentSessionListVersion == 0 && m_out == []
    {
      m_manager, m_greeterStdout, m_dead, m_lastSentSessionListVersion, m_out := manager, greeterStdout, false, 0, [];
    }

    method AskForPassword()
      modifies this`m_out
      ensures m_out == old(m_out) + [GetPassword]
    {
      m_out := m_out + [GetPassword];
    }

    method AskForCredentials()
      modifies this`m_out
      ensures m_out == old(m_out) + [GetCredentials]
    {
      m_out := m_out + [GetCredentials];
    }

    method ShowErrorMessage()
      modifies this`m_out
      ensures m_out == old(m_out) + [ShowError]
    {
      m_out := m_out + [ShowError];
    }

    /** The count and the lines agree as long as no other thread interferes. */
    method SendSessions()
      requires m_manager.Valid()
      modifies this`m_out
      ensures
        var lines := VisibleLines(m_manager.m_xvncs, m_manager.m_nextId);
        m_out == old(m_out) + [SessionList(|lines|, lines)]
    {
      var sessions, last := m_manager.m_xvncs, m_manager.m_nextId;
      var count := 0;
      for id := 0 to last
        invariant count == |VisibleLines(sessions, id)|
      {
        if id in sessions {
          if sessions[id].m_visible {
            count := count + 1;
          }
        }
      }
      var lines := [];
      for id := 0 to last
        invariant lines == VisibleLines(sessions, id)
      {
        if id in sessions {
          if sessions[id].m_visible {
            lines := lines + [Line(id, sessions[id].m_sessionUsername, sessions[id].m_desktopName)];
          }
        }
      }
      m_out := m_out + [SessionList(count, lines)];
    }

    /** The list is sent again exactly when the version moved since it was last
        sent; the version is remembered before the list is read. */
    method Update() returns (alive: bool)
      requires m_manager.Valid()
      modifies this`m_lastSentSessionListVersion, this`m_out
      ensures alive <==> !m_dead
      ensures
        var version, lines := m_manager.m_sessionListVersion, VisibleLines(m_manager.m_xvncs, m_manager.m_nextId);
        if m_dead || old(m_lastSentSessionListVersion) >= version
        then m_out == old(m_out) && m_lastSentSessionListVersion == old(m_lastSentSessionListVersion)
        else m_out == old(m_out) + [SessionList(|lines|, lines)] && m_lastSentSessionListVersion == version
    {
      if m_dead {
        return false;
      }
      var currentSessionListVersion := m_manager.m_sessionListVersion;
      if m_lastSentSessionListVersion < currentSessionListVersion {
        m_lastSentSessionListVersion := currentSessionListVersion;
        SendSessions();
      }
      return true;
    }
  }
}
