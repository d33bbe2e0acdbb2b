/** FdStream.cpp and Stream.cpp: byte streams over a socket that may transfer
    less than it is asked to. */
module Streams {
  import opened Bytes
  import opened Failures

  const CHUNK := 4096

  /** b is a with some octets taken off the front. */
  ghost predicate Suffix(b: bytes, a: bytes) {
    |b| <= |a| && a[|a| - |b|..] == b
  }

  /** `after` is `before` followed by the first octets of `data`. */
  ghost predicate SentPartOf(before: bytes, after: bytes, data: bytes) {
    before <= after && after[|before|..] <= data
  }

  class FdStream {
    var m_fd: int

    /** What the peer has sent or will send before it closes, not yet received. */
    var incoming: bytes

    /** What has been handed to the kernel for the peer. */
    var outgoing: bytes

    constructor (fd: int, peer: bytes)
      ensures m_fd == fd && incoming == peer && outgoing == []
    {
      m_fd, incoming, outgoing := fd, peer, [];
    }

    /** ::recv blocks until it can deliver at least one octet, and returns 0 only
        when the peer has closed. Any failure is reported as -1. */
    method SysRecv(buf: array<byte>, at: nat, len: nat) returns (ret: int)
      requires at + len <= buf.Length && len > 0
      modifies this`incoming, buf
      ensures -1 <= ret <= len && ret <= |old(incoming)|
      ensures ret == 0 ==> old(incoming) == []
      ensures ret <= 0 ==> incoming == old(incoming) && buf[..] == old(buf[..])
      ensures ret > 0 ==> incoming == old(incoming)[ret..]
      ensures ret > 0 ==> buf[..] == old(buf[..at]) + old(incoming)[..ret] + old(buf[at + ret..])
    {
      var fails: bool := *;
      if fails {
        return -1;
      }
      if |incoming| == 0 {
        return 0;
      }
      ret :| 1 <= ret <= len && ret <= |incoming|;
      forall k | 0 <= k < ret {
        buf[at + k] := incoming[k];
      }
      incoming := incoming[ret..];
    }

    /** ::send accepts between one and len octets, or fails. */
    method SysSend(buf: array<byte>, at: nat, len: nat) returns (ret: int)
      requires at + len <= buf.Length && len > 0
      modifies this`outgoing
      ensures ret <= len
      ensures ret <= 0 ==> outgoing == old(outgoing)
      ensures ret > 0 ==> outgoing == old(outgoing) + buf[at..at + ret]
    {
      var fails: bool := *;
      if fails {
        return -1;
      }
      ret :| 1 <= ret <= len;
      outgoing := outgoing + buf[at..at + ret];
    }

    /** FdStream::recv into buf + at: exactly len octets, or an exception. */
    method Recv(buf: array<byte>, at: nat, len: nat) returns (r: Result<Unit>)
      requires m_fd != -1 && at + len <= buf.Length
      modifies this`incoming, buf
      ensures r.Success? ==>
                && len <= |old(incoming)| && incoming == old(incoming)[len..]
                && buf[..] == old(buf[..at]) + old(incoming)[..len] + old(buf[at + len..])
      ensures r.Failure? ==> r.error == Errno || (r.error == Eof && |old(incoming)| < len)
      ensures Suffix(incoming, old(incoming))
    {
      ghost var was, start := buf[..], incoming;
      var ptr: nat, left: nat := at, len;
      while left > 0
        invariant ptr + left == at + len && at <= ptr
        invariant ptr - at <= |start| && incoming == start[ptr - at..]
        invariant buf[..] == was[..at] + start[..ptr - at] + was[ptr..]
        decreases left
      {
        var ret := SysRecv(buf, ptr, left);
        if ret == 0 {
          return Failure(Eof);
        }
        if ret < 0 {
          return Failure(Errno);
        }
        assert start[..ptr - at] + start[ptr - at..][..ret] == start[..ptr - at + ret];
        ptr, left := ptr + ret, left - ret;
      }
      return Success(Unit);
    }

    /** FdStream::send: all len octets in order, or an exception after a prefix. */
    method Send(buf: array<byte>, len: nat) returns (r: Result<Unit>)
      requires m_fd != -1 && len <= buf.Length
      modifies this`outgoing
      ensures r.Success? ==> outgoing == old(outgoing) + buf[..len]
      ensures r.Failure? ==> r.error == Errno && SentPartOf(old(outgoing), outgoing, buf[..len])
    {
      ghost var start := outgoing;
      var ptr: nat, left: nat := 0, len;
      while left > 0
        invariant ptr + left == len
        invariant outgoing == start + buf[..ptr]
        decreases left
      {
        var ret := SysSend(buf, ptr, left);
        if ret <= 0 {
          return Failure(Errno);
        }
        assert start + buf[..ptr] + buf[ptr..ptr + ret] == start + buf[..ptr + ret];
        ptr, left := ptr + ret, left - ret;
      }
      return Success(Unit);
    }

    /** Stream::forward: through a buffer that also keeps the octets. */
    method Forward(output: FdStream, buf: array<byte>, len: nat) returns (r: Result<Unit>)
      requires m_fd != -1 && output.m_fd != -1 && len <= buf.Length
      modifies this`incoming, output`outgoing, buf
      ensures r.Success? ==>
                && len <= |old(incoming)| && incoming == old(incoming)[len..]
                && output.outgoing == old(output.outgoing) + old(incoming)[..len]
                && buf[..len] == old(incoming)[..len]
      ensures r.Failure? ==> r.error == Errno || (r.error == Eof && |old(incoming)| < len)
      ensures r.Failure? ==> SentPartOf(old(output.outgoing), output.outgoing, old(incoming))
    {
      var _ :- Recv(buf, 0, len);
      assert buf[..len] == old(incoming)[..len];
      r := output.Send(buf, len);
    }

    /** Stream::forward_directly: any number of octets through one 4096-octet
        buffer, chunk by chunk. */
    method ForwardDirectly(output: FdStream, length: nat) returns (r: Result<Unit>)
      requires m_fd != -1 && output.m_fd != -1
      modifies this`incoming, output`outgoing
      ensures r.Success? ==>
                && length <= |old(incoming)| && incoming == old(incoming)[length..]
                && output.outgoing == old(output.outgoing) + old(incoming)[..length]
      ensures r.Failure? ==> r.error == Errno || (r.error == Eof && |old(incoming)| < length)
      ensures r.Failure? ==> SentPartOf(old(output.outgoing), output.outgoing, old(incoming))
    {
      var buffer := new byte[CHUNK];
      var len: nat := length;
      ghost var start, sent: nat := incoming, 0;
      while true
        invariant sent + len == length && sent <= |start|
        invariant incoming == start[sent..]
        invariant output.outgoing == old(output.outgoing) + start[..sent]
        decreases len
      {
        var chunk: nat := if len <= CHUNK then len else CHUNK;
        var moved := Forward(output, buffer, chunk);
        if moved.Failure? {
          PartAfterWhole(old(output.outgoing), start, sent, output.outgoing);
          return moved;
        }
        assert start[..sent] + start[sent..][..chunk] == start[..sent + chunk];
        sent := sent + chunk;
        if len <= CHUNK {
          break;
        }
        len := len - CHUNK;
      }
      return Success(Unit);
    }

    /** FdStream::takeFd */
    method TakeFd() returns (fd: int)
      modifies this`m_fd
      ensures fd == old(m_fd) && m_fd == -1
    {
      fd := m_fd;
      m_fd := -1;
    }
  }

  lemma PartAfterWhole(before: bytes, data: bytes, sent: nat, after: bytes)
    requires sent <= |data|
    requires SentPartOf(before + data[..sent], after, data[sent..])
    ensures SentPartOf(before, after, data)
  {
  }
}
