/** StreamFormatter.cpp and the templates of StreamFormatter.h: a stream with a
    one-octet push-back buffer in front of it. The two together are one queue of
    pending octets, and every operation is exact on that queue. */
module StreamFormatters {
  import opened Bytes
  import opened Failures
  import opened Streams

  const BUFFER_MAX_SIZE: nat := 1

  class StreamFormatter {
    const stream: FdStream
    const buffer: array<byte>
    var bufferSize: nat

    ghost predicate Valid()
      reads this, stream
    {
      buffer.Length == BUFFER_MAX_SIZE && bufferSize <= BUFFER_MAX_SIZE && stream.m_fd != -1
    }

    /** What the next receive will deliver: the pushed-back octet, then the stream. */
    ghost function Pending(): bytes
      requires Valid()
      reads this, stream, buffer
    {
      buffer[..bufferSize] + stream.incoming
    }

    constructor (stream: FdStream)
      requires stream.m_fd != -1
      ensures Valid() && this.stream == stream && fresh(buffer)
      ensures bufferSize == 0 && Pending() == stream.incoming
    {
      this.stream := stream;
      buffer := new byte[BUFFER_MAX_SIZE];
      bufferSize := 0;
    }

    /** send and send_raw: the octets of a value, already in network order. */
    method Send(b: bytes) returns (r: Result<Unit>)
      requires Valid()
      modifies stream`outgoing
      ensures r.Success? ==> stream.outgoing == old(stream.outgoing) + b
      ensures r.Failure? ==> r.error == Errno && SentPartOf(old(stream.outgoing), stream.outgoing, b)
    {
      var value := new byte[|b|](i requires 0 <= i < |b| => b[i]);
      assert value[..] == b;
      r := stream.Send(value, |b|);
    }

    /** recv_raw: the buffered octet first, the rest from the stream. */
    method RecvRaw(buf: array<byte>, length: nat) returns (r: Result<Unit>)
      requires Valid() && length <= buf.Length && buf != buffer
      modifies this`bufferSize, stream`incoming, buf
      ensures Valid()
      ensures r.Success? ==>
                && length <= |old(Pending())| && Pending() == old(Pending())[length..]
                && buf[..length] == old(Pending())[..length]
                && (length > 0 ==> bufferSize == 0)
      ensures bufferSize <= old(bufferSize)
      ensures r.Failure? ==> r.error == Errno || (r.error == Eof && |old(Pending())| < length)
    {
      var at: nat, len: nat := 0, length;
      if bufferSize > 0 {
        var buffered: nat := if len < bufferSize then len else bufferSize;
        forall k | 0 <= k < buffered {
          buf[k] := buffer[k];
        }
        bufferSize, len, at := bufferSize - buffered, len - buffered, at + buffered;
      }
      if len > 0 {
        var _ :- stream.Recv(buf, at, len);
      }
      return Success(Unit);
    }

    /** recv: the octets of one value, for the caller to convert to host order. */
    method Recv(length: nat) returns (r: Result<bytes>)
      requires Valid()
      modifies this`bufferSize, stream`incoming
      ensures Valid()
      ensures r.Success? ==>
                && length <= |old(Pending())| && Pending() == old(Pending())[length..]
                && r.value == old(Pending())[..length]
                && (length > 0 ==> bufferSize == 0)
      ensures bufferSize <= old(bufferSize)
      ensures r.Failure? ==> r.error == Errno || (r.error == Eof && |old(Pending())| < length)
    {
      var value := new byte[length];
      var _ :- RecvRaw(value, length);
      return Success(value[..]);
    }

    /** forward_raw: through recv_raw while an octet is pushed back, and through
        the stream's own forward otherwise. */
    method ForwardRaw(output: FdStream, buf: array<byte>, length: nat) returns (r: Result<Unit>)
      requires Valid() && output.m_fd != -1 && length <= buf.Length && buf != buffer
      modifies this`bufferSize, stream`incoming, output`outgoing, buf
      ensures Valid()
      ensures r.Success? ==>
                && length <= |old(Pending())| && Pending() == old(Pending())[length..]
                && buf[..length] == old(Pending())[..length]
                && output.outgoing == old(output.outgoing) + old(Pending())[..length]
                && (length > 0 ==> bufferSize == 0)
      ensures bufferSize <= old(bufferSize)
      ensures r.Failure? ==> r.error == Errno || (r.error == Eof && |old(Pending())| < length)
    {
      if bufferSize > 0 {
        var _ :- RecvRaw(buf, length);
        r := output.Send(buf, length);
      } else {
        r := stream.Forward(output, buf, length);
      }
    }

    /** forward: pass a value on and keep its octets. */
    method Forward(output: FdStream, length: nat) returns (r: Result<bytes>)
      requires Valid() && output.m_fd != -1
      modifies this`bufferSize, stream`incoming, output`outgoing
      ensures Valid()
      ensures r.Success? ==>
                && length <= |old(Pending())| && Pending() == old(Pending())[length..]
                && r.value == old(Pending())[..length]
                && output.outgoing == old(output.outgoing) + old(Pending())[..length]
                && (length > 0 ==> bufferSize == 0)
      ensures bufferSize <= old(bufferSize)
      ensures r.Failure? ==> r.error == Errno || (r.error == Eof && |old(Pending())| < length)
    {
      var value := new byte[length];
      var _ :- ForwardRaw(output, value, length);
      return Success(value[..]);
    }

    /** forward_directly: pass octets on unseen. */
    method ForwardDirectly(output: FdStream, length: nat) returns (r: Result<Unit>)
      requires Valid() && output.m_fd != -1
      modifies this`bufferSize, stream`incoming, output`outgoing
      ensures Valid()
      ensures r.Success? ==>
                && length <= |old(Pending())| && Pending() == old(Pending())[length..]
                && output.outgoing == old(output.outgoing) + old(Pending())[..length]
                && (length > 0 ==> bufferSize == 0)
      ensures bufferSize <= old(bufferSize)
      ensures r.Failure? ==> r.error == Errno || (r.error == Eof && |old(Pending())| < length)
    {
      var len: nat := length;
      ghost var pending := Pending();
      if bufferSize > 0 {
        var buffered: nat := if len < bufferSize then len else bufferSize;
        var _ :- output.Send(buffer, buffered);
        bufferSize, len := bufferSize - buffered, len - buffered;
      }
      if len > 0 {
        var _ :- stream.ForwardDirectly(output, len);
      }
      return Success(Unit);
    }

    /** push_back: the octet becomes the first pending one, unless the buffer is
        already full. */
    method PushBack(t: byte) returns (r: Result<Unit>)
      requires Valid()
      modifies this`bufferSize, buffer
      ensures Valid()
      ensures old(bufferSize) == 0 ==> r.Success? && Pending() == [t] + old(Pending())
      ensures old(bufferSize) > 0 ==> r == Failure(PushBackOverflow) && Pending() == old(Pending())
    {
      if bufferSize + 1 > BUFFER_MAX_SIZE {
        return Failure(PushBackOverflow);
      }
      buffer[bufferSize] := t;
      bufferSize := bufferSize + 1;
      return Success(Unit);
    }
  }
}
