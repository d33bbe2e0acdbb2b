/** Octets and the fixed-width integers of the RFB wire format.

    RFB sends every multi-byte integer most significant byte first
    (section 7 of RFC 6143); the `Put` functions are what `hton` followed by a
    raw send produces, the `Get` functions what a raw receive followed by
    `ntoh` reads back (StreamFormatter.h). */
module Bytes {

  type byte = n: int | 0 <= n < 0x100
  type bytes = seq<byte>

  type u16 = n: int | 0 <= n < 0x1_0000
  type u32 = n: int | 0 <= n < 0x1_0000_0000
  type s32 = n: int | -0x8000_0000 <= n < 0x8000_0000

  const U16_MAX: u16 := 0xFFFF
  const INT_MAX := 0x7FFF_FFFF

  function GetU16(b: bytes): u16
    requires |b| == 2
  {
    var high: int, low: int := b[0], b[1];
    high * 0x100 + low
  }

  function PutU16(v: u16): (b: bytes)
    ensures |b| == 2 && GetU16(b) == v
  {
    [v / 0x100, v % 0x100]
  }

  lemma PutGetU16(b: bytes)
    requires |b| == 2
    ensures PutU16(GetU16(b)) == b
  {
  }

  function GetU32(b: bytes): u32
    requires |b| == 4
  {
    var high: int, low: int := GetU16(b[..2]), GetU16(b[2..]);
    high * 0x1_0000 + low
  }

  function PutU32(v: u32): (b: bytes)
    ensures |b| == 4 && GetU32(b) == v
  {
    var high, low := PutU16(v / 0x1_0000), PutU16(v % 0x1_0000);
    CutPrefix(high, low);
    high + low
  }

  lemma PutGetU32(b: bytes)
    requires |b| == 4
    ensures PutU32(GetU32(b)) == b
  {
    PutGetU16(b[..2]);
    PutGetU16(b[2..]);
  }

  /** Two's complement reading of a 32-bit word. */
  function ToSigned(v: u32): s32 {
    if v <= INT_MAX then v else v - 0x1_0000_0000
  }

  function ToUnsigned(v: s32): (u: u32)
    ensures ToSigned(u) == v
  {
    if v >= 0 then v else v + 0x1_0000_0000
  }

  function Times(a: nat, b: nat): nat {
    a * b
  }

  /** Sequence bookkeeping used wherever a message is cut off the front of a stream. */
  lemma CutPrefix<T>(a: seq<T>, b: seq<T>)
    ensures (a + b)[..|a|] == a && (a + b)[|a|..] == b
  {
  }
}
