/** Byte buffers: little-endian fields in them, and copying into them in place. */
module Buffers {
  type byte = x: int | 0 <= x < 256
  type uint32 = x: int | 0 <= x < 0x1_0000_0000

  function U16(x: nat): (b: seq<byte>)
    ensures |b| == 2
  {
    [x % 256, (x / 256) % 256]
  }

  function FromU16(b: seq<byte>): (x: nat)
    requires |b| == 2
    ensures x < 65536
  {
    b[0] as int + 256 * b[1] as int
  }

  function U32(x: nat): (b: seq<byte>)
    ensures |b| == 4
  {
    U16(x % 65536) + U16((x / 65536) % 65536)
  }

  function FromU32(b: seq<byte>): uint32
    requires |b| == 4
  {
    FromU16(b[..2]) + 65536 * FromU16(b[2..])
  }

  lemma U16Truncates(x: nat)
    ensures FromU16(U16(x)) == x % 65536
  {
    assert x % 65536 == x % 256 + 256 * ((x / 256) % 256);
  }

  lemma U32RoundTrip(x: nat)
    requires x < 0x1_0000_0000
    ensures FromU32(U32(x)) == x
  {
    var lo, hi := x % 65536, x / 65536;
    U16Truncates(lo);
    U16Truncates(hi);
    assert U32(x)[..2] == U16(lo) && U32(x)[2..] == U16(hi);
  }

  lemma BytesRoundTrip(b: seq<byte>)
    requires |b| == 4
    ensures U32(FromU32(b)) == b
  {
    var lo, hi := FromU16(b[..2]), FromU16(b[2..]);
    assert FromU32(b) % 65536 == lo && FromU32(b) / 65536 == hi;
    assert U16(lo) == b[..2] && U16(hi) == b[2..];
  }

  /** A buffer whose first bytes have been overwritten. */
  function Overwrite(buffer: seq<byte>, front: seq<byte>): (r: seq<byte>)
    requires |front| <= |buffer|
    ensures |r| == |buffer|
  {
    front + buffer[|front|..]
  }

  /** memcpy into a buffer. */
  method Copy(buffer: array<byte>, at: nat, bytes: seq<byte>)
    requires at + |bytes| <= buffer.Length
    modifies buffer
    ensures buffer[..] == old(buffer[..at]) + bytes + old(buffer[at + |bytes|..])
  {
    var i := 0;
    while i < |bytes|
      invariant 0 <= i <= |bytes|
      invariant forall k :: 0 <= k < i ==> buffer[at + k] == bytes[k]
      invariant forall k :: 0 <= k < at || at + i <= k < buffer.Length ==> buffer[k] == old(buffer[k])
    {
      buffer[at + i] := bytes[i];
      i := i + 1;
    }
  }
}
