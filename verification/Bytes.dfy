/** Bytes, and the little-endian fields that the on-disk and package formats are made of. */
module Bytes {

  type byte = x: int | 0 <= x < 256

  /** A C string: its bytes without the terminating NUL, so no byte is zero. */
  type CStr = s: seq<byte> | 0 !in s

  const TWO32 := 0x1_0000_0000
  const TWO64 := 0x1_0000_0000_0000_0000

  datatype Option<+T> = None | Some(value: T)

  function Zeros(n: nat): seq<byte> {
    seq(n, _ => 0)
  }

  function Le16(v: nat): (s: seq<byte>)
    ensures |s| == 2
  {
    [v % 256, v / 256 % 256]
  }

  function Le32(v: nat): (s: seq<byte>)
    ensures |s| == 4
  {
    [v % 256, v / 256 % 256, v / 65536 % 256, v / 16777216 % 256]
  }

  function U16(s: seq<byte>, off: nat): nat
    requires off + 2 <= |s|
  {
    var lo: int, hi: int := s[off], s[off + 1];
    lo + 256 * hi
  }

  function U32(s: seq<byte>, off: nat): nat
    requires off + 4 <= |s|
  {
    var b0: int, b1: int, b2: int, b3: int := s[off], s[off + 1], s[off + 2], s[off + 3];
    b0 + 256 * b1 + 65536 * b2 + 16777216 * b3
  }

  function Le64(v: nat): (s: seq<byte>)
    ensures |s| == 8
  {
    Le32(v % TWO32) + Le32(v / TWO32)
  }

  function U64(s: seq<byte>, off: nat): nat
    requires off + 8 <= |s|
  {
    U32(s, off) + TWO32 * U32(s, off + 4)
  }

  /** Overwrites the bytes of `s` from `off` on with `t`: the model of a memcpy into a buffer. */
  function Patch(s: seq<byte>, off: nat, t: seq<byte>): (r: seq<byte>)
    requires off + |t| <= |s|
    ensures |r| == |s|
    ensures forall i :: 0 <= i < |s| ==> r[i] == if off <= i < off + |t| then t[i - off] else s[i]
  {
    s[..off] + t + s[off + |t|..]
  }

  lemma Le16RoundTrip(v: nat)
    requires v < 0x1_0000
    ensures U16(Le16(v), 0) == v
  {
  }

  lemma Le32RoundTrip(v: nat)
    requires v < 0x1_0000_0000
    ensures U32(Le32(v), 0) == v
  {
    var q1, q2, q3 := v / 256, v / 65536, v / 16777216;
    assert q1 / 256 == q2 && q2 / 256 == q3;
    assert v == 256 * q1 + v % 256 && q1 == 256 * q2 + q1 % 256 && q2 == 256 * q3 + q2 % 256;
  }

  lemma U16Patch(s: seq<byte>, off: nat, v: nat)
    requires off + 2 <= |s| && v < 0x1_0000
    ensures U16(Patch(s, off, Le16(v)), off) == v
  {
    Le16RoundTrip(v);
  }

  lemma U32Patch(s: seq<byte>, off: nat, v: nat)
    requires off + 4 <= |s| && v < 0x1_0000_0000
    ensures U32(Patch(s, off, Le32(v)), off) == v
  {
    Le32RoundTrip(v);
  }
}
