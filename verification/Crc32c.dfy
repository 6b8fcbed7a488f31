/**
 CRC32C of `crc32c.c` (the polynomial of section 12.1 of RFC 3720): the one-bit definition and the table
 driven variants that take 2, 4, 8, 32 or 64 bits at a time. Words are their bits, the lowest first.
 */
module Crc32c {
  import opened Arith
  import opened Seqs

  datatype Register = Register(bits: seq<bool>)

  type Word = w: Register | |w.bits| == 32 witness Register(Falses(32))

  type Byte = b: seq<bool> | |b| == 8 witness Falses(8)

  const ZERO: Word := Register(Falses(32))

  /** The word with the bits of a number. */
  function WordOf(n: nat): Word {
    Register(BitsOf(n, 32))
  }

  /** The CRC32C polynomial. What follows holds for any polynomial `p`. */
  const POLY: Word := WordOf(0x82F6_3B78)

  function Xor(a: Word, b: Word): Word {
    Register(seq(32, i requires 0 <= i < 32 => a.bits[i] != b.bits[i]))
  }

  function Shr(a: Word, k: nat): Word {
    Register(seq(32, i requires 0 <= i < 32 => i + k < 32 && a.bits[i + k]))
  }

  /** The low `k` bits. */
  function Low(a: Word, k: nat): Word {
    Register(seq(32, i requires 0 <= i < 32 => i < k && a.bits[i]))
  }

  function High(a: Word, k: nat): Word {
    Register(seq(32, i requires 0 <= i < 32 => i >= k && a.bits[i]))
  }

  /** A byte at bit `k` of a word. */
  function At(b: Byte, k: nat): Word {
    Register(seq(32, i requires 0 <= i < 32 => k <= i < k + 8 && b[i - k]))
  }

  lemma XorSwap(a: Word, b: Word, c: Word, d: Word)
    ensures Xor(Xor(a, b), Xor(c, d)) == Xor(Xor(a, c), Xor(b, d))
  {
    assert Xor(Xor(a, b), Xor(c, d)).bits == Xor(Xor(a, c), Xor(b, d)).bits;
  }

  lemma XorZero(a: Word)
    ensures Xor(a, ZERO) == a && Xor(ZERO, a) == a && Xor(a, a) == ZERO
  {
    assert Xor(a, ZERO).bits == a.bits && Xor(ZERO, a).bits == a.bits && Xor(a, a).bits == ZERO.bits;
  }

  lemma ShrXor(a: Word, b: Word, k: nat)
    ensures Shr(Xor(a, b), k) == Xor(Shr(a, k), Shr(b, k))
  {
    assert Shr(Xor(a, b), k).bits == Xor(Shr(a, k), Shr(b, k)).bits;
  }

  lemma ShrShr(a: Word, j: nat, k: nat)
    ensures Shr(Shr(a, j), k) == Shr(a, j + k)
  {
    assert Shr(Shr(a, j), k).bits == Shr(a, j + k).bits;
  }

  lemma LowHigh(a: Word, k: nat)
    ensures Xor(High(a, k), Low(a, k)) == a && Shr(High(a, k), k) == Shr(a, k)
  {
    assert Xor(High(a, k), Low(a, k)).bits == a.bits && Shr(High(a, k), k).bits == Shr(a, k).bits;
  }

  function Tap(p: Word, c: Word): Word {
    if c.bits[0] then p else ZERO
  }

  function Bit(p: Word, c: Word): Word {
    Xor(Shr(c, 1), Tap(p, c))
  }

  /** `n` bits, one at a time. */
  function Bits(p: Word, n: nat, c: Word): Word {
    if n == 0 then c else Bits(p, n - 1, Bit(p, c))
  }

  function Crc(p: Word, c: Word, s: seq<Byte>): Word {
    if s == [] then c else Bits(p, 8, Xor(Crc(p, c, s[..|s| - 1]), At(s[|s| - 1], 0)))
  }

  /** The sum over two pieces is that over the second with the sum over the first as seed. */
  lemma {:induction false} CrcConcat(p: Word, c: Word, s: seq<Byte>, t: seq<Byte>)
    ensures Crc(p, c, s + t) == Crc(p, Crc(p, c, s), t)
  {
    if t == [] {
      assert s + t == s;
    } else {
      assert (s + t)[..|s + t| - 1] == s + t[..|t| - 1];
      CrcConcat(p, c, s, t[..|t| - 1]);
    }
  }

  lemma BitLinear(p: Word, x: Word, y: Word)
    ensures Bit(p, Xor(x, y)) == Xor(Bit(p, x), Bit(p, y))
  {
    ShrXor(x, y, 1);
    XorSwap(Shr(x, 1), Shr(y, 1), Tap(p, x), Tap(p, y));
    XorZero(p);
    XorZero(ZERO);
    assert Tap(p, Xor(x, y)) == Xor(Tap(p, x), Tap(p, y));
  }

  lemma {:induction false} BitsLinear(p: Word, n: nat, x: Word, y: Word)
    ensures Bits(p, n, Xor(x, y)) == Xor(Bits(p, n, x), Bits(p, n, y))
  {
    if n > 0 {
      BitLinear(p, x, y);
      BitsLinear(p, n - 1, Bit(p, x), Bit(p, y));
    }
  }

  lemma {:induction false} BitsAdd(p: Word, m: nat, n: nat, c: Word)
    ensures Bits(p, m + n, c) == Bits(p, m, Bits(p, n, c))
    decreases n
  {
    if n > 0 {
      BitsAdd(p, m, n - 1, Bit(p, c));
    }
  }

  /** Zero bits are only shifted out. */
  lemma {:induction false} BitsHigh(p: Word, n: nat, c: Word)
    requires n <= 32 && forall i :: 0 <= i < n ==> !c.bits[i]
    ensures Bits(p, n, c) == Shr(c, n)
  {
    if n == 0 {
      assert Shr(c, 0).bits == c.bits;
    } else {
      XorZero(Shr(c, 1));
      BitsHigh(p, n - 1, Shr(c, 1));
      ShrShr(c, 1, n - 1);
    }
  }

  /** `n` bits at once: the low ones decide what is added to the rest. */
  lemma BitsAtOnce(p: Word, n: nat, c: Word)
    requires n <= 32
    ensures Bits(p, n, c) == Xor(Shr(c, n), Bits(p, n, Low(c, n)))
  {
    LowHigh(c, n);
    BitsLinear(p, n, High(c, n), Low(c, n));
    BitsHigh(p, n, High(c, n));
  }

  // The tables and the variants.

  /** Row `j` of the table: what the byte `i` adds when `j` more bytes follow it. */
  function Tab(p: Word, j: nat, i: Word): Word {
    Bits(p, 8 * (j + 1), i)
  }

  /** A byte at bit `k` is at bit 0 once `k` bits have been shifted out. */
  lemma BitsAt(p: Word, b: Byte, k: nat)
    requires k <= 24
    ensures Bits(p, k, At(b, k)) == At(b, 0)
  {
    BitsHigh(p, k, At(b, k));
    assert Shr(At(b, k), k).bits == At(b, 0).bits;
  }

  /** Adding a byte after `k` bits is adding it at bit `k` before them. */
  lemma Absorb(p: Word, k: nat, c: Word, b: Byte)
    requires k <= 24
    ensures Bits(p, 8, Xor(Bits(p, k, c), At(b, 0))) == Bits(p, 8 + k, Xor(c, At(b, k)))
  {
    BitsAt(p, b, k);
    BitsLinear(p, k, c, At(b, k));
    BitsAdd(p, 8, k, Xor(c, At(b, k)));
  }

  /** The word that four bytes make, the first lowest. */
  function Word4(b0: Byte, b1: Byte, b2: Byte, b3: Byte): Word {
    Register(b0 + b1 + b2 + b3)
  }

  lemma Word4Xor(c: Word, b0: Byte, b1: Byte, b2: Byte, b3: Byte)
    ensures Xor(Xor(Xor(Xor(c, At(b0, 0)), At(b1, 8)), At(b2, 16)), At(b3, 24)) == Xor(c, Word4(b0, b1, b2, b3))
  {
    var w := Word4(b0, b1, b2, b3);
    forall i | 0 <= i < 32
      ensures w.bits[i] == (if i < 8 then b0[i] else if i < 16 then b1[i - 8] else if i < 24 then b2[i - 16]
        else b3[i - 24])
    {
    }
    assert Xor(Xor(Xor(Xor(c, At(b0, 0)), At(b1, 8)), At(b2, 16)), At(b3, 24)).bits == Xor(c, w).bits;
  }

  lemma CrcStep(p: Word, c: Word, s: seq<Byte>, b: Byte)
    ensures Crc(p, c, s + [b]) == Bits(p, 8, Xor(Crc(p, c, s), At(b, 0)))
  {
    assert (s + [b])[..|s|] == s;
  }

  /** Four bytes at once. */
  lemma CrcWord(p: Word, c: Word, b0: Byte, b1: Byte, b2: Byte, b3: Byte)
    ensures Crc(p, c, [b0, b1, b2, b3]) == Bits(p, 32, Xor(c, Word4(b0, b1, b2, b3)))
  {
    var c1 := Xor(c, At(b0, 0));
    var c2 := Xor(c1, At(b1, 8));
    var c3 := Xor(c2, At(b2, 16));
    assert Crc(p, c, [b0]) == Bits(p, 8, c1) by { CrcStep(p, c, [], b0); assert [] + [b0] == [b0]; }
    assert Crc(p, c, [b0, b1]) == Bits(p, 16, c2) by {
      CrcStep(p, c, [b0], b1);
      assert [b0] + [b1] == [b0, b1];
      Absorb(p, 8, c1, b1);
    }
    assert Crc(p, c, [b0, b1, b2]) == Bits(p, 24, c3) by {
      CrcStep(p, c, [b0, b1], b2);
      assert [b0, b1] + [b2] == [b0, b1, b2];
      Absorb(p, 16, c2, b2);
    }
    CrcStep(p, c, [b0, b1, b2], b3);
    assert [b0, b1, b2] + [b3] == [b0, b1, b2, b3];
    Absorb(p, 24, c3, b3);
    Word4Xor(c, b0, b1, b2, b3);
  }

  /** Bits k..k+8 of a word, in place and as a table index. */
  function Piece(q: Word, k: nat): Word {
    Register(seq(32, i requires 0 <= i < 32 => k <= i < k + 8 && q.bits[i]))
  }

  function ByteOf(q: Word, k: nat): Word {
    Low(Shr(q, k), 8)
  }

  lemma Pieces(q: Word)
    ensures q == Xor(Xor(Xor(Piece(q, 0), Piece(q, 8)), Piece(q, 16)), Piece(q, 24))
  {
    assert q.bits == Xor(Xor(Xor(Piece(q, 0), Piece(q, 8)), Piece(q, 16)), Piece(q, 24)).bits;
  }

  lemma BitsPiece(p: Word, n: nat, q: Word, k: nat)
    requires k <= 24
    ensures Bits(p, n + k, Piece(q, k)) == Bits(p, n, ByteOf(q, k))
  {
    BitsAdd(p, n, k, Piece(q, k));
    BitsHigh(p, k, Piece(q, k));
    assert Shr(Piece(q, k), k).bits == ByteOf(q, k).bits;
  }

  /** What the four table look-ups of a word add up to, with `k` bytes to follow. */
  function Sliced(p: Word, k: nat, q: Word): Word {
    Xor(Xor(Xor(Tab(p, k + 3, ByteOf(q, 0)), Tab(p, k + 2, ByteOf(q, 8))), Tab(p, k + 1, ByteOf(q, 16))),
      Tab(p, k, ByteOf(q, 24)))
  }

  lemma Slice(p: Word, k: nat, q: Word)
    ensures Sliced(p, k, q) == Bits(p, 32 + 8 * k, q)
  {
    var n := 32 + 8 * k;
    var p0, p1, p2, p3 := Piece(q, 0), Piece(q, 8), Piece(q, 16), Piece(q, 24);
    assert Tab(p, k + 3, ByteOf(q, 0)) == Bits(p, n, p0) by { BitsPiece(p, n, q, 0); }
    assert Tab(p, k + 2, ByteOf(q, 8)) == Bits(p, n, p1) by { BitsPiece(p, n - 8, q, 8); }
    assert Tab(p, k + 1, ByteOf(q, 16)) == Bits(p, n, p2) by { BitsPiece(p, n - 16, q, 16); }
    assert Tab(p, k, ByteOf(q, 24)) == Bits(p, n, p3) by { BitsPiece(p, n - 24, q, 24); }
    BitsLinear(p, n, p0, p1);
    BitsLinear(p, n, Xor(p0, p1), p2);
    BitsLinear(p, n, Xor(Xor(p0, p1), p2), p3);
    Pieces(q);
  }

  /** `DO_CRC`: one byte through row 0. */
  method DoCrc(p: Word, crc: Word, x: Byte) returns (r: Word)
    ensures r == Crc(p, crc, [x])
  {
    r := Xor(Tab(p, 0, Low(Xor(crc, At(x, 0)), 8)), Shr(crc, 8));
    ByteStep(p, crc, x);
  }

  lemma ByteStep(p: Word, crc: Word, x: Byte)
    ensures Xor(Tab(p, 0, Low(Xor(crc, At(x, 0)), 8)), Shr(crc, 8)) == Crc(p, crc, [x])
  {
    var c := Xor(crc, At(x, 0));
    BitsAtOnce(p, 8, c);
    assert Shr(c, 8).bits == Shr(crc, 8).bits;
    XorComm(Tab(p, 0, Low(c, 8)), Shr(crc, 8));
    CrcStep(p, crc, [], x);
    assert [] + [x] == [x];
  }

  lemma XorComm(a: Word, b: Word)
    ensures Xor(a, b) == Xor(b, a)
  {
    assert Xor(a, b).bits == Xor(b, a).bits;
  }

  /** The body of the loop over 64-bit units. */
  method DoUnit8(p: Word, crc: Word, s: seq<Byte>) returns (r: Word)
    requires |s| == 8
    ensures r == Crc(p, crc, s)
  {
    var q := Xor(crc, Word4(s[0], s[1], s[2], s[3]));
    r := Sliced(p, 4, q);
    var q' := Word4(s[4], s[5], s[6], s[7]);
    r := Xor(r, Sliced(p, 0, q'));
    Unit8(p, crc, s, q, q');
  }

  lemma Unit8(p: Word, crc: Word, s: seq<Byte>, q: Word, q': Word)
    requires |s| == 8 && q == Xor(crc, Word4(s[0], s[1], s[2], s[3])) && q' == Word4(s[4], s[5], s[6], s[7])
    ensures Xor(Sliced(p, 4, q), Sliced(p, 0, q')) == Crc(p, crc, s)
  {
    var a, b := [s[0], s[1], s[2], s[3]], [s[4], s[5], s[6], s[7]];
    var c := Bits(p, 32, q);
    CrcWord(p, crc, s[0], s[1], s[2], s[3]);
    CrcWord(p, c, s[4], s[5], s[6], s[7]);
    assert Crc(p, crc, s) == Bits(p, 32, Xor(c, q')) by { CrcConcat(p, crc, a, b); assert a + b == s; }
    BitsLinear(p, 32, c, q');
    assert Sliced(p, 4, q) == Bits(p, 32, c) by { Slice(p, 4, q); BitsAdd(p, 32, 32, q); }
    Slice(p, 0, q');
  }

  /** The body of the loop over 32-bit units. */
  method DoUnit4(p: Word, crc: Word, s: seq<Byte>) returns (r: Word)
    requires |s| == 4
    ensures r == Crc(p, crc, s)
  {
    var q := Xor(crc, Word4(s[0], s[1], s[2], s[3]));
    r := Sliced(p, 0, q);
    Slice(p, 0, q);
    CrcWord(p, crc, s[0], s[1], s[2], s[3]);
    assert s == [s[0], s[1], s[2], s[3]];
  }

  lemma Advance(p: Word, crc: Word, buf: seq<Byte>, i: nat, j: nat)
    requires i <= j <= |buf|
    ensures Crc(p, Crc(p, crc, buf[..i]), buf[i..j]) == Crc(p, crc, buf[..j])
  {
    CrcConcat(p, crc, buf[..i], buf[i..j]);
    assert buf[..i] + buf[i..j] == buf[..j];
  }

  /** Bytes one by one, up to place `end`. */
  method DoBytes(p: Word, seed: Word, buf: seq<Byte>, crc: Word, from: nat, end: nat) returns (r: Word)
    requires from <= end <= |buf| && crc == Crc(p, seed, buf[..from])
    ensures r == Crc(p, seed, buf[..end])
  {
    r := crc;
    for i := from to end
      invariant r == Crc(p, seed, buf[..i])
    {
      r := NextByte(p, seed, buf, r, i);
    }
  }

  method NextByte(p: Word, seed: Word, buf: seq<Byte>, crc: Word, i: nat) returns (r: Word)
    requires i < |buf| && crc == Crc(p, seed, buf[..i])
    ensures r == Crc(p, seed, buf[..i + 1])
  {
    r := DoCrc(p, crc, buf[i]);
    Advance(p, seed, buf, i, i + 1);
    assert buf[i..i + 1] == [buf[i]];
  }

  /**
   `crc32_body`, for a buffer at any address: single bytes up to a multiple of four, then units of eight
   bytes (`wide`) or four, then the bytes that are left.
   */
  method Body(p: Word, seed: Word, buf: seq<Byte>, addr: nat, wide: bool) returns (r: Word)
    ensures r == Crc(p, seed, buf)
  {
    var i;
    r, i := Align(p, seed, buf, addr);
    var len := |buf| - i;
    var rem: nat, n: nat := if wide then len % 8 else len % 4, if wide then len / 8 else len / 4;
    while n > 0
      invariant i + (if wide then 8 * n else 4 * n) + rem == |buf| && r == Crc(p, seed, buf[..i])
    {
      r := NextUnit(p, seed, buf, r, i, wide);
      i, n := if wide then i + 8 else i + 4, n - 1;
    }
    r := DoBytes(p, seed, buf, r, i, |buf|);
    assert buf[..|buf|] == buf;
  }

  method Align(p: Word, seed: Word, buf: seq<Byte>, addr: nat) returns (r: Word, i: nat)
    ensures i <= |buf| && r == Crc(p, seed, buf[..i])
    ensures i == |buf| || (addr + i) % 4 == 0
  {
    r, i := seed, 0;
    var len := |buf|;
    assert buf[..0] == [];
    if addr % 4 != 0 && len > 0 {
      r := NextByte(p, seed, buf, r, 0);
      i, len := 1, len - 1;
      while len > 0 && (addr + i) % 4 != 0
        invariant i + len == |buf| && r == Crc(p, seed, buf[..i])
      {
        r := NextByte(p, seed, buf, r, i);
        i, len := i + 1, len - 1;
      }
    }
  }

  method NextUnit(p: Word, seed: Word, buf: seq<Byte>, crc: Word, i: nat, wide: bool) returns (r: Word)
    requires (if wide then i + 8 else i + 4) <= |buf| && crc == Crc(p, seed, buf[..i])
    ensures r == Crc(p, seed, buf[..if wide then i + 8 else i + 4])
  {
    if wide {
      r := DoUnit8(p, crc, buf[i..i + 8]);
      Advance(p, seed, buf, i, i + 8);
    } else {
      r := DoUnit4(p, crc, buf[i..i + 4]);
      Advance(p, seed, buf, i, i + 4);
    }
  }

  /** The variants of `crc32_le_generic` that take 1, 2, 4 or 8 bits of a byte at a time. */
  method Generic(p: Word, seed: Word, buf: seq<Byte>, k: nat) returns (r: Word)
    requires k in {1, 2, 4, 8}
    ensures r == Crc(p, seed, buf)
  {
    r := seed;
    assert buf[..0] == [];
    for i := 0 to |buf|
      invariant r == Crc(p, seed, buf[..i])
    {
      CrcStep(p, seed, buf[..i], buf[i]);
      assert buf[..i] + [buf[i]] == buf[..i + 1];
      r := GenericByte(p, Xor(r, At(buf[i], 0)), k);
    }
    assert buf[..|buf|] == buf;
  }

  method GenericByte(p: Word, c: Word, k: nat) returns (r: Word)
    requires k in {1, 2, 4, 8}
    ensures r == Bits(p, 8, c)
  {
    r := c;
    var done := 0;
    while done < 8
      invariant 0 <= done <= 8 && done % k == 0 && r == Bits(p, done, c)
    {
      BitsAdd(p, k, done, c);
      if k == 1 {
        assert Bits(p, 1, r) == Bit(p, r) by { assert Bits(p, 0, Bit(p, r)) == Bit(p, r); }
        r := Xor(Shr(r, 1), Tap(p, r));
      } else {
        BitsAtOnce(p, k, r);
        r := Xor(Shr(r, k), Bits(p, k, Low(r, k)));
      }
      done := done + k;
    }
  }

  /** How the table generator fills row `j` + 1 from row `j` and row 0. */
  lemma TabRow(p: Word, j: nat, i: Word)
    ensures var c := Tab(p, j, i); Tab(p, j + 1, i) == Xor(Tab(p, 0, Low(c, 8)), Shr(c, 8))
  {
    var c := Tab(p, j, i);
    BitsAdd(p, 8, 8 * (j + 1), i);
    BitsAtOnce(p, 8, c);
    XorComm(Tab(p, 0, Low(c, 8)), Shr(c, 8));
  }

  /** How it fills row 0: the entry of a sum is the sum of the entries, and entry 0 is 0. */
  lemma TabSum(p: Word, i: Word, j: Word)
    ensures Tab(p, 0, Xor(i, j)) == Xor(Tab(p, 0, i), Tab(p, 0, j)) && Tab(p, 0, ZERO) == ZERO
  {
    BitsLinear(p, 8, i, j);
    BitsHigh(p, 8, ZERO);
    assert Shr(ZERO, 8).bits == ZERO.bits;
  }

  /** The byte 0x80. */
  function TopBit(): Byte {
    Falses(7) + [true]
  }

  lemma LoneTopBit(c: Word)
    requires forall i :: 0 <= i < 32 ==> c.bits[i] == (i == 7)
    ensures forall i :: 0 <= i < 32 ==> Shr(c, 7).bits[i] == (i == 0)
  {
  }

  lemma LastBit(p: Word, c: Word)
    requires forall i :: 0 <= i < 32 ==> c.bits[i] == (i == 0)
    ensures Bits(p, 1, c) == p
  {
    assert Shr(c, 1).bits == ZERO.bits;
    XorZero(p);
    assert Bits(p, 0, Bit(p, c)) == p;
  }

  /** The sum over the byte 0x80 from seed 0 is the polynomial. */
  lemma TopBitSum(p: Word)
    ensures Crc(p, ZERO, [TopBit()]) == p
  {
    var c := Xor(ZERO, At(TopBit(), 0));
    LoneTopBit(c);
    BitsHigh(p, 7, c);
    BitsAdd(p, 1, 7, c);
    LastBit(p, Shr(c, 7));
    assert [TopBit()][..0] == [];
  }

  lemma ValueOf(w: Word, v: nat)
    requires w == WordOf(v) && v < Pow2(16) * Pow2(16)
    ensures Val(w.bits) == v
  {
    PowSum(16, 16);
    ValBits(v, 32);
  }

  lemma {:induction false} PowSum(m: nat, n: nat)
    ensures Pow2(m + n) == Pow2(m) * Pow2(n)
  {
    if m > 0 {
      PowSum(m - 1, n);
      assert 2 * (Pow2(m - 1) * Pow2(n)) == 2 * Pow2(m - 1) * Pow2(n);
    }
  }

  /** A check value of CRC32C, as a number: entry 128 of its table. */
  lemma CheckValue(p: Word, s: seq<Byte>, v: nat)
    requires p == POLY && s == [TopBit()] && v == 2197175160
    ensures Val(Crc(p, ZERO, s).bits) == v
  {
    TopBitSum(p);
    WordRange(v);
    PolyNumber(v);
    ValueOf(p, v);
  }

  lemma WordRange(v: nat)
    requires v < 0x1_0000_0000
    ensures v < Pow2(16) * Pow2(16)
  {
    PowSum(8, 8);
    ByteWidth();
  }

  lemma PolyNumber(v: nat)
    requires v == 2197175160
    ensures POLY == WordOf(v)
  {
  }

  /** `ext2fs_crc32c_le`, as built for any number of bits at a time. */
  method Crc32cLe(seed: Word, buf: seq<Byte>, addr: nat, bits: nat) returns (r: Word)
    requires bits in {1, 2, 4, 8, 32, 64}
    ensures r == Crc(POLY, seed, buf)
  {
    if bits <= 8 {
      r := Generic(POLY, seed, buf, bits);
    } else {
      r := Body(POLY, seed, buf, addr, bits == 64);
    }
  }

  /** A buffer in two pieces, wherever each of them lies: the sum over the first is the seed for the second. */
  method InPieces(seed: Word, s: seq<Byte>, addr: nat, t: seq<Byte>, addr': nat, bits: nat) returns (r: Word)
    requires bits in {1, 2, 4, 8, 32, 64}
    ensures r == Crc(POLY, seed, s + t)
  {
    r := Crc32cLe(seed, s, addr, bits);
    r := Crc32cLe(r, t, addr', bits);
    CrcConcat(POLY, seed, s, t);
  }
}
