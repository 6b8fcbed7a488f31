/** One-block bitmaps: `bm_set`, `bm_clr`, `bm_get`, and the first-fit scans that use them. */
module Bitmap {
  import opened Arith
  import opened Bytes

  /** (b >> j) & 1 */
  predicate BitOf(b: nat, j: nat)
    decreases j
  {
    if j == 0 then b % 2 == 1 else BitOf(b / 2, j - 1)
  }

  /** b | (1 << j) */
  function OrBit(b: nat, j: nat): nat
    decreases j
  {
    if j == 0 then b / 2 * 2 + 1 else OrBit(b / 2, j - 1) * 2 + b % 2
  }

  /** b & ~(1 << j) */
  function AndNotBit(b: nat, j: nat): nat
    decreases j
  {
    if j == 0 then b / 2 * 2 else AndNotBit(b / 2, j - 1) * 2 + b % 2
  }

  lemma {:induction false} OrBitBits(b: nat, j: nat, i: nat)
    ensures BitOf(OrBit(b, j), i) <==> i == j || BitOf(b, i)
    decreases j
  {
    if j > 0 && i > 0 {
      OrBitBits(b / 2, j - 1, i - 1);
    }
  }

  lemma {:induction false} AndNotBitBits(b: nat, j: nat, i: nat)
    ensures BitOf(AndNotBit(b, j), i) <==> i != j && BitOf(b, i)
    decreases j
  {
    if j > 0 && i > 0 {
      AndNotBitBits(b / 2, j - 1, i - 1);
    }
  }

  lemma {:induction false} StaysInWidth(b: nat, j: nat, n: nat)
    requires b < Pow2(n) && j < n
    ensures OrBit(b, j) < Pow2(n) && AndNotBit(b, j) < Pow2(n)
    decreases n
  {
    if j > 0 {
      StaysInWidth(b / 2, j - 1, n - 1);
    }
  }

  lemma {:induction false} BitOfIs(b: nat, j: nat)
    ensures BitOf(b, j) <==> b / Pow2(j) % 2 == 1
    decreases j
  {
    if j > 0 {
      BitOfIs(b / 2, j - 1);
      HalfQuotient(b, Pow2(j - 1));
    }
  }

  /** The bits of a bitmap buffer. */
  predicate Bit(bm: seq<byte>, k: nat)
    requires k < 8 * |bm|
  {
    BitOf(bm[k / 8], k % 8)
  }

  /** The marked bits below `n`. */
  function Marked(bm: seq<byte>, n: nat): set<nat>
    requires n <= 8 * |bm|
  {
    set k: nat | k < n && Bit(bm, k)
  }

  /** `bm_set` */
  function SetBit(bm: seq<byte>, k: nat): (r: seq<byte>)
    requires k < 8 * |bm|
    ensures |r| == |bm|
  {
    ByteWidth();
    StaysInWidth(bm[k / 8], k % 8, 8);
    bm[k / 8 := OrBit(bm[k / 8], k % 8)]
  }

  /** `bm_clr` */
  function ClearBit(bm: seq<byte>, k: nat): (r: seq<byte>)
    requires k < 8 * |bm|
    ensures |r| == |bm|
  {
    ByteWidth();
    StaysInWidth(bm[k / 8], k % 8, 8);
    bm[k / 8 := AndNotBit(bm[k / 8], k % 8)]
  }

  lemma SetBitBits(bm: seq<byte>, k: nat, i: nat)
    requires k < 8 * |bm| && i < 8 * |bm|
    ensures Bit(SetBit(bm, k), i) <==> i == k || Bit(bm, i)
  {
    OrBitBits(bm[k / 8], k % 8, i % 8);
  }

  lemma ClearBitBits(bm: seq<byte>, k: nat, i: nat)
    requires k < 8 * |bm| && i < 8 * |bm|
    ensures Bit(ClearBit(bm, k), i) <==> i != k && Bit(bm, i)
  {
    AndNotBitBits(bm[k / 8], k % 8, i % 8);
  }

  /** Setting a bit adds it to the marked set and nothing else. */
  lemma MarkedSet(bm: seq<byte>, k: nat, n: nat)
    requires k < n <= 8 * |bm|
    ensures Marked(SetBit(bm, k), n) == Marked(bm, n) + {k}
  {
    forall i: nat | i < n
      ensures i in Marked(SetBit(bm, k), n) <==> i in Marked(bm, n) + {k}
    {
      SetBitBits(bm, k, i);
    }
  }

  lemma MarkedClear(bm: seq<byte>, k: nat, n: nat)
    requires k < n <= 8 * |bm|
    ensures Marked(ClearBit(bm, k), n) == Marked(bm, n) - {k}
  {
    forall i: nat | i < n
      ensures i in Marked(ClearBit(bm, k), n) <==> i in Marked(bm, n) - {k}
    {
      ClearBitBits(bm, k, i);
    }
  }

  lemma {:induction false} ZeroBits(j: nat)
    ensures !BitOf(0, j)
  {
    if j > 0 {
      ZeroBits(j - 1);
    }
  }

  lemma MarkedZeros(len: nat, n: nat)
    requires n <= 8 * len
    ensures Marked(Zeros(len), n) == {}
  {
    forall i: nat | i < n
      ensures !Bit(Zeros(len), i)
    {
      ZeroBits(i % 8);
    }
  }

  /**
   First fit, as `alloc_block` (bits 23 to tb - 1) and `alloc_inode` (bits 11 to 127) search:
   marks and returns the lowest clear bit of lo..hi, or leaves the bitmap alone when there is none.
   */
  method AllocBit(bm: seq<byte>, lo: nat, hi: nat) returns (r: Option<nat>, bm': seq<byte>)
    requires hi <= 8 * |bm|
    ensures r.None? <==> forall k: nat :: lo <= k < hi ==> k in Marked(bm, hi)
    ensures r.None? ==> bm' == bm
    ensures r.Some? ==> lo <= r.value < hi && r.value !in Marked(bm, hi) && bm' == SetBit(bm, r.value)
    ensures r.Some? ==> forall k: nat :: lo <= k < r.value ==> k in Marked(bm, hi)
  {
    var bit := lo;
    while bit < hi
      invariant lo <= bit && (bit <= hi || bit == lo)
      invariant forall k: nat :: lo <= k < bit && k < hi ==> k in Marked(bm, hi)
    {
      if !Bit(bm, bit) {
        assert bit !in Marked(bm, hi);
        return Some(bit), SetBit(bm, bit);
      }
      bit := bit + 1;
    }
    return None, bm;
  }
}
