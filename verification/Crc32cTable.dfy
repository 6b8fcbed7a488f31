/** The generator of the tables of `crc32c.c`: row 0 by halving, the other rows each from the one before. */
module Crc32cTable {
  import opened Arith
  import opened Crc32c

  // Multiples of a power of two.

  predicate Multiple(x: nat, e: nat) {
    e == 0 || (x % 2 == 0 && Multiple(x / 2, e - 1))
  }

  lemma {:induction false} MultipleZero(e: nat)
    ensures Multiple(0, e)
  {
    if e > 0 {
      MultipleZero(e - 1);
    }
  }

  /** The next multiple. */
  lemma {:induction false} MultipleNext(x: nat, e: nat)
    requires Multiple(x, e)
    ensures Multiple(x + Pow2(e), e)
  {
    if e > 0 {
      MultipleNext(x / 2, e - 1);
      assert (x + Pow2(e)) / 2 == x / 2 + Pow2(e - 1);
    }
  }

  lemma {:induction false} MultipleGap(x: nat, y: nat, e: nat)
    requires Multiple(x, e) && Multiple(y, e) && x < y
    ensures x + Pow2(e) <= y
  {
    if e > 0 {
      MultipleGap(x / 2, y / 2, e - 1);
    }
  }

  lemma {:induction false} PowerMultiple(k: nat, e: nat)
    requires e <= k
    ensures Multiple(Pow2(k), e)
  {
    if e > 0 {
      PowerMultiple(k - 1, e - 1);
    }
  }

  /** A multiple of `Pow2(e)` is one of twice that, or `Pow2(e)` after one. */
  lemma {:induction false} MultipleSplit(x: nat, e: nat)
    requires Multiple(x, e) && !Multiple(x, e + 1)
    ensures x >= Pow2(e) && Multiple(x - Pow2(e), e + 1)
  {
    if e > 0 {
      MultipleSplit(x / 2, e - 1);
      assert (x - Pow2(e)) / 2 == x / 2 - Pow2(e - 1);
    }
  }

  lemma {:induction false} Coarser(x: nat, e: nat)
    requires Multiple(x, e + 1)
    ensures Multiple(x, e)
  {
    if e > 0 {
      Coarser(x / 2, e - 1);
    }
  }

  lemma Between(x: nat, e: nat, j: nat)
    requires Multiple(x, e) && !Multiple(x, e + 1) && Multiple(j, e + 1)
    requires Pow2(e) + j <= x < Pow2(e) + j + Pow2(e + 1)
    ensures x == Pow2(e) + j
  {
    MultipleSplit(x, e);
    if j < x - Pow2(e) {
      MultipleGap(j, x - Pow2(e), e + 1);
    }
  }

  // The sums of the powers of two, and what the step makes of them.

  lemma {:induction false} PowerPlus(e: nat, x: nat, n: nat)
    requires Multiple(x, e + 1)
    ensures forall t :: 0 <= t < n ==>
      BitsOf(Pow2(e) + x, n)[t] == (BitsOf(Pow2(e), n)[t] != BitsOf(x, n)[t])
  {
    if n > 0 {
      if e > 0 {
        PowerPlus(e - 1, x / 2, n - 1);
        assert (Pow2(e) + x) / 2 == Pow2(e - 1) + x / 2;
      } else {
        assert (1 + x) / 2 == x / 2;
        BitsZero(n - 1);
      }
    }
  }

  lemma SumOfWords(e: nat, x: nat)
    requires Multiple(x, e + 1)
    ensures WordOf(Pow2(e) + x) == Xor(WordOf(Pow2(e)), WordOf(x))
  {
    PowerPlus(e, x, 32);
    assert WordOf(Pow2(e) + x).bits == Xor(WordOf(Pow2(e)), WordOf(x)).bits;
  }

  lemma {:induction false} PowerBits(e: nat, n: nat)
    ensures forall t :: 0 <= t < n ==> BitsOf(Pow2(e), n)[t] == (t == e)
  {
    if n > 0 {
      if e > 0 {
        PowerBits(e - 1, n - 1);
      } else {
        BitsZero(n - 1);
      }
    }
  }

  /** Entry `x` of row 0 of a table that takes `k` bits. */
  function Entry(p: Word, k: nat, x: nat): Word {
    Bits(p, k, WordOf(x))
  }

  lemma LoneBit(e: nat)
    requires e < 32
    ensures forall t :: 0 <= t < 32 ==> WordOf(Pow2(e)).bits[t] == (t == e)
    ensures Shr(WordOf(Pow2(e)), e) == WordOf(1)
  {
    PowerBits(e, 32);
    PowerBits(0, 32);
    assert Pow2(0) == 1;
    assert Shr(WordOf(Pow2(e)), e).bits == WordOf(1).bits;
  }

  lemma ShiftFirst(p: Word, w: Word, e: nat, k: nat)
    requires e <= k && e < 32 && forall t :: 0 <= t < e ==> !w.bits[t]
    ensures Bits(p, k, w) == Bits(p, k - e, Shr(w, e))
  {
    BitsHigh(p, e, w);
    BitsAdd(p, k - e, e, w);
  }

  /** The step takes a lone bit `e` down to bit 0 in `e` turns. */
  lemma PowerDown(p: Word, e: nat, k: nat)
    requires e <= k && e < 32
    ensures Entry(p, k, Pow2(e)) == Entry(p, k - e, 1)
  {
    LoneBit(e);
    ShiftFirst(p, WordOf(Pow2(e)), e, k);
  }

  lemma BitAfter(p: Word, n: nat, c: Word)
    ensures Bit(p, Bits(p, n, c)) == Bits(p, n + 1, c)
  {
    BitsAdd(p, 1, n, c);
    assert Bits(p, 1, Bits(p, n, c)) == Bit(p, Bits(p, n, c));
  }

  lemma {:induction false} BitsOfZero(p: Word, n: nat)
    ensures Bits(p, n, ZERO) == ZERO
  {
    if n > 0 {
      assert Bit(p, ZERO).bits == ZERO.bits;
      BitsOfZero(p, n - 1);
    }
  }

  lemma EntryZero(p: Word, k: nat)
    ensures Entry(p, k, 0) == ZERO
  {
    BitsZero(32);
    BitsOfZero(p, k);
  }

  lemma EntrySum(p: Word, k: nat, e: nat, x: nat)
    requires Multiple(x, e + 1)
    ensures Entry(p, k, Pow2(e) + x) == Xor(Entry(p, k, Pow2(e)), Entry(p, k, x))
  {
    SumOfWords(e, x);
    BitsLinear(p, k, WordOf(Pow2(e)), WordOf(x));
  }

  /** The low byte as a number, to index a table with. */
  method LowByte(c: Word) returns (i: nat)
    ensures i < 256 && WordOf(i) == Low(c, 8)
  {
    i := Val(c.bits[..8]);
    BitsVal(c.bits[..8]);
    ByteWidth();
    BitsPad(c.bits[..8], 32);
    assert WordOf(i).bits == Low(c, 8).bits;
  }

  /** Row 0 holds what it should at the multiples of `Pow2(e)` that are below `end` or multiples of twice that. */
  ghost predicate Filled(p: Word, k: nat, tab: array2<Word>, e: nat, end: nat)
    requires tab.Length0 >= 1 && tab.Length1 >= Pow2(k)
    reads tab
  {
    forall x: nat :: x < Pow2(k) && Multiple(x, e) && (Multiple(x, e + 1) || x < end) ==> tab[0, x] == Entry(p, k, x)
  }

  /** One turn of the halving loop: the entries halfway between those there are. */
  method Halve(p: Word, ghost k: nat, size: nat, tab: array2<Word>, ghost e: nat, i: nat, crc: Word)
    requires tab.Length0 >= 1 && tab.Length1 >= size == Pow2(k) && e < k && i == Pow2(e)
    requires crc == Entry(p, k, i) && Filled(p, k, tab, e, i)
    modifies tab
    ensures Filled(p, k, tab, e, i + size)
  {
    var j := 0;
    MultipleZero(e + 1);
    PowerMultiple(k, e + 1);
    while j < size
      invariant j <= size && Multiple(j, e + 1)
      invariant Filled(p, k, tab, e, i + j)
    {
      MultipleGap(j, size, e + 1);
      Coarser(j, e);
      EntrySum(p, k, e, j);
      tab[0, i + j] := Xor(crc, tab[0, j]);
      forall x: nat | x < size && Multiple(x, e) && !Multiple(x, e + 1) && i + j <= x < i + j + 2 * i
        ensures x == i + j
      {
        Between(x, e, j);
      }
      MultipleNext(j, e + 1);
      j := j + 2 * i;
    }
  }

  ghost predicate Complete(p: Word, k: nat, tab: array2<Word>, e: nat)
    requires tab.Length0 >= 1 && tab.Length1 >= Pow2(k)
    reads tab
  {
    forall x: nat :: x < Pow2(k) && Multiple(x, e) ==> tab[0, x] == Entry(p, k, x)
  }

  /** Below `Pow2(e)` the only multiple of it is 0. */
  lemma OnlyZero(x: nat, e: nat)
    requires Multiple(x, e) && x < Pow2(e)
    ensures x == 0
  {
    if x > 0 {
      MultipleZero(e);
      MultipleGap(0, x, e);
    }
  }

  lemma StartTurn(p: Word, k: nat, tab: array2<Word>, e: nat)
    requires tab.Length0 >= 1 && tab.Length1 >= Pow2(k) && Complete(p, k, tab, e + 1)
    ensures Filled(p, k, tab, e, Pow2(e))
  {
    MultipleZero(e + 1);
    forall x: nat | Multiple(x, e) && x < Pow2(e)
      ensures x == 0
    {
      OnlyZero(x, e);
    }
  }

  /** Row 0. */
  method FirstRow(p: Word, ghost k: nat, size: nat, tab: array2<Word>)
    requires 0 < k <= 32 && tab.Length0 >= 1 && tab.Length1 >= size == Pow2(k)
    modifies tab
    ensures Complete(p, k, tab, 0)
  {
    tab[0, 0] := ZERO;
    var crc := WordOf(1);
    var i := size / 2;
    ghost var e: int := k - 1;
    EntryZero(p, k);
    forall x: nat | Multiple(x, k) && x < size
      ensures x == 0
    {
      OnlyZero(x, k);
    }
    while i != 0
      invariant -1 <= e < k && i == (if e < 0 then 0 else Pow2(e))
      invariant crc == Entry(p, k - 1 - e, 1)
      invariant Complete(p, k, tab, e + 1)
    {
      BitAfter(p, k - 1 - e, WordOf(1));
      crc := Bit(p, crc);
      PowerDown(p, e, k);
      StartTurn(p, k, tab, e);
      Halve(p, k, size, tab, e, i, crc);
      i := i / 2;
      e := e - 1;
    }
  }

  /** Column `x` of the rows after row 0. */
  method Column(p: Word, tab: array2<Word>, x: nat)
    requires tab.Length0 >= 1 && x < tab.Length1 == 256
    requires forall y: nat :: y < 256 ==> tab[0, y] == Tab(p, 0, WordOf(y))
    modifies tab
    ensures forall j: nat :: j < tab.Length0 ==> tab[j, x] == Tab(p, j, WordOf(x))
    ensures forall j: nat, y: nat :: j < tab.Length0 && y < 256 && y != x ==> tab[j, y] == old(tab[j, y])
  {
    var crc := tab[0, x];
    for j := 1 to tab.Length0
      invariant crc == Tab(p, j - 1, WordOf(x))
      invariant forall y: nat :: y < 256 ==> tab[0, y] == Tab(p, 0, WordOf(y))
      invariant forall i: nat :: i < j ==> tab[i, x] == Tab(p, i, WordOf(x))
      invariant forall i: nat, y: nat :: i < tab.Length0 && y < 256 && y != x ==> tab[i, y] == old(tab[i, y])
    {
      TabRow(p, j - 1, WordOf(x));
      var low := LowByte(crc);
      crc := Xor(tab[0, low], Shr(crc, 8));
      tab[j, x] := crc;
    }
  }

  /**
   `crc32cinit_le`, for a sum that takes `bits` at a time: every entry is what the one-bit definition makes of its
   index, so the tables hold what the variants above look up.
   */
  method InitTable(p: Word, bits: nat) returns (tab: array2<Word>)
    requires bits in {1, 2, 4, 8, 32, 64}
    ensures fresh(tab) && tab.Length0 == (if bits > 8 then bits / 8 else 1) && tab.Length1 == 256
    ensures bits < 8 ==> forall x: nat :: x < Pow2(bits) ==> tab[0, x] == Bits(p, bits, WordOf(x))
    ensures bits >= 8 ==> forall j: nat, x: nat :: j < tab.Length0 && x < 256 ==> tab[j, x] == Tab(p, j, WordOf(x))
  {
    tab := new Word[if bits > 8 then bits / 8 else 1, 256];
    ByteWidth();
    if bits < 8 {
      FirstRow(p, bits, Pow2(bits), tab);
    } else {
      FirstRow(p, 8, 256, tab);
      for x := 0 to 256
        invariant forall y: nat :: y < 256 ==> tab[0, y] == Tab(p, 0, WordOf(y))
        invariant forall j: nat, y: nat :: j < tab.Length0 && y < x ==> tab[j, y] == Tab(p, j, WordOf(y))
      {
        Column(p, tab, x);
      }
    }
  }
}
