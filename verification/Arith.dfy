/** Numbers, and numbers as lists of bits with the lowest first. */
module Arith {
  import opened Seqs

  function Min(a: nat, b: nat): nat { if a < b then a else b }

  lemma MulMono(x: nat, y: nat, p: nat)
    ensures x <= y ==> x * p <= y * p
  {
    if x <= y {
      assert (y - x) * p >= 0;
    }
  }

  function Pow2(n: nat): (p: nat)
    ensures p > 0
  {
    if n == 0 then 1 else 2 * Pow2(n - 1)
  }

  lemma ByteWidth()
    ensures Pow2(8) == 256
  {
    assert Pow2(4) == 16;
  }

  lemma HalfQuotient(n: nat, b: nat)
    requires b > 0
    ensures n / 2 / b == n / (2 * b)
  {
    var q, r := n / 2 / b, n / 2 % b;
    assert n / 2 == b * q + r;
    assert n == q * (2 * b) + (2 * r + n % 2);
    DivModUnique(q, 2 * r + n % 2, 2 * b);
  }

  lemma DivModUnique(i: nat, r: nat, a: nat)
    requires r < a
    ensures (i * a + r) / a == i && (i * a + r) % a == r
  {
    var n := i * a + r;
    assert n / a * a + n % a == n;
    MulMono(n / a + 1, i, a);
    MulMono(i + 1, n / a, a);
  }

  function Falses(n: nat): (s: seq<bool>)
    ensures |s| == n && forall i :: 0 <= i < n ==> !s[i]
  {
    seq(n, _ => false)
  }

  /** The low `k` bits of a number. */
  function BitsOf(v: nat, k: nat): (s: seq<bool>)
    ensures |s| == k
  {
    if k == 0 then [] else [v % 2 == 1] + BitsOf(v / 2, k - 1)
  }

  /** The number with these bits. */
  function Val(q: seq<bool>): nat {
    if q == [] then 0 else (if q[0] then 1 else 0) + 2 * Val(q[1..])
  }

  lemma {:induction false} ValBits(v: nat, k: nat)
    requires v < Pow2(k)
    ensures Val(BitsOf(v, k)) == v
  {
    if k > 0 {
      ValBits(v / 2, k - 1);
      assert BitsOf(v, k)[1..] == BitsOf(v / 2, k - 1);
    }
  }

  lemma {:induction false} BitsVal(q: seq<bool>)
    ensures Val(q) < Pow2(|q|) && BitsOf(Val(q), |q|) == q
  {
    if q != [] {
      BitsVal(q[1..]);
      Uncons(q);
    }
  }

  lemma {:induction false} BitsZero(k: nat)
    ensures BitsOf(0, k) == Falses(k)
  {
    if k > 0 {
      BitsZero(k - 1);
    }
  }

  lemma {:induction false} BitsPad(q: seq<bool>, k: nat)
    requires |q| <= k
    ensures BitsOf(Val(q), k) == q + Falses(k - |q|)
  {
    if q == [] {
      BitsZero(k);
    } else {
      BitsPad(q[1..], k - 1);
      HeadTail(q, Falses(k - |q|));
    }
  }
}
