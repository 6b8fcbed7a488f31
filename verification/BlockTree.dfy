/**
 The tree of block pointers of a block-mapped inode, as values: what a walk finds, which blocks hold
 pointers, and what rewriting one pointer does.
 */
module BlockTree {
  import opened Arith
  import opened Seqs

  /** Each block as the array of block numbers that it holds as an indirect block. */
  type Disk = seq<seq<nat>>

  predicate DiskOk(disk: Disk, a: nat) {
    a > 0 && forall b :: 0 <= b < |disk| ==> |disk[b]| == a
  }

  /** Places in the pointer blocks on the way down. */
  predicate PathOk(path: seq<nat>, a: nat) {
    forall i :: 0 <= i < |path| ==> path[i] < a
  }

  /** Follows the path down from pointer `b`; 0 is a hole. */
  function Walk(disk: Disk, a: nat, b: nat, path: seq<nat>): nat
    requires DiskOk(disk, a) && PathOk(path, a)
    decreases |path|
  {
    if path == [] || b == 0 then b
    else if b >= |disk| then 0
    else Walk(disk, a, disk[b][path[0]], path[1..])
  }

  /** All pointers to indirect blocks in a tree of depth `d` are absent or lie on the disk. */
  predicate TreeOk(disk: Disk, a: nat, first: nat, b: nat, d: nat)
    requires DiskOk(disk, a)
    decreases d
  {
    d == 0 || b == 0 || (first <= b < |disk| && forall i :: 0 <= i < a ==> TreeOk(disk, a, first, disk[b][i], d - 1))
  }

  /** `w` is one of the indirect blocks of the tree under `b`. */
  predicate IsNode(disk: Disk, a: nat, b: nat, d: nat, w: nat)
    requires DiskOk(disk, a)
    decreases d
  {
    d > 0 && b != 0 && b < |disk| && (w == b || exists i :: 0 <= i < a && IsNode(disk, a, disk[b][i], d - 1, w))
  }

  ghost predicate Apart(disk: Disk, a: nat, b: nat, d: nat, c: nat, e: nat)
    requires DiskOk(disk, a)
  {
    forall w :: IsNode(disk, a, b, d, w) ==> !IsNode(disk, a, c, e, w)
  }

  /** No block is an indirect block in two places of the tree. */
  ghost predicate NoSharing(disk: Disk, a: nat, b: nat, d: nat)
    requires DiskOk(disk, a)
    decreases d
  {
    d == 0 || b == 0 || b >= |disk| || (
      && (forall i :: 0 <= i < a ==> !IsNode(disk, a, disk[b][i], d - 1, b) && NoSharing(disk, a, disk[b][i], d - 1))
      && (forall i, j :: 0 <= i < a && 0 <= j < a && i != j ==> Apart(disk, a, disk[b][i], d - 1, disk[b][j], d - 1)))
  }

  /** The disk with pointer `k` of block `w` set to `v`. */
  function SetPtr(disk: Disk, a: nat, w: nat, k: nat, v: nat): (r: Disk)
    requires DiskOk(disk, a) && w < |disk| && k < a
    ensures DiskOk(r, a) && |r| == |disk|
  {
    var ptrs: seq<nat> := disk[w][k := v];
    disk[w := ptrs]
  }

  /** The block whose pointer ends the path, or 0 if the way to it has a hole or leaves the disk. */
  function Holder(disk: Disk, a: nat, b: nat, path: seq<nat>): nat
    requires DiskOk(disk, a) && PathOk(path, a) && path != []
    decreases |path|
  {
    if b == 0 || b >= |disk| then 0
    else if |path| == 1 then b
    else Holder(disk, a, disk[b][path[0]], path[1..])
  }

  lemma {:induction false} HolderIsNode(disk: Disk, a: nat, b: nat, path: seq<nat>)
    requires DiskOk(disk, a) && PathOk(path, a) && path != [] && Holder(disk, a, b, path) != 0
    ensures Holder(disk, a, b, path) < |disk| && IsNode(disk, a, b, |path|, Holder(disk, a, b, path))
    decreases |path|
  {
    if |path| > 1 {
      HolderIsNode(disk, a, disk[b][path[0]], path[1..]);
    }
  }

  /** A walk ends at the pointer that its holder has, or in a hole. */
  lemma {:induction false} WalkHolder(disk: Disk, a: nat, b: nat, path: seq<nat>)
    requires DiskOk(disk, a) && PathOk(path, a) && path != []
    ensures var w := Holder(disk, a, b, path);
            Walk(disk, a, b, path) == if w == 0 || w >= |disk| then 0 else disk[w][path[|path| - 1]]
    decreases |path|
  {
    if b != 0 && b < |disk| && |path| > 1 {
      WalkHolder(disk, a, disk[b][path[0]], path[1..]);
    }
  }

  /** The path meets no pointer that leaves the disk. */
  predicate Reaches(disk: Disk, a: nat, b: nat, path: seq<nat>)
    requires DiskOk(disk, a) && PathOk(path, a)
    decreases |path|
  {
    path == [] || b == 0 || (b < |disk| && Reaches(disk, a, disk[b][path[0]], path[1..]))
  }

  lemma {:induction false} WalkLost(disk: Disk, a: nat, b: nat, path: seq<nat>)
    requires DiskOk(disk, a) && PathOk(path, a) && !Reaches(disk, a, b, path)
    ensures Walk(disk, a, b, path) == 0
    decreases |path|
  {
    if b < |disk| {
      WalkLost(disk, a, disk[b][path[0]], path[1..]);
    }
  }

  /** The last step of a walk. */
  lemma {:induction false} WalkSnoc(disk: Disk, a: nat, b: nat, path: seq<nat>, k: nat)
    requires DiskOk(disk, a) && PathOk(path, a) && k < a
    ensures var c, longer := Walk(disk, a, b, path), path + [k];
            && Walk(disk, a, b, longer) == (if c == 0 || c >= |disk| then 0 else disk[c][k])
            && Holder(disk, a, b, longer) == (if c == 0 || c >= |disk| then 0 else c)
            && (Reaches(disk, a, b, longer) <==> Reaches(disk, a, b, path) && (c == 0 || c < |disk|))
    decreases |path|
  {
    var longer := path + [k];
    if path == [] {
      assert longer[1..] == [];
    } else if b != 0 && b < |disk| {
      assert longer[1..] == path[1..] + [k];
      WalkSnoc(disk, a, disk[b][path[0]], path[1..], k);
    }
  }

  /** Rewriting a block outside a tree does not change what walks of the tree find. */
  lemma {:induction false} WalkFrame(disk: Disk, a: nat, w: nat, k: nat, v: nat, b: nat, path: seq<nat>)
    requires DiskOk(disk, a) && w < |disk| && k < a && PathOk(path, a) && !IsNode(disk, a, b, |path|, w)
    ensures Walk(SetPtr(disk, a, w, k, v), a, b, path) == Walk(disk, a, b, path)
    decreases |path|
  {
    if path != [] && b != 0 && b < |disk| {
      assert path[0] < a;
      WalkFrame(disk, a, w, k, v, disk[b][path[0]], path[1..]);
    }
  }

  /** Setting the pointer that ends a path sets the block at that path and at no other. */
  lemma {:induction false} WalkSet(disk: Disk, a: nat, b: nat, path: seq<nat>, v: nat, other: seq<nat>)
    requires DiskOk(disk, a) && PathOk(path, a) && PathOk(other, a) && |path| == |other| > 0
    requires NoSharing(disk, a, b, |path|) && Holder(disk, a, b, path) != 0
    ensures var w := Holder(disk, a, b, path);
            && w < |disk|
            && Walk(SetPtr(disk, a, w, path[|path| - 1], v), a, b, other) ==
                 if other == path then v else Walk(disk, a, b, other)
    decreases |path|
  {
    HolderIsNode(disk, a, b, path);
    var w, k := Holder(disk, a, b, path), path[|path| - 1];
    var disk' := SetPtr(disk, a, w, k, v);
    if |path| > 1 {
      var c := disk[b][path[0]];
      HolderIsNode(disk, a, c, path[1..]);
      assert disk'[b] == disk[b];
      Uncons(path);
      Uncons(other);
      if other[0] == path[0] {
        WalkSet(disk, a, c, path[1..], v, other[1..]);
      } else {
        assert Apart(disk, a, c, |path| - 1, disk[b][other[0]], |path| - 1);
        WalkFrame(disk, a, w, k, v, disk[b][other[0]], other[1..]);
      }
    }
  }

  /** Rewriting a block outside a tree keeps the blocks of the tree. */
  lemma {:induction false} NodeFrame(disk: Disk, a: nat, w: nat, k: nat, v: nat, b: nat, d: nat, x: nat)
    requires DiskOk(disk, a) && w < |disk| && k < a && !IsNode(disk, a, b, d, w)
    ensures IsNode(SetPtr(disk, a, w, k, v), a, b, d, x) <==> IsNode(disk, a, b, d, x)
    decreases d
  {
    if d > 0 && b != 0 && b < |disk| {
      assert SetPtr(disk, a, w, k, v)[b] == disk[b];
      forall i | 0 <= i < a
        ensures IsNode(SetPtr(disk, a, w, k, v), a, disk[b][i], d - 1, x) <==> IsNode(disk, a, disk[b][i], d - 1, x)
      {
        NodeFrame(disk, a, w, k, v, disk[b][i], d - 1, x);
      }
    }
  }

  /** So does setting a pointer to a data block. */
  lemma {:induction false} NodeSet(disk: Disk, a: nat, b: nat, path: seq<nat>, v: nat, x: nat)
    requires DiskOk(disk, a) && PathOk(path, a) && |path| > 0
    requires NoSharing(disk, a, b, |path|) && Holder(disk, a, b, path) != 0
    ensures var w := Holder(disk, a, b, path);
            w < |disk| && (IsNode(SetPtr(disk, a, w, path[|path| - 1], v), a, b, |path|, x) <==>
              IsNode(disk, a, b, |path|, x))
    decreases |path|
  {
    HolderIsNode(disk, a, b, path);
    var w, k, d := Holder(disk, a, b, path), path[|path| - 1], |path|;
    var disk' := SetPtr(disk, a, w, k, v);
    if d > 1 {
      HolderIsNode(disk, a, disk[b][path[0]], path[1..]);
      assert disk'[b] == disk[b];
      forall i | 0 <= i < a
        ensures IsNode(disk', a, disk[b][i], d - 1, x) <==> IsNode(disk, a, disk[b][i], d - 1, x)
      {
        if i == path[0] {
          NodeSet(disk, a, disk[b][i], path[1..], v, x);
        } else {
          assert Apart(disk, a, disk[b][path[0]], d - 1, disk[b][i], d - 1);
          NodeFrame(disk, a, w, k, v, disk[b][i], d - 1, x);
        }
      }
    }
  }

  ghost predicate SameNodes(disk: Disk, disk': Disk, a: nat, b: nat, d: nat)
    requires DiskOk(disk, a) && DiskOk(disk', a)
  {
    forall x :: IsNode(disk', a, b, d, x) <==> IsNode(disk, a, b, d, x)
  }

  lemma SharingStep(disk: Disk, disk': Disk, a: nat, b: nat, d: nat)
    requires DiskOk(disk, a) && DiskOk(disk', a) && |disk'| == |disk| && NoSharing(disk, a, b, d)
    requires d > 0 && 0 < b < |disk| && disk'[b] == disk[b]
    requires forall i :: 0 <= i < a ==>
      SameNodes(disk, disk', a, disk[b][i], d - 1) && NoSharing(disk', a, disk[b][i], d - 1)
    ensures NoSharing(disk', a, b, d)
  {
    forall i | 0 <= i < a
      ensures !IsNode(disk', a, disk[b][i], d - 1, b)
    {
      assert SameNodes(disk, disk', a, disk[b][i], d - 1);
    }
    forall i, j | 0 <= i < a && 0 <= j < a && i != j
      ensures Apart(disk', a, disk[b][i], d - 1, disk[b][j], d - 1)
    {
      assert Apart(disk, a, disk[b][i], d - 1, disk[b][j], d - 1);
      assert SameNodes(disk, disk', a, disk[b][i], d - 1) && SameNodes(disk, disk', a, disk[b][j], d - 1);
    }
  }

  lemma {:induction false} SharingFrame(disk: Disk, a: nat, w: nat, k: nat, v: nat, b: nat, d: nat)
    requires DiskOk(disk, a) && w < |disk| && k < a && !IsNode(disk, a, b, d, w) && NoSharing(disk, a, b, d)
    ensures NoSharing(SetPtr(disk, a, w, k, v), a, b, d) && SameNodes(disk, SetPtr(disk, a, w, k, v), a, b, d)
    decreases d
  {
    var disk' := SetPtr(disk, a, w, k, v);
    forall x ensures IsNode(disk', a, b, d, x) <==> IsNode(disk, a, b, d, x) {
      NodeFrame(disk, a, w, k, v, b, d, x);
    }
    if d > 0 && b != 0 && b < |disk| {
      forall i | 0 <= i < a
        ensures SameNodes(disk, disk', a, disk[b][i], d - 1) && NoSharing(disk', a, disk[b][i], d - 1)
      {
        SharingFrame(disk, a, w, k, v, disk[b][i], d - 1);
      }
      SharingStep(disk, disk', a, b, d);
    }
  }

  /** Setting a pointer to a data block keeps the tree free of sharing, and its blocks the same. */
  lemma {:induction false} SharingSet(disk: Disk, a: nat, b: nat, path: seq<nat>, v: nat)
    requires DiskOk(disk, a) && PathOk(path, a) && |path| > 0
    requires NoSharing(disk, a, b, |path|) && Holder(disk, a, b, path) != 0
    ensures var w := Holder(disk, a, b, path);
            && w < |disk|
            && NoSharing(SetPtr(disk, a, w, path[|path| - 1], v), a, b, |path|)
            && SameNodes(disk, SetPtr(disk, a, w, path[|path| - 1], v), a, b, |path|)
    decreases |path|
  {
    HolderIsNode(disk, a, b, path);
    var w, k, d := Holder(disk, a, b, path), path[|path| - 1], |path|;
    var disk' := SetPtr(disk, a, w, k, v);
    forall x ensures IsNode(disk', a, b, d, x) <==> IsNode(disk, a, b, d, x) {
      NodeSet(disk, a, b, path, v, x);
    }
    if d == 1 {
      assert NoSharing(disk', a, b, 1);
    } else {
      HolderIsNode(disk, a, disk[b][path[0]], path[1..]);
      assert disk'[b] == disk[b];
      forall i | 0 <= i < a
        ensures SameNodes(disk, disk', a, disk[b][i], d - 1) && NoSharing(disk', a, disk[b][i], d - 1)
      {
        if i == path[0] {
          SharingSet(disk, a, disk[b][i], path[1..], v);
        } else {
          assert Apart(disk, a, disk[b][path[0]], d - 1, disk[b][i], d - 1);
          SharingFrame(disk, a, w, k, v, disk[b][i], d - 1);
        }
      }
      SharingStep(disk, disk', a, b, d);
    }
  }

  // Numbers as paths. Product, quotient and remainder are spelled out by repeated addition, so that the
  // proofs stay linear; `TimesIs` and `QuotRemIs` relate them to the operators.

  function Times(x: nat, y: nat): nat {
    if x == 0 then 0 else Times(x - 1, y) + y
  }

  function Quot(n: nat, a: nat): nat
    requires a > 0
  {
    if n < a then 0 else Quot(n - a, a) + 1
  }

  function Rem(n: nat, a: nat): (r: nat)
    requires a > 0
    ensures r < a
  {
    if n < a then n else Rem(n - a, a)
  }

  /** The number of blocks that a tree of depth `d` with `a` pointers a block can map. */
  function Pow(a: nat, d: nat): nat {
    if d == 0 then 1 else Times(Pow(a, d - 1), a)
  }

  /** The path to the n-th block of a tree of depth `d`: the digits of n to base `a`. */
  function Digits(a: nat, d: nat, n: nat): (path: seq<nat>)
    requires a > 0
    ensures |path| == d && PathOk(path, a)
  {
    if d == 0 then [] else Digits(a, d - 1, Quot(n, a)) + [Rem(n, a)]
  }

  lemma {:induction false} TimesIs(x: nat, y: nat)
    ensures Times(x, y) == x * y
  {
    if x > 0 {
      TimesIs(x - 1, y);
    }
  }

  lemma TimesComm(x: nat, y: nat)
    ensures Times(x, y) == Times(y, x)
  {
    TimesIs(x, y);
    TimesIs(y, x);
  }

  lemma {:induction false} QuotRem(n: nat, a: nat)
    requires a > 0
    ensures n == Times(Quot(n, a), a) + Rem(n, a)
  {
    if n >= a {
      QuotRem(n - a, a);
    }
  }

  lemma QuotRemIs(n: nat, a: nat)
    requires a > 0
    ensures Quot(n, a) == n / a && Rem(n, a) == n % a
  {
    QuotRem(n, a);
    TimesIs(Quot(n, a), a);
    DivModUnique(Quot(n, a), Rem(n, a), a);
  }

  lemma {:induction false} QuotTimes(q: nat, m: nat, a: nat)
    requires a > 0
    ensures Quot(Times(q, a) + m, a) == q + Quot(m, a) && Rem(Times(q, a) + m, a) == Rem(m, a)
  {
    if q > 0 {
      QuotTimes(q - 1, m, a);
    }
  }

  lemma {:induction false} QuotLess(n: nat, a: nat, p: nat)
    requires a > 0 && n < Times(p, a)
    ensures Quot(n, a) < p
  {
    if n >= a {
      QuotLess(n - a, a, p - 1);
    }
  }

  lemma {:induction false} QuotShift(i: nat, q: nat, a: nat, r: nat)
    requires a > 0
    ensures Quot(Times(i, Times(q, a)) + r, a) == Times(i, q) + Quot(r, a)
    ensures Rem(Times(i, Times(q, a)) + r, a) == Rem(r, a)
  {
    if i > 0 {
      var m := Times(i - 1, Times(q, a)) + r;
      QuotShift(i - 1, q, a, r);
      QuotTimes(q, m, a);
    }
  }

  lemma SnocDiffer<T>(s: seq<T>, x: T, t: seq<T>, y: T)
    requires |s| == |t| && (s != t || x != y)
    ensures s + [x] != t + [y]
  {
    assert (s + [x])[|s|] == x && (t + [y])[|t|] == y;
    assert (s + [x])[..|s|] == s && (t + [y])[..|t|] == t;
  }

  /** Different numbers have different paths. */
  lemma {:induction false} DigitsInjective(a: nat, d: nat, n: nat, m: nat)
    requires a > 0 && n < Pow(a, d) && m < Pow(a, d) && n != m
    ensures Digits(a, d, n) != Digits(a, d, m)
  {
    if d > 0 {
      QuotLess(n, a, Pow(a, d - 1));
      QuotLess(m, a, Pow(a, d - 1));
      QuotRem(n, a);
      QuotRem(m, a);
      if Quot(n, a) != Quot(m, a) {
        DigitsInjective(a, d - 1, Quot(n, a), Quot(m, a));
      }
      SnocDiffer(Digits(a, d - 1, Quot(n, a)), Rem(n, a), Digits(a, d - 1, Quot(m, a)), Rem(m, a));
    }
  }

  /** The i-th subtree holds the numbers from i times its size on. */
  lemma {:induction false} DigitsOfChild(a: nat, d: nat, i: nat, r: nat, n: nat)
    requires a > 0 && d > 0 && i < a && r < Pow(a, d - 1) && n == Times(i, Pow(a, d - 1)) + r
    ensures Digits(a, d, n) == [i] + Digits(a, d - 1, r)
  {
    if d == 1 {
      TimesIs(i, 1);
      assert Digits(a, 0, Quot(n, a)) == [] && Digits(a, 0, r) == [];
    } else {
      var q, x, y := Pow(a, d - 2), Quot(r, a), Rem(r, a);
      QuotShift(i, q, a, r);
      QuotLess(r, a, q);
      DigitsOfChild(a, d - 1, i, x, Quot(n, a));
      Assoc([i], Digits(a, d - 2, x), [y]);
    }
  }
}
