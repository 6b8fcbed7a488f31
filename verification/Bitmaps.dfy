/**
 The two bitmap implementations side by side: the bit array as `blkmap64_ba.c` offers it, and its
 agreement with the extent tree over every run of operations and every scan.
 */
module Bitmaps {
  import Arith
  import opened Bytes
  import opened Extents
  import opened ExtentRun
  import opened Scans
  import opened BitArray

  /** What a bitmap shows between its start and its end: callers never look at the padding behind. */
  ghost function Inside(m: Model): Model {
    m.(bits := iset n | n in m.bits && UpTo(m.end, n))
  }

  /** Operations on bits from start to end, and resizes to a whole number of bytes. */
  predicate Proper(op: Op, start: nat, end: nat) {
    match op
    case Mark(n) => start <= n <= end
    case Unmark(n) => start <= n <= end
    case Test(n) => start <= n <= end
    case MarkRange(n, num) => start <= n && n + num <= end + 1
    case UnmarkRange(n, num) => start <= n && n + num <= end + 1
    case Clear => true
    case Resize(newEnd, newRealEnd) => start <= newEnd <= newRealEnd
  }

  predicate Aligned(start: nat, realEnd: nat) {
    start <= realEnd && (realEnd + 1 - start) % 8 == 0
  }

  predicate EndOk(op: Op, start: nat) {
    op.Resize? ==> Aligned(start, op.newRealEnd)
  }

  function EndAfter(op: Op, end: nat): nat {
    if op.Resize? then op.newEnd else end
  }

  predicate AllProper(ops: seq<Op>, start: nat, end: nat) {
    ops != [] ==>
      Proper(ops[0], start, end) && EndOk(ops[0], start) && AllProper(ops[1..], start, EndAfter(ops[0], end))
  }

  /** What an operation does inside depends only on what is inside. */
  lemma InsideApply(op: Op, m: Model, m': Model)
    requires Inside(m) == Inside(m') && Proper(op, m.start, m.end)
    ensures Inside(Apply(op, m)) == Inside(Apply(op, m'))
    ensures !op.Unmark? ==> Answer(op, m) == Answer(op, m')
    ensures op.Unmark? ==> (op.n in m.bits <==> op.n in m'.bits)
  {
    assert forall n :: UpTo(m.end, n) ==> (n in m.bits <==> n in Inside(m).bits);
    assert forall n :: UpTo(m.end, n) ==> (n in m'.bits <==> n in Inside(m').bits);
    assert forall n :: n in Inside(Apply(op, m)).bits <==> n in Inside(Apply(op, m')).bits;
  }

  predicate OnFrom(start: nat, v: seq<byte>, n: nat) {
    n >= start && On(v, n - start)
  }

  ghost function BitsIn(start: nat, v: seq<byte>): iset<nat> {
    iset n: nat | OnFrom(start, v, n)
  }

  /** The bits that the bytes of the array hold: up to seven more than the allocated end says. */
  function Capacity(start: nat, realEnd: nat): nat
    requires start <= realEnd
  {
    8 * ((realEnd - start) / 8 + 1)
  }

  predicate Dropped(m: Model, newEnd: nat, n: nat) {
    m.end < n <= Arith.Min(m.realEnd, newEnd)
  }

  /** What resizing the array does: the bits from the old end to the new or the allocated end are cleared. */
  ghost function ArrayResized(m: Model, newEnd: nat, newRealEnd: nat): Model
    requires m.start <= newRealEnd
  {
    Model(m.start, newEnd, newRealEnd,
          iset n | n in m.bits && !Dropped(m, newEnd, n) && n < m.start + Capacity(m.start, newRealEnd))
  }

  /** Which bits survive, in numbers. */
  lemma ArrayResizedIs(m: Model, newEnd: nat, newRealEnd: nat, b: nat)
    requires m.start <= newRealEnd
    ensures b in ArrayResized(m, newEnd, newRealEnd).bits <==>
      b in m.bits && !(m.end < b <= newEnd && b <= m.realEnd) && b < m.start + 8 * ((newRealEnd - m.start) / 8 + 1)
  {
  }

  lemma ArrayResizedBits(m: Model, v: seq<byte>, w: seq<byte>, newEnd: nat, newRealEnd: nat)
    requires m.start <= m.end && m.start <= newEnd <= newRealEnd && m.start <= m.realEnd && m.bits == BitsIn(m.start, v)
    requires forall b: nat :: On(w, b) <==>
               On(v, b) && !(m.end - m.start < b <= Arith.Min(m.realEnd, newEnd) - m.start)
                 && b < Capacity(m.start, newRealEnd)
    ensures ArrayResized(m, newEnd, newRealEnd) == Model(m.start, newEnd, newRealEnd, BitsIn(m.start, w))
  {
    var bits := ArrayResized(m, newEnd, newRealEnd).bits;
    forall n: nat ensures n in BitsIn(m.start, w) <==> n in bits {
      if n >= m.start {
        assert On(w, n - m.start) <==> OnFrom(m.start, w, n);
        assert On(v, n - m.start) <==> OnFrom(m.start, v, n);
      }
    }
  }

  /** No bit behind the allocated end, up to the new end, is left over in the last byte. */
  ghost predicate NoneBehind(m: Model, newEnd: nat) {
    forall n :: m.realEnd < n <= newEnd ==> n !in m.bits
  }

  /** Resizing the array shows what resizing the tree shows, exactly if nothing is left over. */
  lemma ResizeRight(m: Model, newEnd: nat, newRealEnd: nat)
    requires m.start <= m.end <= m.realEnd && m.start <= newEnd <= newRealEnd
    ensures Inside(ArrayResized(m, newEnd, newRealEnd)) == Inside(Resized(m, newEnd, newRealEnd)) <==>
      NoneBehind(m, newEnd)
  {
    var a, t := ArrayResized(m, newEnd, newRealEnd), Resized(m, newEnd, newRealEnd);
    assert newEnd < m.start + Capacity(m.start, newRealEnd);
    forall n: nat | UpTo(newEnd, n)
      ensures n in Inside(a).bits <==> n in m.bits && !Dropped(m, newEnd, n)
      ensures n in Inside(t).bits <==> n in m.bits && n <= m.end
    {
    }
    if Inside(a) == Inside(t) {
      forall n | m.realEnd < n <= newEnd ensures n !in m.bits {
        assert UpTo(newEnd, n) && n !in Inside(t).bits;
      }
    }
  }

  /** Left over: a bit that shrinking dropped comes back when the bitmap grows again within its last byte. */
  lemma BitComesBack()
    ensures var m := Model(0, 1, 1, iset{1});
            && 1 in ArrayResized(ArrayResized(m, 0, 0), 1, 1).bits && 1 !in Resized(Resized(m, 0, 0), 1, 1).bits
  {
    var m := Model(0, 1, 1, iset{1});
    var s, t := ArrayResized(m, 0, 0), Resized(m, 0, 0);
    assert 1 in m.bits && !Dropped(m, 0, 1);
    assert 1 in s.bits && !Dropped(s, 1, 1);
    assert 1 !in t.bits;
  }

  /** Nothing is left over when the allocated end is at the end of a byte. */
  lemma AlignedNoneBehind(m: Model, newEnd: nat)
    requires Aligned(m.start, m.realEnd) && forall n :: n in m.bits ==> n < m.start + Capacity(m.start, m.realEnd)
    ensures NoneBehind(m, newEnd)
  {
  }

  class ArrayBitmap {
    const start: nat
    const ba: Bits
    var end: nat
    var realEnd: nat

    ghost predicate Valid()
      reads this, ba
    {
      start == ba.start && start <= end <= realEnd && ba.bits.Length == (realEnd - start) / 8 + 1
    }

    ghost function Abs(): Model
      reads this, ba, ba.bits
    {
      Model(start, end, realEnd, BitsIn(start, ba.View()))
    }

    /** `ba_new_bmap` */
    constructor (start: nat, end: nat, realEnd: nat, addr: nat)
      requires start <= end <= realEnd
      ensures Valid() && Abs() == Model(start, end, realEnd, iset{}) && fresh(ba) && fresh(ba.bits)
    {
      this.start, this.end, this.realEnd := start, end, realEnd;
      ba := new Bits(start, addr, (realEnd - start) / 8 + 1);
    }

    /** `ba_resize_bmap` */
    method Resize(newEnd: nat, newRealEnd: nat, addr: nat)
      requires Valid() && start <= newEnd <= newRealEnd
      modifies this, ba, ba.bits
      ensures Valid() && (ba.bits == old(ba.bits) || fresh(ba.bits))
      ensures Abs() == ArrayResized(old(Abs()), newEnd, newRealEnd)
    {
      if newEnd > end {
        var bitno := realEnd;
        if bitno > newEnd {
          bitno := newEnd;
        }
        ClearDown(bitno);
      }
      if newRealEnd != realEnd {
        var size, newSize := (realEnd - start) / 8 + 1, (newRealEnd - start) / 8 + 1;
        if size != newSize {
          ba.Realloc(addr, newSize);
        }
      }
      ArrayResizedBits(old(Abs()), old(ba.View()), ba.View(), newEnd, newRealEnd);
      end, realEnd := newEnd, newRealEnd;
    }

    method ClearDown(top: nat)
      requires Valid() && end <= top <= realEnd
      modifies ba.bits
      ensures forall b: nat :: On(ba.View(), b) <==> old(On(ba.View(), b)) && !(end - start < b <= top - start)
    {
      var bitno := top;
      while bitno > end
        invariant end <= bitno <= top
        invariant forall b: nat :: On(ba.View(), b) <==> old(On(ba.View(), b)) && !(bitno - start < b <= top - start)
      {
        var _ := ba.ClearAt(bitno - start);
        bitno := bitno - 1;
      }
    }

    /** `ba_mark_bmap` */
    method Mark(n: nat) returns (r: bool)
      requires Valid() && start <= n <= end
      modifies ba.bits
      ensures Abs() == old(Abs()).(bits := old(Abs()).bits + Range(n, 1)) && (r <==> n in old(Abs()).bits)
    {
      r := ba.SetAt(n - start);
    }

    /** `ba_unmark_bmap` */
    method Unmark(n: nat) returns (r: bool)
      requires Valid() && start <= n <= end
      modifies ba.bits
      ensures Abs() == old(Abs()).(bits := old(Abs()).bits - Range(n, 1)) && (r <==> n in old(Abs()).bits)
    {
      r := ba.ClearAt(n - start);
    }

    /** `ba_test_bmap` */
    method Test(n: nat) returns (r: bool)
      requires Valid() && start <= n <= end
      ensures r <==> n in Abs().bits
    {
      r := ba.Test(n - start);
    }

    /** `ba_mark_bmap_extent` */
    method MarkRange(n: nat, num: nat)
      requires Valid() && start <= n && n + num <= end + 1
      modifies ba.bits
      ensures Abs() == old(Abs()).(bits := old(Abs()).bits + Range(n, num))
    {
      ba.MarkExtent(n, num);
    }

    /** `ba_unmark_bmap_extent` */
    method UnmarkRange(n: nat, num: nat)
      requires Valid() && start <= n && n + num <= end + 1
      modifies ba.bits
      ensures Abs() == old(Abs()).(bits := old(Abs()).bits - Range(n, num))
    {
      ba.UnmarkExtent(n, num);
    }

    /** `ba_clear_bmap` */
    method Clear()
      requires Valid()
      modifies ba.bits
      ensures Abs() == old(Abs()).(bits := iset{})
    {
      ba.ClearAll();
    }

    method Plain(op: Op) returns (r: bool)
      requires Valid() && Proper(op, start, end) && !op.Resize?
      modifies ba.bits
      ensures Valid() && Abs() == Apply(op, old(Abs()))
      ensures !op.Unmark? ==> (r <==> Answer(op, old(Abs())))
      ensures op.Unmark? ==> (r <==> op.n in old(Abs()).bits)
    {
      r := false;
      match op
      case Mark(n) => r := Mark(n);
      case Unmark(n) => r := Unmark(n);
      case Test(n) => r := Test(n);
      case MarkRange(n, num) => MarkRange(n, num);
      case UnmarkRange(n, num) => UnmarkRange(n, num);
      case Clear => Clear();
    }

    /** One operation: inside, the array shows what the tree shows. */
    method Do(op: Op, addr: nat) returns (r: bool)
      requires Valid() && Aligned(start, realEnd) && Proper(op, start, end) && EndOk(op, start)
      modifies this, ba, ba.bits
      ensures Valid() && Aligned(start, realEnd) && (ba.bits == old(ba.bits) || fresh(ba.bits))
      ensures Inside(Abs()) == Inside(Apply(op, old(Abs())))
      ensures !op.Unmark? ==> (r <==> Answer(op, old(Abs())))
      ensures op.Unmark? ==> (r <==> op.n in old(Abs()).bits)
    {
      if op.Resize? {
        AlignedNoneBehind(Abs(), op.newEnd);
        ResizeRight(Abs(), op.newEnd, op.newRealEnd);
        Resize(op.newEnd, op.newRealEnd, addr);
        r := false;
      } else {
        r := Plain(op);
      }
    }
  }

  /** An unmark of a clear bit with the next bit set: the tree reports the bit as set, the array as clear. */
  ghost predicate ReportsNext(op: Op, m: Model) {
    op.Unmark? && op.n + 1 in m.bits && op.n !in m.bits
  }

  /** The same operations on a tree and on an array that show the same bits. */
  method DoBoth(tree: ExtentRun.Bitmap, flat: ArrayBitmap, op: Op, addr: nat) returns (r: bool, r': bool)
    requires tree.Valid() && flat.Valid() && Inside(tree.Abs()) == Inside(flat.Abs())
    requires Aligned(flat.start, flat.realEnd) && Proper(op, flat.start, flat.end) && EndOk(op, flat.start)
    modifies tree, tree.rb, tree.rb.tree, flat, flat.ba, flat.ba.bits
    ensures tree.Valid() && flat.Valid() && Aligned(flat.start, flat.realEnd)
    ensures (forall x :: x in tree.rb.tree ==> x in old(tree.rb.tree) || fresh(x))
    ensures flat.ba.bits == old(flat.ba.bits) || fresh(flat.ba.bits)
    ensures Inside(tree.Abs()) == Inside(flat.Abs()) && tree.Abs() == Apply(op, old(tree.Abs()))
    ensures r == r' <==> !ReportsNext(op, old(tree.Abs()))
  {
    InsideApply(op, tree.Abs(), flat.Abs());
    r := tree.Do(op);
    r' := flat.Do(op, addr);
  }

  /**
   Over every run of operations the tree and the array show the same bits and give the same answers, except
   that an unmark of the tree may report the bit behind.
   */
  method RunBoth(tree: ExtentRun.Bitmap, flat: ArrayBitmap, ops: seq<Op>, addrs: seq<nat>)
    returns (answers: seq<bool>, answers': seq<bool>)
    requires tree.Valid() && flat.Valid() && Inside(tree.Abs()) == Inside(flat.Abs()) && |addrs| == |ops|
    requires Aligned(flat.start, flat.realEnd) && AllProper(ops, flat.start, flat.end)
    modifies tree, tree.rb, tree.rb.tree, flat, flat.ba, flat.ba.bits
    ensures tree.Valid() && flat.Valid() && Inside(tree.Abs()) == Inside(flat.Abs())
    ensures tree.Abs() == After(ops, old(tree.Abs()))
    ensures |answers| == |answers'| == |ops|
    ensures forall i :: 0 <= i < |ops| ==>
      (answers[i] == answers'[i] <==> !ReportsNext(ops[i], After(ops[..i], old(tree.Abs()))))
  {
    ghost var m := tree.Abs();
    answers, answers' := [], [];
    assert ops[0..] == ops;
    for i := 0 to |ops|
      invariant tree.Valid() && flat.Valid() && Aligned(flat.start, flat.realEnd)
      invariant forall x :: x in tree.rb.tree ==> x in old(tree.rb.tree) || fresh(x)
      invariant flat.ba.bits == old(flat.ba.bits) || fresh(flat.ba.bits)
      invariant Inside(tree.Abs()) == Inside(flat.Abs()) && tree.Abs() == After(ops[..i], m)
      invariant AllProper(ops[i..], flat.start, flat.end)
      invariant |answers| == |answers'| == i
      invariant forall j :: 0 <= j < i ==> (answers[j] == answers'[j] <==> !ReportsNext(ops[j], After(ops[..j], m)))
    {
      assert forall j :: 0 <= j < |tree.rb.tree| ==> tree.rb.tree[j] in old(tree.rb.tree) || fresh(tree.rb.tree[j]);
      assert ops[i..][1..] == ops[i + 1..] && ops[..i + 1][..i] == ops[..i];
      ghost var end := EndAfter(ops[i], flat.end);
      var r, r' := DoBoth(tree, flat, ops[i], addrs[i]);
      answers, answers' := answers + [r], answers' + [r'];
      assert Inside(flat.Abs()).end == end;
    }
    assert ops[..|ops|] == ops;
  }

  function Shifted(r: Scan, start: nat): Scan {
    if r.FoundAt? then FoundAt(r.bit + start) else r
  }

  /** A scan of relative bits is a scan of bit numbers. */
  lemma ShiftScan(p: nat -> bool, q: nat -> bool, start: nat, first: nat, last: nat, r: Scan)
    requires start <= first <= last && FirstOf(p, first - start, last - start, r)
    requires forall n: nat :: first <= n <= last ==> q(n) == p(n - start)
    ensures FirstOf(q, first, last, Shifted(r, start))
  {
  }

  /** The bits that a caller of either bitmap sees set, or clear. */
  ghost function SetIn(m: Model): nat -> bool {
    (n: nat) => n in m.bits
  }

  ghost function ClearIn(m: Model): nat -> bool {
    (n: nat) => n !in m.bits
  }

  lemma SameShown(m: Model, m': Model)
    requires Inside(m) == Inside(m')
    ensures forall n: nat :: n <= m.end ==> SetIn(m)(n) == SetIn(m')(n) && ClearIn(m)(n) == ClearIn(m')(n)
  {
    forall n: nat | n <= m.end ensures n in m.bits <==> n in m'.bits {
      assert (n in Inside(m).bits <==> n in m.bits) && (n in Inside(m').bits <==> n in m'.bits);
    }
  }

  /** `rb_find_first_set` */
  method TreeFindSet(tree: ExtentRun.Bitmap, first: nat, last: nat) returns (r: Scan)
    requires tree.Valid() && tree.start <= first <= last
    ensures FirstOf(SetIn(tree.Abs()), first, last, r)
  {
    ghost var m, v := tree.Abs(), tree.rb.View();
    var rel := tree.rb.FindFirstSet(first - tree.start, last - tree.start);
    r := Shifted(rel, tree.start);
    ShiftScan((b: nat) => Has(v, b), SetIn(m), tree.start, first, last, rel);
  }

  /** `rb_find_first_zero`: right exactly if some bit of the bitmap is set. */
  method TreeFindZero(tree: ExtentRun.Bitmap, first: nat, last: nat) returns (r: Scan)
    requires tree.Valid() && tree.start <= first <= last
    ensures FirstOf(ClearIn(tree.Abs()), first, last, r) <==> tree.rb.tree != []
  {
    ghost var m, v := tree.Abs(), tree.rb.View();
    var rel := tree.rb.FindFirstZero(first - tree.start, last - tree.start);
    r := Shifted(rel, tree.start);
    if tree.rb.tree != [] {
      ShiftScan((b: nat) => !Has(v, b), ClearIn(m), tree.start, first, last, rel);
    } else {
      assert ClearIn(m)(first);
    }
  }

  /** `ba_find_first_set` and `ba_find_first_zero` */
  method ArrayFind(flat: ArrayBitmap, want: bool, first: nat, last: nat) returns (r: Scan)
    requires flat.Valid() && flat.start <= first <= last <= flat.end
    ensures FirstOf(if want then SetIn(flat.Abs()) else ClearIn(flat.Abs()), first, last, r)
  {
    r := flat.ba.FindFirst(want, first, last);
    ghost var m, v, start := flat.Abs(), flat.ba.View(), flat.start;
    SameScan(if want then SetIn(m) else ClearIn(m), (b: nat) => b >= start && On(v, b - start) == want, first, last, r);
  }

  /** The scans of both bitmaps agree wherever they show the same bits. */
  method FindSetBoth(tree: ExtentRun.Bitmap, flat: ArrayBitmap, first: nat, last: nat) returns (r: Scan, r': Scan)
    requires tree.Valid() && flat.Valid() && Inside(tree.Abs()) == Inside(flat.Abs())
    requires flat.start <= first <= last <= flat.end
    ensures r == r'
  {
    r := TreeFindSet(tree, first, last);
    r' := ArrayFind(flat, true, first, last);
    SameShown(tree.Abs(), flat.Abs());
    FirstOfUnique(SetIn(tree.Abs()), SetIn(flat.Abs()), first, last, r, r');
  }

  method FindZeroBoth(tree: ExtentRun.Bitmap, flat: ArrayBitmap, first: nat, last: nat) returns (r: Scan, r': Scan)
    requires tree.Valid() && flat.Valid() && Inside(tree.Abs()) == Inside(flat.Abs())
    requires flat.start <= first <= last <= flat.end
    ensures r == r' <==> tree.rb.tree != []
  {
    r := TreeFindZero(tree, first, last);
    r' := ArrayFind(flat, false, first, last);
    SameShown(tree.Abs(), flat.Abs());
    SameScan(ClearIn(tree.Abs()), ClearIn(flat.Abs()), first, last, r');
    if tree.rb.tree != [] {
      FirstOfUnique(ClearIn(tree.Abs()), ClearIn(flat.Abs()), first, last, r, r');
    }
  }

  lemma SameScan(p: nat -> bool, q: nat -> bool, first: nat, last: nat, r: Scan)
    requires forall n: nat :: first <= n <= last ==> p(n) == q(n)
    requires FirstOf(q, first, last, r)
    ensures FirstOf(p, first, last, r)
  {
  }

  /** `rb_test_clear_bmap_extent` */
  method TreeTestClear(tree: ExtentRun.Bitmap, first: nat, len: nat) returns (r: bool)
    requires tree.Valid() && tree.start <= first
    ensures r <==> forall n: nat :: InRange(first, len, n) ==> ClearIn(tree.Abs())(n)
  {
    r := tree.rb.TestClear(first - tree.start, len);
    ghost var m, v := tree.Abs(), tree.rb.View();
    if !r {
      ghost var b: nat :| InRange(first - tree.start, len, b) && Has(v, b);
      assert InRange(first, len, b + tree.start) && !ClearIn(m)(b + tree.start);
    } else {
      forall n: nat | InRange(first, len, n) ensures ClearIn(m)(n) {
        assert InRange(first - tree.start, len, n - tree.start);
      }
    }
  }

  /** `ba_test_clear_bmap_extent` */
  method ArrayTestClear(flat: ArrayBitmap, first: nat, len: nat) returns (r: bool)
    requires flat.Valid() && flat.start <= first && first + len <= flat.end + 1
    ensures r <==> forall n: nat :: InRange(first, len, n) ==> ClearIn(flat.Abs())(n)
  {
    r := flat.ba.TestClear(first, len);
    ghost var m, v := flat.Abs(), flat.ba.View();
    if !r {
      ghost var b: nat :| InRange(first - flat.start, len, b) && On(v, b);
      assert InRange(first, len, b + flat.start) && !ClearIn(m)(b + flat.start);
    } else {
      forall n: nat | InRange(first, len, n) ensures ClearIn(m)(n) {
        assert InRange(first - flat.start, len, n - flat.start);
      }
    }
  }

  method TestClearBoth(tree: ExtentRun.Bitmap, flat: ArrayBitmap, first: nat, len: nat) returns (r: bool, r': bool)
    requires tree.Valid() && flat.Valid() && Inside(tree.Abs()) == Inside(flat.Abs())
    requires flat.start <= first && first + len <= flat.end + 1
    ensures r == r'
  {
    r := TreeTestClear(tree, first, len);
    r' := ArrayTestClear(flat, first, len);
    SameShown(tree.Abs(), flat.Abs());
  }
}
