/**
 The operations that `blkmap64_rb.c` offers on a bitmap that starts at an arbitrary bit number, and runs
 of them, against a plain set of bit numbers.
 */
module ExtentRun {
  import Arith
  import opened Extents
  import opened ExtentTree
  import opened Scans

  /** What a bitmap stands for. */
  datatype Model = Model(start: nat, end: nat, realEnd: nat, bits: iset<nat>)

  datatype Op =
    | Mark(n: nat) | Unmark(n: nat) | Test(n: nat)
    | MarkRange(n: nat, num: nat) | UnmarkRange(n: nat, num: nat)
    | Clear | Resize(newEnd: nat, newRealEnd: nat)

  /** What the callers in the generic layer see to: bit numbers lie in the bitmap. */
  predicate Legal(op: Op, start: nat) {
    match op
    case Mark(n) => start <= n
    case Unmark(n) => start <= n
    case Test(n) => start <= n
    case MarkRange(n, _) => start <= n
    case UnmarkRange(n, _) => start <= n
    case Clear => true
    case Resize(newEnd, _) => start <= newEnd
  }

  ghost function Range(n: nat, num: nat): iset<nat> {
    iset b: nat | InRange(n, num, b)
  }

  predicate UpTo(max: nat, b: nat) { b <= max }

  /** Resizing drops the bits beyond the smaller end and sets the padding behind the new one. */
  ghost function Resized(m: Model, newEnd: nat, newRealEnd: nat): Model {
    var kept := iset b | b in m.bits && UpTo(Arith.Min(newEnd, m.end), b);
    var padding := Range(newEnd + 1, if newEnd < newRealEnd then newRealEnd - newEnd else 0);
    Model(m.start, newEnd, newRealEnd, kept + padding)
  }

  ghost function Apply(op: Op, m: Model): Model {
    match op
    case Mark(n) => m.(bits := m.bits + Range(n, 1))
    case Unmark(n) => m.(bits := m.bits - Range(n, 1))
    case Test(_) => m
    case MarkRange(n, num) => m.(bits := m.bits + Range(n, num))
    case UnmarkRange(n, num) => m.(bits := m.bits - Range(n, num))
    case Clear => m.(bits := iset{})
    case Resize(newEnd, newRealEnd) => Resized(m, newEnd, newRealEnd)
  }

  /**
   The value an operation returns. Mark and test report the bit as it was. Unmark reports true also when
   only the next bit was set.
   */
  ghost predicate Answer(op: Op, m: Model) {
    match op
    case Mark(n) => n in m.bits
    case Test(n) => n in m.bits
    case Unmark(n) => n in m.bits || n + 1 in m.bits
    case _ => false
  }

  predicate HasFrom(start: nat, v: seq<Ext>, n: nat) {
    n >= start && Has(v, n - start)
  }

  ghost function BitsOf(start: nat, v: seq<Ext>): iset<nat> {
    iset n: nat | HasFrom(start, v, n)
  }

  class Bitmap {
    const start: nat
    const rb: ExtentBitmap
    var end: nat
    var realEnd: nat

    ghost predicate Valid()
      reads this, rb, rb.tree
    {
      rb.Valid() && start <= end
    }

    ghost function Abs(): Model
      reads this, rb, rb.tree
    {
      Model(start, end, realEnd, BitsOf(start, rb.View()))
    }

    /** `rb_new_bmap` */
    constructor (start: nat, end: nat, realEnd: nat)
      requires start <= end
      ensures Valid() && Abs() == Model(start, end, realEnd, iset{}) && fresh(rb) && rb.tree == []
    {
      this.start, this.end, this.realEnd := start, end, realEnd;
      rb := new ExtentBitmap();
      new;
      assert forall n: nat :: !HasFrom(this.start, rb.View(), n);
    }

    /** `rb_mark_bmap` and `rb_mark_bmap_extent` */
    method MarkRange(n: nat, num: nat) returns (r: bool)
      requires Valid() && start <= n
      modifies rb, rb.tree
      ensures Valid() && (forall x :: x in rb.tree ==> x in old(rb.tree) || fresh(x))
      ensures Abs() == old(Abs()).(bits := old(Abs()).bits + Range(n, num))
      ensures forall b: nat :: b in Abs().bits <==> b in old(Abs()).bits || n <= b < n + num
      ensures r <==> num > 0 && n in old(Abs()).bits
    {
      r := rb.InsertExtent(n - start, num);
    }

    /** `rb_unmark_bmap` and `rb_unmark_bmap_extent` */
    method UnmarkRange(n: nat, num: nat) returns (r: bool)
      requires Valid() && start <= n
      modifies rb, rb.tree
      ensures Valid() && (forall x :: x in rb.tree ==> x in old(rb.tree) || fresh(x))
      ensures Abs() == old(Abs()).(bits := old(Abs()).bits - Range(n, num))
      ensures forall b: nat :: b in Abs().bits <==> b in old(Abs()).bits && !(n <= b < n + num)
      ensures r <==> exists b: nat :: n <= b <= n + num && b in old(Abs()).bits
      ensures r == SomeSet(old(Abs()).bits, n, num) <==> SomeSet(old(Abs()).bits, n, num) || n + num !in old(Abs()).bits
    {
      ghost var v, bits := rb.View(), Abs().bits;
      r := rb.RemoveExtent(n - start, num);
      RemovedBits(start, v, rb.View(), n, num);
      TouchedShift(v, start, n, num, bits);
      UnmarkReports(bits, n, num);
    }

    /** `rb_test_bmap` */
    method Test(n: nat) returns (r: bool)
      requires Valid() && start <= n
      modifies rb`rcursor, rb`rnext
      ensures Valid() && Abs() == old(Abs()) && (r <==> n in Abs().bits)
    {
      r := rb.TestBit(n - start);
    }

    /** `rb_clear_bmap` */
    method Clear()
      requires Valid()
      modifies rb
      ensures Valid() && rb.tree == [] && Abs() == old(Abs()).(bits := iset{})
    {
      rb.Clear();
    }

    /** `rb_resize_bmap` */
    method Resize(newEnd: nat, newRealEnd: nat)
      requires Valid() && start <= newEnd
      modifies this, rb, rb.tree
      ensures Valid() && (forall x :: x in rb.tree ==> x in old(rb.tree) || fresh(x))
      ensures Abs() == Resized(old(Abs()), newEnd, newRealEnd) && end == newEnd && realEnd == newRealEnd
      ensures forall b: nat :: b in Abs().bits <==>
        (b in old(Abs()).bits && b <= newEnd && b <= old(end)) || newEnd < b <= newRealEnd
    {
      var max := (if newEnd < end then newEnd else end) - start;
      Shrink(max);
      end := newEnd;
      realEnd := newRealEnd;
      Pad();
      ResizedBits(old(Abs()), old(rb.View()), rb.View(), newEnd, newRealEnd);
    }

    method Shrink(max: nat)
      requires Valid()
      modifies rb, rb.tree
      ensures Valid() && (forall i :: 0 <= i < |rb.tree| ==> rb.tree[i] in old(rb.tree))
      ensures forall b: nat :: Has(rb.View(), b) <==> old(Has(rb.View(), b)) && b <= max
    {
      rb.rcursor := null;
      rb.wcursor := null;
      rb.Truncate(max);
    }

    method Pad()
      requires Valid()
      modifies rb, rb.tree
      ensures Valid() && (forall x :: x in rb.tree ==> x in old(rb.tree) || fresh(x))
      ensures forall b: nat :: Has(rb.View(), b) <==>
        old(Has(rb.View(), b)) || (end < realEnd && InRange(end + 1 - start, realEnd - end, b))
    {
      if end < realEnd {
        var _ := rb.InsertExtent(end + 1 - start, realEnd - end);
      }
    }

    method Do(op: Op) returns (r: bool)
      requires Valid() && Legal(op, start)
      modifies this, rb, rb.tree
      ensures Valid() && (forall x :: x in rb.tree ==> x in old(rb.tree) || fresh(x))
      ensures Abs() == Apply(op, old(Abs())) && (r <==> Answer(op, old(Abs())))
    {
      r := false;
      match op
      case Mark(n) => r := MarkRange(n, 1);
      case Unmark(n) => r := UnmarkRange(n, 1);
      case Test(n) => r := Test(n);
      case MarkRange(n, num) => var _ := MarkRange(n, num);
      case UnmarkRange(n, num) => var _ := UnmarkRange(n, num);
      case Clear => Clear();
      case Resize(newEnd, newRealEnd) => Resize(newEnd, newRealEnd);
    }

    /** Any sequence of operations behaves as it does on the plain set, whatever the cursors remember. */
    method Run(ops: seq<Op>) returns (answers: seq<bool>)
      requires Valid() && (forall op :: op in ops ==> Legal(op, start))
      modifies this, rb, rb.tree
      ensures Valid() && Abs() == After(ops, old(Abs()))
      ensures |answers| == |ops| && Right(ops, answers, old(Abs()))
    {
      ghost var m := Abs();
      answers := [];
      for i := 0 to |ops|
        invariant Valid() && (forall x :: x in rb.tree ==> x in old(rb.tree) || fresh(x))
        invariant Abs() == After(ops[..i], m) && |answers| == i && Right(ops, answers, m)
      {
        assert forall j :: 0 <= j < |rb.tree| ==> rb.tree[j] in old(rb.tree) || fresh(rb.tree[j]);
        var r := Do(ops[i]);
        RightSnoc(ops, answers, m, r);
        answers := answers + [r];
      }
      assert ops[..|ops|] == ops;
    }
  }

  /** Each answer is the one that the operations before it lead to on the plain set. */
  ghost predicate Right(ops: seq<Op>, answers: seq<bool>, m: Model) {
    |answers| <= |ops| && forall i :: 0 <= i < |answers| ==> (answers[i] <==> Answer(ops[i], After(ops[..i], m)))
  }

  lemma RightSnoc(ops: seq<Op>, answers: seq<bool>, m: Model, r: bool)
    requires |answers| < |ops| && Right(ops, answers, m)
    requires r <==> Answer(ops[|answers|], After(ops[..|answers|], m))
    ensures Right(ops, answers + [r], m)
    ensures After(ops[..|answers| + 1], m) == Apply(ops[|answers|], After(ops[..|answers|], m))
  {
    var i := |answers|;
    assert ops[..i + 1][..i] == ops[..i];
  }

  lemma ResizedBits(m: Model, v: seq<Ext>, w: seq<Ext>, newEnd: nat, newRealEnd: nat)
    requires m.bits == BitsOf(m.start, v) && m.start <= m.end && m.start <= newEnd
    requires forall b: nat :: Has(w, b) <==>
               (Has(v, b) && b <= Arith.Min(newEnd, m.end) - m.start) ||
               (newEnd < newRealEnd && InRange(newEnd + 1 - m.start, newRealEnd - newEnd, b))
    ensures Model(m.start, newEnd, newRealEnd, BitsOf(m.start, w)) == Resized(m, newEnd, newRealEnd)
  {
    var bits := Resized(m, newEnd, newRealEnd).bits;
    forall n: nat
      ensures n in BitsOf(m.start, w) <==> n in bits
    {
      if n >= m.start {
        assert Has(v, n - m.start) <==> n in m.bits;
        assert Has(w, n - m.start) <==> n in BitsOf(m.start, w);
      }
    }
  }

  ghost function After(ops: seq<Op>, m: Model): Model {
    if ops == [] then m else Apply(ops[|ops| - 1], After(ops[..|ops| - 1], m))
  }

  lemma RemovedBits(start: nat, v: seq<Ext>, v': seq<Ext>, n: nat, num: nat)
    requires start <= n && forall b: nat :: Has(v', b) <==> Has(v, b) && !InRange(n - start, num, b)
    ensures BitsOf(start, v') == BitsOf(start, v) - Range(n, num)
  {
    forall b: nat
      ensures b in BitsOf(start, v') <==> b in BitsOf(start, v) - Range(n, num)
    {
      if b >= start {
        assert Has(v', b - start) <==> Has(v, b - start) && !InRange(n - start, num, b - start);
      }
    }
  }

  lemma TouchedShift(v: seq<Ext>, start: nat, n: nat, num: nat, bits: iset<nat>)
    requires start <= n && forall b: nat :: b in bits <==> b >= start && Has(v, b - start)
    ensures Touched(v, n - start, n - start + num) <==> exists b: nat :: n <= b <= n + num && b in bits
  {
    if Touched(v, n - start, n - start + num) {
      var c: nat :| n - start <= c <= n - start + num && Has(v, c);
      assert c + start in bits;
    }
    if exists b: nat :: n <= b <= n + num && b in bits {
      var b: nat :| n <= b <= n + num && b in bits;
      assert Has(v, b - start);
    }
  }

  /** What unmark should report: some bit of the range was set. */
  ghost predicate SomeSet(bits: iset<nat>, n: nat, num: nat) {
    exists b: nat :: InRange(n, num, b) && b in bits
  }

  /** The closed range differs from the range only if nothing of the range is set and the bit behind it is. */
  lemma UnmarkReports(bits: iset<nat>, n: nat, num: nat)
    ensures (exists b: nat :: n <= b <= n + num && b in bits) == SomeSet(bits, n, num)
       <==> SomeSet(bits, n, num) || n + num !in bits
  {
    if SomeSet(bits, n, num) {
      var b: nat :| InRange(n, num, b) && b in bits;
      assert n <= b <= n + num && b in bits;
    }
  }

  /** A run with a wrong report: bit 1 is marked, bit 0 is unmarked, and the answer is that it was set. */
  method ReportsBitBehind() returns (r: bool, ghost before: Model)
    ensures r && 0 !in before.bits && !SomeSet(before.bits, 0, 1)
  {
    var m := new Bitmap(0, 7, 7);
    ghost var none := m.rb.tree;
    var _ := m.MarkRange(1, 1);
    before := m.Abs();
    assert forall x :: x in m.rb.tree ==> x in none || fresh(x);
    assert forall i :: 0 <= i < |m.rb.tree| ==> m.rb.tree[i] in m.rb.tree;
    r := m.UnmarkRange(0, 1);
  }
}
