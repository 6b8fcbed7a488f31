/**
 Sorted lists of extents, as values: which bits they stand for, and what merging and cutting do to
 those bits.
 */
module Extents {
  import opened Seqs

  /** The bits start, ..., start + count - 1. */
  datatype Ext = Ext(start: nat, count: nat) {
    function End(): nat { start + count }

    predicate Holds(b: nat) { start <= b < End() }
  }

  /** Non-empty, in order, and with a gap between neighbours: what `check_tree` demands. */
  predicate Sorted(s: seq<Ext>) {
    && (forall i :: 0 <= i < |s| ==> s[i].count > 0)
    && (forall i, j :: 0 <= i < j < |s| ==> s[i].End() < s[j].start)
  }

  predicate Has(s: seq<Ext>, b: nat) {
    exists i :: 0 <= i < |s| && s[i].Holds(b)
  }

  predicate AllAbove(s: seq<Ext>, x: nat) {
    forall m :: 0 <= m < |s| ==> x < s[m].start
  }

  predicate InRange(start: nat, count: nat, b: nat) {
    start <= b < start + count
  }

  lemma HasConcat(s: seq<Ext>, t: seq<Ext>, b: nat)
    ensures Has(s + t, b) <==> Has(s, b) || Has(t, b)
  {
    if Has(s, b) {
      var i :| 0 <= i < |s| && s[i].Holds(b);
      assert (s + t)[i].Holds(b);
    }
    if Has(t, b) {
      var i :| 0 <= i < |t| && t[i].Holds(b);
      assert (s + t)[|s| + i].Holds(b);
    }
  }

  lemma HasOne(e: Ext, b: nat)
    ensures Has([e], b) <==> e.Holds(b)
  {
    assert [e][0] == e;
  }

  /** The list with the block i..j replaced by one extent. */
  function Splice(s: seq<Ext>, i: nat, j: nat, e: Ext): seq<Ext>
    requires i <= j <= |s|
  {
    s[..i] + [e] + s[j..]
  }

  lemma SortedSlice(s: seq<Ext>, i: nat, j: nat)
    requires Sorted(s) && i <= j <= |s|
    ensures Sorted(s[i..j])
  {
  }

  lemma SortedConcat(s: seq<Ext>, t: seq<Ext>)
    requires Sorted(s) && Sorted(t)
    requires s != [] && t != [] ==> s[|s| - 1].End() < t[0].start
    ensures Sorted(s + t)
  {
    var r := s + t;
    forall a, b | 0 <= a < b < |r|
      ensures r[a].End() < r[b].start
    {
      if a < |s| <= b {
        assert a < |s| - 1 ==> s[a].End() < s[|s| - 1].start;
        assert b > |s| ==> t[0].End() < t[b - |s|].start;
      }
    }
  }

  lemma SortedSplice(s: seq<Ext>, i: nat, j: nat, e: Ext)
    requires Sorted(s) && i <= j <= |s| && e.count > 0
    requires i > 0 ==> s[i - 1].End() < e.start
    requires j < |s| ==> e.End() < s[j].start
    ensures Sorted(Splice(s, i, j, e))
  {
    SortedSlice(s, 0, i);
    SortedSlice(s, j, |s|);
    assert s[0..i] == s[..i] && s[j..|s|] == s[j..];
    SortedConcat(s[..i], [e]);
    SortedConcat(s[..i] + [e], s[j..]);
  }

  lemma HasSplice(s: seq<Ext>, i: nat, j: nat, e: Ext, b: nat)
    requires i <= j <= |s|
    ensures Has(Splice(s, i, j, e), b) <==> Has(s[..i], b) || e.Holds(b) || Has(s[j..], b)
    ensures Has(s, b) <==> Has(s[..i], b) || Has(s[i..j], b) || Has(s[j..], b)
  {
    HasConcat(s[..i] + [e], s[j..], b);
    HasConcat(s[..i], [e], b);
    HasOne(e, b);
    HasConcat(s[..i] + s[i..j], s[j..], b);
    HasConcat(s[..i], s[i..j], b);
    assert s == s[..i] + s[i..j] + s[j..];
  }

  /** `e` is the union of the block i..j and the range. */
  ghost predicate Absorbs(s: seq<Ext>, i: nat, j: nat, start: nat, count: nat, e: Ext)
    requires i <= j <= |s|
  {
    forall b: nat :: e.Holds(b) <==> Has(s[i..j], b) || InRange(start, count, b)
  }

  /** Replacing a block by its union with a range adds exactly the range. */
  lemma InsertBits(s: seq<Ext>, i: nat, j: nat, start: nat, count: nat, e: Ext)
    requires i <= j <= |s| && Absorbs(s, i, j, start, count, e)
    ensures forall b: nat :: Has(Splice(s, i, j, e), b) <==> Has(s, b) || InRange(start, count, b)
  {
    forall b: nat
      ensures Has(Splice(s, i, j, e), b) <==> Has(s, b) || InRange(start, count, b)
    {
      HasSplice(s, i, j, e, b);
    }
  }

  /** start..hi is the range start..hi0 together with the first `k` extents of `s`. */
  ghost predicate Grown(s: seq<Ext>, k: nat, start: nat, hi0: nat, hi: nat)
    requires k <= |s|
  {
    start < hi0 <= hi && forall b: nat :: start <= b < hi <==> start <= b < hi0 || Has(s[..k], b)
  }

  lemma GrownNone(s: seq<Ext>, start: nat, hi0: nat)
    requires start < hi0
    ensures Grown(s, 0, start, hi0, hi0)
  {
    assert s[..0] == [];
  }

  lemma GrownStep(s: seq<Ext>, k: nat, start: nat, hi0: nat, hi: nat)
    requires k < |s| && Grown(s, k, start, hi0, hi) && start < s[k].start <= hi
    ensures Grown(s, k + 1, start, hi0, if s[k].End() <= hi then hi else s[k].End())
  {
    TakeSnoc(s, k);
    forall b: nat
      ensures Has(s[..k + 1], b) <==> Has(s[..k], b) || s[k].Holds(b)
    {
      HasConcat(s[..k], [s[k]], b);
      HasOne(s[k], b);
    }
    var hi', front := if s[k].End() <= hi then hi else s[k].End(), s[..k + 1];
    forall b: nat
      ensures start <= b < hi' <==> start <= b < hi0 || Has(front, b)
    {
      assert start <= b < hi <==> start <= b < hi0 || Has(s[..k], b);
    }
  }

  /** Extending extent `i` over a range that touches it. */
  lemma ExtendAbsorbs(s: seq<Ext>, i: nat, k: nat, start: nat, count: nat, e: Ext)
    requires i < |s| && i + 1 + k <= |s| && s[i].start <= start <= s[i].End() < start + count && e.start == s[i].start
    requires Grown(s[i + 1..], k, e.start, start + count, e.End())
    ensures Absorbs(s, i, i + 1 + k, start, count, e)
  {
    var block := s[i..i + 1 + k];
    var right := s[i + 1..][..k];
    assert block == [s[i]] + right;
    forall b: nat
      ensures e.Holds(b) <==> Has(block, b) || InRange(start, count, b)
    {
      HasConcat([s[i]], right, b);
      HasOne(s[i], b);
      assert e.start <= b < e.End() <==> e.start <= b < start + count || Has(right, b);
    }
  }

  /** A new extent in the gap before extent `g`. */
  lemma NewAbsorbs(s: seq<Ext>, g: nat, k: nat, start: nat, count: nat, e: Ext)
    requires g + k <= |s| && e.start == start && Grown(s[g..], k, start, start + count, e.End())
    ensures Absorbs(s, g, g + k, start, count, e)
  {
    var block := s[g..g + k];
    assert block == s[g..][..k];
    forall b: nat
      ensures e.Holds(b) <==> Has(block, b) || InRange(start, count, b)
    {
      assert e.start <= b < e.End() <==> start <= b < start + count || Has(s[g..][..k], b);
    }
  }

  lemma SortedHolds(s: seq<Ext>, g: nat, b: nat)
    requires Sorted(s) && g <= |s|
    requires forall i :: 0 <= i < g ==> s[i].End() <= b
    requires forall i :: g <= i < |s| ==> b < s[i].start
    ensures !Has(s, b)
  {
  }

  lemma RightOf(s: seq<Ext>, i: nat, x: nat)
    requires Sorted(s) && i < |s| && x <= s[i].End()
    ensures Sorted(s[i + 1..]) && AllAbove(s[i + 1..], x)
  {
    SortedSlice(s, i + 1, |s|);
    assert s[i + 1..|s|] == s[i + 1..];
  }

  lemma Covered(s: seq<Ext>, i: nat, start: nat, count: nat)
    requires i < |s| && s[i].start <= start && start + count <= s[i].End()
    ensures forall b: nat :: Has(s, b) <==> Has(s, b) || InRange(start, count, b)
  {
    forall b: nat | InRange(start, count, b)
      ensures Has(s, b)
    {
      assert s[i].Holds(b);
    }
  }

  /** Deleting `k` extents behind position `i` and rewriting the one at `i` is a splice. */
  lemma SpliceOfRewrite(s: seq<Ext>, i: nat, k: nat, e: Ext)
    requires i < |s| && i + 1 + k <= |s|
    ensures Cut(s, i + 1, i + 1 + k)[i := e] == Splice(s, i, i + 1 + k, e)
  {
  }

  lemma SpliceOfInsert(s: seq<Ext>, g: nat, k: nat, e0: Ext, e: Ext)
    requires g + k <= |s|
    ensures var t := s[..g] + [e0] + s[g..];
            && t[g + 1..] == s[g..]
            && Cut(t, g + 1, g + 1 + k)[g := e] == Splice(s, g, g + k, e)
  {
    var t := s[..g] + [e0] + s[g..];
    assert t[..g + 1] == s[..g] + [e0] && t[g + 1 + k..] == s[g + k..];
  }

  /** The result of a merge: sorted, and with exactly the range added. */
  lemma Merged(s: seq<Ext>, i: nat, j: nat, start: nat, count: nat, e: Ext)
    requires Sorted(s) && i <= j <= |s| && e.count > 0 && Absorbs(s, i, j, start, count, e)
    requires i > 0 ==> s[i - 1].End() < e.start
    requires j < |s| ==> e.End() < s[j].start
    ensures Sorted(Splice(s, i, j, e))
    ensures forall b: nat :: Has(Splice(s, i, j, e), b) <==> Has(s, b) || InRange(start, count, b)
  {
    SortedSplice(s, i, j, e);
    InsertBits(s, i, j, start, count, e);
  }

  /** Extending extent `i` over the range and over the `k` extents behind it that it then reaches. */
  lemma Extended(s: seq<Ext>, i: nat, k: nat, start: nat, count: nat, e: Ext)
    requires Sorted(s) && i < |s| && i + 1 + k <= |s| && e.count > 0 && e.start == s[i].start
    requires s[i].start <= start <= s[i].End() < start + count
    requires Grown(s[i + 1..], k, e.start, start + count, e.End())
    requires i + 1 + k < |s| ==> e.End() < s[i + 1 + k].start
    ensures var t := Cut(s, i + 1, i + 1 + k)[i := e];
            Sorted(t) && forall b: nat :: Has(t, b) <==> Has(s, b) || InRange(start, count, b)
  {
    SpliceOfRewrite(s, i, k, e);
    ExtendAbsorbs(s, i, k, start, count, e);
    Merged(s, i, i + 1 + k, start, count, e);
  }

  /** `start` lies strictly between extents g - 1 and g, touching neither. */
  predicate InGap(s: seq<Ext>, g: nat, start: nat)
    requires g <= |s|
  {
    (forall k :: 0 <= k < g ==> s[k].End() < start) && (forall k :: g <= k < |s| ==> start < s[k].start)
  }

  lemma RightOfGap(s: seq<Ext>, g: nat, start: nat)
    requires Sorted(s) && g <= |s| && InGap(s, g, start)
    ensures Sorted(s[g..]) && AllAbove(s[g..], start)
  {
    SortedSlice(s, g, |s|);
    assert s[g..|s|] == s[g..];
  }

  lemma NewMerged(s: seq<Ext>, g: nat, k: nat, start: nat, count: nat, cnt: nat)
    requires Sorted(s) && g + k <= |s| && InGap(s, g, start) && cnt > 0
    requires Grown(s[g..], k, start, start + count, start + cnt)
    requires g + k < |s| ==> start + cnt < s[g + k].start
    ensures Sorted(Splice(s, g, g + k, Ext(start, cnt)))
    ensures forall b: nat :: Has(Splice(s, g, g + k, Ext(start, cnt)), b) <==> Has(s, b) || InRange(start, count, b)
  {
    NewAbsorbs(s, g, k, start, count, Ext(start, cnt));
    Merged(s, g, g + k, start, count, Ext(start, cnt));
  }

  lemma SortedCut(s: seq<Ext>, g: nat, h: nat)
    requires Sorted(s) && g <= h <= |s|
    ensures Sorted(Cut(s, g, h))
  {
    SortedSlice(s, 0, g);
    SortedSlice(s, h, |s|);
    assert s[0..g] == s[..g] && s[h..|s|] == s[h..];
    SortedConcat(s[..g], s[h..]);
  }

  lemma HasCut(s: seq<Ext>, g: nat, h: nat, b: nat)
    requires g <= h <= |s|
    ensures Has(Cut(s, g, h), b) <==> Has(s[..g], b) || Has(s[h..], b)
    ensures Has(s, b) <==> Has(Cut(s, g, h), b) || Has(s[g..h], b)
  {
    HasConcat(s[..g], s[h..], b);
    HasConcat(s[..g] + s[g..h], s[h..], b);
    HasConcat(s[..g], s[g..h], b);
    assert s == s[..g] + s[g..h] + s[h..];
  }

  /** Extents outside a block of a sorted list hold none of the bits of the block. */
  lemma OutsideBlock(s: seq<Ext>, g: nat, h: nat, lo: nat, hi: nat, b: nat)
    requires g <= h <= |s| && lo <= b < hi
    requires forall k :: 0 <= k < g ==> s[k].End() <= lo
    requires forall k :: h <= k < |s| ==> hi <= s[k].start
    ensures !Has(Cut(s, g, h), b)
  {
  }

  /** Shrinking extent `i` clears the bits it gives up. */
  lemma Replaced(s: seq<Ext>, i: nat, e: Ext)
    requires Sorted(s) && i < |s| && e.count > 0 && s[i].start <= e.start && e.End() <= s[i].End()
    ensures Sorted(s[i := e])
    ensures forall b: nat :: Has(s[i := e], b) <==> Has(s, b) && (s[i].Holds(b) ==> e.Holds(b))
  {
    var t := s[i := e];
    assert t == Splice(s, i, i + 1, e);
    SortedSplice(s, i, i + 1, e);
    forall b: nat
      ensures Has(t, b) <==> Has(s, b) && (s[i].Holds(b) ==> e.Holds(b))
    {
      ReplacedAt(s, i, e, b);
    }
  }

  lemma ReplacedAt(s: seq<Ext>, i: nat, e: Ext, b: nat)
    requires Sorted(s) && i < |s| && e.count > 0 && s[i].start <= e.start && e.End() <= s[i].End()
    ensures Has(Splice(s, i, i + 1, e), b) <==> Has(s, b) && (s[i].Holds(b) ==> e.Holds(b))
  {
    HasSplice(s, i, i + 1, e, b);
    HasCut(s, i, i + 1, b);
    assert s[i..i + 1] == [s[i]];
    HasOne(s[i], b);
    if s[i].Holds(b) {
      OutsideBlock(s, i, i + 1, s[i].start, s[i].End(), b);
    }
  }

  lemma Erased(s: seq<Ext>, i: nat)
    requires Sorted(s) && i < |s|
    ensures Sorted(Cut(s, i, i + 1))
    ensures forall b: nat :: Has(Cut(s, i, i + 1), b) <==> Has(s, b) && !s[i].Holds(b)
  {
    SortedCut(s, i, i + 1);
    assert s[i..i + 1] == [s[i]];
    forall b: nat
      ensures Has(Cut(s, i, i + 1), b) <==> Has(s, b) && !s[i].Holds(b)
    {
      HasCut(s, i, i + 1, b);
      HasOne(s[i], b);
      if s[i].Holds(b) {
        OutsideBlock(s, i, i + 1, s[i].start, s[i].End(), b);
      }
    }
  }

  /** `s` parts into extents that end by `lo`, the block g..h inside lo..hi, and extents behind `hi`. */
  predicate Parted(s: seq<Ext>, g: nat, h: nat, lo: nat, hi: nat)
    requires g <= h <= |s|
  {
    && (forall k :: 0 <= k < g ==> s[k].End() <= lo)
    && (forall k :: g <= k < |s| ==> lo <= s[k].start)
    && (forall k :: g <= k < h ==> s[k].End() <= hi)
  }

  lemma PartedStep(s: seq<Ext>, g: nat, h: nat, lo: nat, hi: nat)
    requires g <= h < |s| && Parted(s, g, h, lo, hi) && s[h].End() <= hi
    ensures Parted(s, g, h + 1, lo, hi)
  {
  }

  /** Deleting the block removes exactly the range when the next extent starts behind it. */
  lemma CutBlock(s: seq<Ext>, g: nat, h: nat, lo: nat, count: nat)
    requires Sorted(s) && g <= h <= |s| && Parted(s, g, h, lo, lo + count)
    requires h < |s| ==> lo + count <= s[h].start
    ensures Sorted(Cut(s, g, h))
    ensures forall b: nat :: Has(Cut(s, g, h), b) <==> Has(s, b) && !InRange(lo, count, b)
  {
    SortedCut(s, g, h);
    assert forall k :: h < k < |s| ==> s[h].End() < s[k].start;
    forall b: nat
      ensures Has(Cut(s, g, h), b) <==> Has(s, b) && !InRange(lo, count, b)
    {
      HasCut(s, g, h, b);
      if InRange(lo, count, b) {
        OutsideBlock(s, g, h, lo, lo + count, b);
      } else {
        InsideBlock(s[g..h], lo, count, b);
      }
    }
  }

  lemma InsideBlock(s: seq<Ext>, lo: nat, count: nat, b: nat)
    requires forall k :: 0 <= k < |s| ==> lo <= s[k].start && s[k].End() <= lo + count
    requires !InRange(lo, count, b)
    ensures !Has(s, b)
  {
  }

  /** The same when the range ends inside extent `h`, which loses its front. */
  lemma CutBlockAndFront(s: seq<Ext>, g: nat, h: nat, lo: nat, count: nat, e: Ext)
    requires Sorted(s) && g <= h < |s| && Parted(s, g, h, lo, lo + count)
    requires s[h].start <= lo + count < s[h].End() && e == Ext(lo + count, s[h].End() - (lo + count))
    ensures Sorted(Cut(s, g, h)[g := e])
    ensures forall b: nat :: Has(Cut(s, g, h)[g := e], b) <==> Has(s, b) && !InRange(lo, count, b)
  {
    var s' := s[h := e];
    Replaced(s, h, e);
    CutBlock(s', g, h, lo, count);
    assert Cut(s, g, h)[g := e] == Cut(s', g, h);
  }

  /** Some bit of the closed range is set. */
  predicate Touched(s: seq<Ext>, lo: nat, hi: nat) {
    exists b: nat :: lo <= b <= hi && Has(s, b)
  }

  lemma TouchedAt(s: seq<Ext>, h: nat, lo: nat, hi: nat, b: nat)
    requires h < |s| && lo <= b <= hi && s[h].Holds(b)
    ensures Touched(s, lo, hi)
  {
    assert Has(s, b);
  }

  lemma Untouched(s: seq<Ext>, g: nat, lo: nat, hi: nat)
    requires Sorted(s) && g <= |s| && Parted(s, g, g, lo, hi)
    requires g < |s| ==> hi < s[g].start
    ensures !Touched(s, lo, hi)
  {
    assert forall k :: g < k < |s| ==> s[g].End() < s[k].start;
  }

  lemma Trimmed(s: seq<Ext>, g: nat, h: nat, lo: nat, count: nat, count': nat, t: seq<Ext>)
    requires Sorted(s) && g <= h < |s| && Parted(s, g, h, lo, lo + count)
    requires s[h].start <= lo + count < s[h].End() && lo + count + count' == s[h].End()
    requires t == Cut(s, g, h)[g := Ext(lo + count, count')]
    ensures Sorted(t) && Touched(s, lo, lo + count)
    ensures forall b: nat :: Has(t, b) <==> Has(s, b) && !InRange(lo, count, b)
  {
    CutBlockAndFront(s, g, h, lo, count, Ext(lo + count, count'));
    TouchedAt(s, h, lo, lo + count, s[h].start);
  }
}
