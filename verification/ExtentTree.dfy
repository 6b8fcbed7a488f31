/**
 The bitmap of `blkmap64_rb.c`: a search tree of extents with a write cursor and a two-place read
 cursor. The tree is modelled by its nodes in key order; a search descends through arbitrary pivots, so
 that every shape a balanced tree may have is covered.
 */
module ExtentTree {
  import opened Seqs
  import opened Extents
  import opened Scans

  class Node {
    var start: nat
    var count: nat

    constructor (start: nat, count: nat)
      ensures this.start == start && this.count == count
    {
      this.start, this.count := start, count;
    }
  }

  /** The extents that the nodes hold. */
  ghost function ViewOf(t: seq<Node>): (v: seq<Ext>)
    reads t
    ensures |v| == |t|
  {
    seq(|t|, i requires 0 <= i < |t| reads t => Ext(t[i].start, t[i].count))
  }

  predicate Distinct(t: seq<Node>) {
    forall i, j :: 0 <= i < j < |t| ==> t[i] != t[j]
  }

  /** Cursors point into the tree, and the second read cursor at the successor of the first. */
  predicate CursorsOk(t: seq<Node>, wcursor: Node?, rcursor: Node?, rnext: Node?) {
    && (wcursor != null ==> wcursor in t)
    && (rcursor != null ==> rcursor in t)
    && (rcursor != null && rnext != null ==>
          forall i :: 0 <= i < |t| && t[i] == rcursor ==> i + 1 < |t| && t[i + 1] == rnext)
  }

  function Without(n: Node?, gone: Node): Node? {
    if n == gone then null else n
  }

  lemma EraseNode(t: seq<Node>, k: nat, wcursor: Node?, rcursor: Node?, rnext: Node?)
    requires k < |t| && Distinct(t) && CursorsOk(t, wcursor, rcursor, rnext)
    ensures var t' := Cut(t, k, k + 1);
            Distinct(t') && CursorsOk(t', Without(wcursor, t[k]), Without(rcursor, t[k]), Without(rnext, t[k]))
  {
    var t' := Cut(t, k, k + 1);
    forall n | n in t && n != t[k] ensures n in t' {
      var i :| 0 <= i < |t| && t[i] == n;
      assert t'[if i < k then i else i - 1] == n;
    }
  }

  lemma EraseView(t: seq<Node>, k: nat)
    requires k < |t|
    ensures ViewOf(Cut(t, k, k + 1)) == Cut(ViewOf(t), k, k + 1)
  {
  }

  class ExtentBitmap {
    var tree: seq<Node>
    var wcursor: Node?
    var rcursor: Node?
    var rnext: Node?

    ghost function View(): seq<Ext>
      reads this, tree
    {
      ViewOf(tree)
    }

    /** Nodes and cursors hang together; says nothing about the order of the extents. */
    ghost predicate Linked()
      reads this
    {
      Distinct(tree) && CursorsOk(tree, wcursor, rcursor, rnext)
    }

    ghost predicate Valid()
      reads this, tree
    {
      Linked() && Sorted(View())
    }

    /** `rb_alloc_private_data` */
    constructor ()
      ensures Valid() && tree == []
    {
      tree := [];
      wcursor, rcursor, rnext := null, null, null;
    }

    /** `ext2fs_rb_erase` and `rb_free_extent` */
    method FreeAt(k: nat)
      requires k < |tree| && Linked()
      modifies this
      ensures tree == Cut(old(tree), k, k + 1) && View() == Cut(old(View()), k, k + 1) && Linked()
      ensures wcursor == Without(old(wcursor), old(tree[k])) && rcursor == Without(old(rcursor), old(tree[k]))
      ensures rnext == Without(old(rnext), old(tree[k]))
    {
      EraseNode(tree, k, wcursor, rcursor, rnext);
      EraseView(tree, k);
      var ext := tree[k];
      if wcursor == ext {
        wcursor := null;
      }
      if rcursor == ext {
        rcursor := null;
      }
      if rnext == ext {
        rnext := null;
      }
      tree := Cut(tree, k, k + 1);
    }

    /** Assigns the fields of node `i`. */
    method Rewrite(i: nat, start: nat, count: nat)
      requires i < |tree| && Linked()
      modifies tree[i]
      ensures View() == old(View())[i := Ext(start, count)]
    {
      tree[i].start := start;
      tree[i].count := count;
    }

    /** `rb_get_new_extent` and `ext2fs_rb_link_node`: a new node in gap `g`, which becomes the write cursor. */
    method InsertNode(g: nat, start: nat, count: nat)
      requires g <= |tree| && Linked() && rnext == null
      modifies this
      ensures View() == old(View()[..g]) + [Ext(start, count)] + old(View()[g..])
      ensures Linked() && rnext == null && |tree| == |old(tree)| + 1 && fresh(tree[g])
      ensures forall n :: n in tree ==> n in old(tree) || fresh(n)
    {
      var node := new Node(start, count);
      tree := tree[..g] + [node] + tree[g..];
      wcursor := node;
    }

    /** The nodes i + 1, ..., i + k of the tree `t` have been merged into the range start..start+count'. */
    ghost predicate Absorbing(t: seq<Node>, v: seq<Ext>, i: nat, k: nat, start: nat, count: nat, count': nat)
      reads this, tree
      requires i < |t| == |v|
    {
      && i + 1 + k <= |v| && View() == Cut(v, i + 1, i + 1 + k) && Linked() && rnext == null
      && |tree| > i && tree[i] == t[i] && (forall n :: n in tree ==> n in t)
      && count' > 0 && Grown(v[i + 1..], k, start, start + count, start + count')
    }

    /** The loop behind `skip_insert`: the nodes right of node `i` that the new extent touches are merged into it. */
    method AbsorbRight(i: nat, start: nat, count: nat) returns (count': nat, ghost k: nat)
      requires i < |tree| && Linked() && rnext == null && count > 0
      requires Sorted(View()[i + 1..]) && AllAbove(View()[i + 1..], start)
      modifies this
      ensures Absorbing(old(tree), old(View()), i, k, start, count, count')
      ensures i + 1 + k < |old(tree)| ==> start + count' < old(View())[i + 1 + k].start
    {
      ghost var t, v := tree, View();
      count', k := count, 0;
      GrownNone(v[i + 1..], start, start + count);
      CutNothing(v, i + 1);
      var more := true;
      while i + 1 < |tree| && more
        invariant Absorbing(t, v, i, k, start, count, count')
        invariant !more && i + 1 + k < |v| ==> start + count' < v[i + 1 + k].start
        decreases |tree|, more
      {
        count', k, more := AbsorbNext(i, start, count', t, v, k, count);
      }
    }

    /** One round of that loop, on the node behind node `i`. */
    method AbsorbNext(i: nat, start: nat, count: nat, ghost t: seq<Node>, ghost v: seq<Ext>, ghost k: nat,
        ghost count0: nat)
      returns (count': nat, ghost k': nat, more: bool)
      requires i + 1 < |tree| && i < |t| == |v| && Absorbing(t, v, i, k, start, count0, count)
      requires Sorted(v[i + 1..]) && AllAbove(v[i + 1..], start)
      modifies this
      ensures Absorbing(t, v, i, k', start, count0, count')
      ensures !more && i + 1 + k' < |v| ==> start + count' < v[i + 1 + k'].start
      ensures more ==> |tree| < |old(tree)|
      ensures |tree| <= |old(tree)|
    {
      ghost var s := v[i + 1..];
      count', k' := count, k;
      var ext := tree[i + 1];
      CutOneMore(v, i + 1, i + 1 + k);
      assert View()[i + 1] == Ext(ext.start, ext.count) == s[k];
      if start + count < ext.start {
        return count, k, false;
      }
      GrownStep(s, k, start, start + count0, start + count);
      more := start + count >= ext.start + ext.count;
      if !more {
        count' := count + (ext.start + ext.count - (start + count));
      }
      FreeAt(i + 1);
      k' := k + 1;
    }

    /** The search of `rb_insert_extent`: a node that contains or touches `start`, or the gap it falls in. */
    method SearchTouch(start: nat) returns (p: Place)
      requires Sorted(View())
      ensures p.At? ==> p.i < |tree| && View()[p.i].start <= start <= View()[p.i].End()
      ensures p.Gap? ==> p.g <= |tree| && InGap(View(), p.g, start)
    {
      ghost var v := View();
      var lo, hi := 0, |tree|;
      while lo < hi
        invariant lo <= hi <= |tree|
        invariant forall k :: 0 <= k < lo ==> v[k].End() < start
        invariant forall k :: hi <= k < |tree| ==> start < v[k].start
      {
        var mid :| lo <= mid < hi;
        var ext := tree[mid];
        assert v[mid] == Ext(ext.start, ext.count);
        if start < ext.start {
          assert forall k :: mid < k < |tree| ==> v[mid].End() < v[k].start;
          hi := mid;
        } else if start > ext.start + ext.count {
          assert forall k :: 0 <= k < mid ==> v[k].End() < v[mid].start;
          lo := mid + 1;
        } else {
          return At(mid);
        }
      }
      return Gap(lo);
    }

    /** Case `got_extent` of `rb_insert_extent`: node `i` contains or touches the start of the range. */
    method ExtendAt(i: nat, start: nat, count: nat) returns (r: bool)
      requires Valid() && rnext == null && i < |tree| && count > 0
      requires View()[i].start <= start <= View()[i].End()
      modifies this, tree
      ensures Valid() && rnext == null && (forall n :: n in tree ==> n in old(tree))
      ensures forall b: nat :: Has(View(), b) <==> old(Has(View(), b)) || InRange(start, count, b)
      ensures r <==> start < old(View()[i].End())
    {
      var ext := tree[i];
      ghost var s := View();
      assert s[i] == Ext(ext.start, ext.count);
      if start + count <= ext.start + ext.count {
        Covered(s, i, start, count);
        return true;
      }
      r := ext.start + ext.count != start;
      var lo := ext.start;
      RightOf(s, i, lo);
      var cnt, k := AbsorbRight(i, lo, count + (start - lo));
      Extended(s, i, k, start, count, Ext(lo, cnt));
      Rewrite(i, lo, cnt);
    }

    /**
     The other case: a new node in gap `g`. The source also compares with the left neighbour here, but
     the search has already ruled out that it touches the range.
     */
    method InsertNew(g: nat, start: nat, count: nat)
      requires Valid() && rnext == null && g <= |tree| && count > 0
      requires InGap(View(), g, start)
      modifies this
      ensures Valid() && rnext == null && (forall n :: n in tree ==> n in old(tree) || fresh(n))
      ensures forall b: nat :: Has(View(), b) <==> old(Has(View(), b)) || InRange(start, count, b)
    {
      ghost var s := View();
      InsertNode(g, start, count);
      RightOfGap(s, g, start);
      SpliceOfInsert(s, g, 0, Ext(start, count), Ext(start, count));
      var cnt, k := AbsorbRight(g, start, count);
      Rewrite(g, start, cnt);
      SpliceOfInsert(s, g, k, Ext(start, count), Ext(start, cnt));
      NewMerged(s, g, k, start, count, cnt);
    }

    /** `rb_insert_extent`: set union. The result says whether the first bit was set already. */
    method InsertExtent(first: nat, count: nat) returns (r: bool)
      requires Valid()
      modifies this, tree
      ensures Valid() && (forall n :: n in tree ==> n in old(tree) || fresh(n))
      ensures forall b: nat :: Has(View(), b) <==> old(Has(View(), b)) || InRange(first, count, b)
      ensures r <==> count > 0 && old(Has(View(), first))
      ensures count > 0 ==> rnext == null
    {
      if count == 0 {
        return false;
      }
      rnext := null;
      var p := Locate(first);
      match p
      case At(i) =>
        r := ExtendAt(i, first, count);
      case Gap(g) =>
        InsertNew(g, first, count);
        r := false;
    }

    /** The write cursor is tried before the search. */
    method Locate(first: nat) returns (p: Place)
      requires Valid()
      ensures p.At? ==> p.i < |tree| && View()[p.i].start <= first <= View()[p.i].End()
      ensures p.At? ==> (first < View()[p.i].End() <==> Has(View(), first))
      ensures p.Gap? ==> p.g <= |tree| && InGap(View(), p.g, first) && !Has(View(), first)
    {
      if wcursor != null && wcursor.start <= first <= wcursor.start + wcursor.count {
        var i :| 0 <= i < |tree| && tree[i] == wcursor;
        StartOf(View(), i, first);
        return At(i);
      }
      p := SearchTouch(first);
      match p
      case At(i) => StartOf(View(), i, first);
      case Gap(g) => SortedHolds(View(), g, first);
    }

    /**
     The descent that the other operations share, in the subtree lo..hi reached through `parent`: a node
     that contains `bit`, or the gap that it falls in together with the last node visited.
     */
    method Descend(bit: nat, lo0: nat, hi0: nat, parent0: int) returns (p: Found)
      requires Sorted(View()) && Bracket(View(), lo0, hi0, parent0, bit)
      ensures p.In? ==>
        lo0 <= p.i < p.hi <= |tree| && View()[p.i].Holds(bit) && Bracket(View(), p.i, p.hi, p.i - 1, bit)
      ensures p.Between? ==> Bracket(View(), p.g, p.g, p.parent, bit) && !Has(View(), bit)
    {
      ghost var v := View();
      var lo, hi, parent := lo0, hi0, parent0;
      while lo < hi
        invariant lo0 <= lo && Bracket(v, lo, hi, parent, bit)
        decreases hi - lo
      {
        var mid :| lo <= mid < hi;
        var ext := tree[mid];
        parent := mid;
        assert v[mid] == Ext(ext.start, ext.count);
        BracketMove(v, lo, hi, mid, bit);
        if bit < ext.start {
          hi := mid;
        } else if bit >= ext.start + ext.count {
          lo := mid + 1;
        } else {
          return In(mid, hi);
        }
      }
      BracketClear(v, lo, parent, bit);
      return Between(lo, parent);
    }

    /**
     The loop at the end of `rb_remove_extent`, from the node at `g`: nodes inside the range go, the next may lose its
     front.
     */
    method RemoveRight(g: nat, first: nat, count: nat) returns (r: bool)
      requires Valid() && g <= |tree| && Parted(View(), g, g, first, first + count)
      modifies this, tree
      ensures Valid() && (forall n :: n in tree ==> n in old(tree))
      ensures forall b: nat :: Has(View(), b) <==> old(Has(View(), b)) && !InRange(first, count, b)
      ensures r <==> old(Touched(View(), first, first + count))
    {
      ghost var t, v, h := tree, View(), g;
      r := false;
      CutNothing(v, g);
      CutNothing(t, g);
      while g < |tree| && tree[g].start + tree[g].count <= first + count
        invariant Removing(t, v, g, h, first, count)
        invariant r <==> g < h
        decreases |tree|
      {
        RemoveNext(g, first, count, t, v, h);
        h := h + 1;
        r := true;
      }
      if g < |tree| && tree[g].start <= first + count {
        TrimNext(g, first, count, t, v, h);
        return true;
      }
      RemovedAll(t, v, g, h, first, count);
    }

    method RemoveNext(g: nat, first: nat, count: nat, ghost t: seq<Node>, ghost v: seq<Ext>, ghost h: nat)
      requires Removing(t, v, g, h, first, count) && g < |tree| && tree[g].start + tree[g].count <= first + count
      modifies this
      ensures Removing(t, v, g, h + 1, first, count) && |tree| < |old(tree)|
    {
      CutOneMore(v, g, h);
      CutOneMore(t, g, h);
      assert View()[g] == v[h];
      PartedStep(v, g, h, first, first + count);
      FreeAt(g);
    }

    method TrimNext(g: nat, first: nat, count: nat, ghost t: seq<Node>, ghost v: seq<Ext>, ghost h: nat)
      requires Removing(t, v, g, h, first, count)
      requires g < |tree| && tree[g].start <= first + count < tree[g].start + tree[g].count
      modifies tree[g]
      ensures Valid() && (forall n :: n in tree ==> n in t)
      ensures forall b: nat :: Has(View(), b) <==> Has(v, b) && !InRange(first, count, b)
      ensures Touched(v, first, first + count)
    {
      var ext := tree[g];
      CutOneMore(v, g, h);
      assert View()[g] == v[h];
      var count' := ext.count - (first + count - ext.start);
      Rewrite(g, first + count, count');
      Trimmed(v, g, h, first, count, count', View());
    }

    lemma RemovedAll(t: seq<Node>, v: seq<Ext>, g: nat, h: nat, first: nat, count: nat)
      requires Removing(t, v, g, h, first, count)
      requires g < |tree| ==> first + count < tree[g].start
      ensures Valid() && (forall n :: n in tree ==> n in t)
      ensures forall b: nat :: Has(View(), b) <==> Has(v, b) && !InRange(first, count, b)
      ensures g < h <==> Touched(v, first, first + count)
    {
      assert g < |tree| ==> View()[g] == v[h];
      CutBlock(v, g, h, first, count);
      if g < h {
        TouchedAt(v, g, first, first + count, v[g].start);
      } else {
        Untouched(v, g, first, first + count);
      }
    }

    /** The nodes g..h of the tree `t` with the extents `v` are gone. */
    ghost predicate Removing(t: seq<Node>, v: seq<Ext>, g: nat, h: nat, first: nat, count: nat)
      reads this, tree
    {
      && g <= h <= |v| == |t| && Sorted(v) && Parted(v, g, h, first, first + count)
      && tree == Cut(t, g, h) && View() == Cut(v, g, h) && Linked()
    }

    /**
     `rb_remove_extent`: set difference. The result tells whether some bit of the range or the bit right
     behind it was set.
     */
    method RemoveExtent(first: nat, count: nat) returns (r: bool)
      requires Valid()
      modifies this, tree
      ensures Valid() && (forall n :: n in tree ==> n in old(tree) || fresh(n))
      ensures forall b: nat :: Has(View(), b) <==> old(Has(View(), b)) && !InRange(first, count, b)
      ensures r <==> old(Touched(View(), first, first + count))
    {
      if tree == [] {
        return false;
      }
      var p := Descend(first, 0, |tree|, -1);
      match p
      case In(i, hi) =>
        TouchedAt(View(), i, first, first + count, first);
        RemoveInside(i, hi, first, count);
        r := true;
      case Between(g, parent) =>
        r := RemoveBehind(g, parent, first, count);
    }

    /** The search ended next to the node at `parent`, which the loop skips if it lies before the range. */
    method RemoveBehind(g: nat, parent: int, first: nat, count: nat) returns (r: bool)
      requires Valid() && Bracket(View(), g, g, parent, first)
      modifies this, tree
      ensures Valid() && (forall n :: n in tree ==> n in old(tree))
      ensures forall b: nat :: Has(View(), b) <==> old(Has(View(), b)) && !InRange(first, count, b)
      ensures r <==> old(Touched(View(), first, first + count))
    {
      var next := parent;
      if parent < 0 || tree[parent].start + tree[parent].count <= first {
        next := parent + 1;
      }
      assert 0 <= parent < |tree| ==> View()[parent] == Ext(tree[parent].start, tree[parent].count);
      assert next == g;
      r := RemoveRight(next, first, count);
    }

    /** The search found node `i`, which contains the first bit of the range. */
    method RemoveInside(i: nat, hi: nat, first: nat, count: nat)
      requires Valid() && i < |tree| && View()[i].Holds(first) && Bracket(View(), i, hi, i - 1, first) && i < hi
      modifies this, tree
      ensures Valid() && (forall n :: n in tree ==> n in old(tree) || fresh(n))
      ensures forall b: nat :: Has(View(), b) <==> old(Has(View(), b)) && !InRange(first, count, b)
    {
      var ext := tree[i];
      ghost var v := View();
      assert v[i] == Ext(ext.start, ext.count);
      if first + count < ext.start + ext.count {
        if first > ext.start {
          Split(i, first, count);
        } else {
          Replaced(v, i, Ext(first + count, ext.count - count));
          Rewrite(i, first + count, ext.count - count);
        }
      } else if first == ext.start {
        RemoveWhole(i, first, count);
      } else {
        RemoveTail(i, hi, first, count);
      }
    }

    /** Node `i` starts with the range and ends inside it. */
    method RemoveWhole(i: nat, first: nat, count: nat)
      requires Valid() && i < |tree| && View()[i].start == first && View()[i].End() <= first + count
      modifies this, tree
      ensures Valid() && (forall n :: n in tree ==> n in old(tree))
      ensures forall b: nat :: Has(View(), b) <==> old(Has(View(), b)) && !InRange(first, count, b)
    {
      ghost var v := View();
      Erased(v, i);
      ErasedParted(v, i, first, count);
      FreeAt(i);
      var _ := RemoveRight(i, first, count);
    }

    /** Node `i` keeps its front; the search goes on to its right. */
    method RemoveTail(i: nat, hi: nat, first: nat, count: nat)
      requires Valid() && i < |tree| && View()[i].start < first < View()[i].End() <= first + count
      requires Bracket(View(), i, hi, i - 1, first) && i < hi
      modifies this, tree
      ensures Valid() && (forall n :: n in tree ==> n in old(tree))
      ensures forall b: nat :: Has(View(), b) <==> old(Has(View(), b)) && !InRange(first, count, b)
    {
      ghost var v, e := View(), Ext(View()[i].start, first - View()[i].start);
      KeepFront(i, hi, first);
      var p := Descend(first, i + 1, hi, i);
      NothingAt(v, i, e, first, p);
      var _ := RemoveBehind(p.g, p.parent, first, count);
      Replaced(v, i, e);
    }

    method KeepFront(i: nat, hi: nat, first: nat)
      requires Valid() && i < |tree| && View()[i].start < first < View()[i].End()
      requires Bracket(View(), i, hi, i - 1, first) && i < hi
      modifies tree[i]
      ensures Valid() && View() == old(View())[i := Ext(old(View())[i].start, first - old(View())[i].start)]
      ensures Bracket(View(), i + 1, hi, i, first)
    {
      var ext := tree[i];
      ghost var v, e := View(), Ext(ext.start, first - ext.start);
      Replaced(v, i, e);
      ShrunkBracket(v, i, hi, first, e);
      Rewrite(i, ext.start, first - ext.start);
    }

    /** The range lies strictly inside node `i`: its tail is inserted again as an extent of its own. */
    method Split(i: nat, first: nat, count: nat)
      requires Valid() && i < |tree| && View()[i].start < first && first + count < View()[i].End()
      modifies this, tree
      ensures Valid() && (forall n :: n in tree ==> n in old(tree) || fresh(n))
      ensures forall b: nat :: Has(View(), b) <==> old(Has(View(), b)) && !InRange(first, count, b)
    {
      var ext := tree[i];
      ghost var v := View();
      assert v[i] == Ext(ext.start, ext.count);
      var tail := ext.start + ext.count - (first + count);
      Replaced(v, i, Ext(ext.start, first - ext.start));
      Rewrite(i, ext.start, first - ext.start);
      var _ := InsertExtent(first + count, tail);
      InsideExtent(v, i);
    }

    /** `ext2fs_rb_next` */
    method Next(node: Node) returns (next: Node?, ghost i: nat)
      requires node in tree && Distinct(tree)
      ensures i < |tree| && tree[i] == node
      ensures next == if i + 1 < |tree| then tree[i + 1] else null
    {
      var k :| 0 <= k < |tree| && tree[k] == node;
      next := if k + 1 < |tree| then tree[k + 1] else null;
      i := k;
    }

    /** `rb_test_bit`, with its read cursor: set membership, and no bit changes. */
    method TestBit(bit: nat) returns (r: bool)
      requires Valid()
      modifies `rcursor, `rnext
      ensures Valid() && (r <==> Has(View(), bit))
    {
      var hit, answer := TryCursors(bit);
      if hit {
        return answer;
      }
      var p := Descend(bit, 0, |tree|, -1);
      match p
      case In(i, _) =>
        rcursor := tree[i];
        rnext := null;
        HasNode(tree[i], bit);
        r := true;
      case Between(_, _) =>
        r := false;
    }

    /** The answers that the cursors give without a search. */
    method TryCursors(bit: nat) returns (hit: bool, r: bool)
      requires Valid()
      modifies `rcursor, `rnext
      ensures Valid() && (hit ==> (r <==> Has(View(), bit)))
    {
      if rcursor == null {
        return false, false;
      }
      if rcursor.start <= bit < rcursor.start + rcursor.count {
        HasNode(rcursor, bit);
        return true, true;
      }
      var answered := CheckNext(bit);
      if answered {
        return true, false;
      }
      rcursor := null;
      rnext := null;
      if wcursor != null && wcursor.start <= bit < wcursor.start + wcursor.count {
        HasNode(wcursor, bit);
        return true, true;
      }
      return false, false;
    }

    /** Fills in the second read cursor and tells whether the bit lies between the two. */
    method CheckNext(bit: nat) returns (answered: bool)
      requires Valid() && rcursor != null
      modifies `rnext
      ensures Valid() && (answered ==> !Has(View(), bit))
    {
      var next, i := Next(rcursor);
      if rnext == null {
        rnext := next;
      }
      assert View()[i] == Ext(rcursor.start, rcursor.count);
      answered := rnext != null && rcursor.start + rcursor.count <= bit < rnext.start;
      if answered {
        assert View()[i + 1].start == rnext.start;
        BetweenNeighbours(View(), i, bit);
      }
    }

    lemma HasNode(n: Node, bit: nat)
      requires n in tree && n.start <= bit < n.start + n.count
      ensures Has(View(), bit)
    {
      var i :| 0 <= i < |tree| && tree[i] == n;
      assert View()[i].Holds(bit);
    }

    /** `rb_truncate`. It erases nodes without looking at the cursors, so its caller has dropped them. */
    method Truncate(max: nat)
      requires Valid() && rcursor == null && wcursor == null
      modifies `tree, tree
      ensures Valid() && (forall n :: n in tree ==> n in old(tree))
      ensures forall b: nat :: Has(View(), b) <==> old(Has(View(), b)) && b <= max
    {
      while tree != [] && tree[|tree| - 1].start > max
        invariant Valid() && (forall n :: n in tree ==> n in old(tree))
        invariant unchanged(old(tree))
        invariant forall b: nat :: b <= max ==> (Has(View(), b) <==> old(Has(View(), b)))
        invariant forall b: nat :: Has(View(), b) ==> old(Has(View(), b))
        decreases |tree|
      {
        EraseLast(max);
      }
      assert tree != [] ==> tree[|tree| - 1] in old(tree);
      TruncateLast(max);
    }

    method EraseLast(max: nat)
      requires Valid() && rcursor == null && wcursor == null && tree != [] && tree[|tree| - 1].start > max
      modifies `tree
      ensures Valid() && tree == old(tree[..|tree| - 1])
      ensures forall b: nat :: b <= max ==> (Has(View(), b) <==> old(Has(View(), b)))
      ensures forall b: nat :: Has(View(), b) ==> old(Has(View(), b))
    {
      ghost var v, last := View(), |tree| - 1;
      Erased(v, last);
      assert v[last].start == tree[last].start;
      tree := tree[..|tree| - 1];
      assert View() == Cut(v, last, last + 1);
    }

    method TruncateLast(max: nat)
      requires Valid() && (tree != [] ==> tree[|tree| - 1].start <= max)
      modifies if tree == [] then {} else {tree[|tree| - 1]}
      ensures Valid()
      ensures forall b: nat :: Has(View(), b) <==> old(Has(View(), b)) && b <= max
    {
      ghost var v := View();
      if tree == [] {
        return;
      }
      var i := |tree| - 1;
      var ext := tree[i];
      assert v[i] == Ext(ext.start, ext.count);
      EndsByLast(v);
      if ext.start + ext.count - 1 > max {
        Replaced(v, i, Ext(ext.start, max - ext.start + 1));
        Rewrite(i, ext.start, max - ext.start + 1);
      }
    }

    /** `rb_clear_bmap` */
    method Clear()
      modifies this
      ensures Valid() && tree == [] && forall b: nat :: !Has(View(), b)
    {
      tree := [];
      rcursor, rnext, wcursor := null, null, null;
    }

    /** `rb_test_clear_bmap_extent` */
    method TestClear(first: nat, len: nat) returns (r: bool)
      requires Valid()
      ensures r <==> forall b: nat :: InRange(first, len, b) ==> !Has(View(), b)
    {
      if len == 0 || tree == [] {
        return true;
      }
      var p := Descend(first, 0, |tree|, -1);
      match p
      case In(i, _) =>
        assert View()[i].Holds(first) && InRange(first, len, first);
        r := false;
      case Between(g, parent) =>
        var next := parent;
        if parent < 0 || tree[parent].start + tree[parent].count <= first {
          next := parent + 1;
        }
        assert 0 <= parent < |tree| ==> View()[parent] == Ext(tree[parent].start, tree[parent].count);
        assert next == g;
        r := next == |tree| || first + len <= tree[next].start;
        ClearBehind(View(), g, first, len);
    }

    /**
     `rb_find_first_zero`. An empty tree is reported as "none", so the answer is that of a scan exactly if
     the tree is not empty or the range is invalid.
     */
    method FindFirstZero(first: nat, last: nat) returns (r: Scan)
      requires Valid()
      ensures var v := View(); FirstOf((b: nat) => !Has(v, b), first, last, r) <==> tree != [] || first > last
      ensures tree == [] && first <= last ==> r == NotFound
    {
      ghost var v := View();
      if first > last {
        return Invalid;
      }
      if tree == [] {
        assert ((b: nat) => !Has(v, b))(first);
        return NotFound;
      }
      var p := Descend(first, 0, |tree|, -1);
      match p
      case In(i, _) =>
        var ext := tree[i];
        assert v[i] == Ext(ext.start, ext.count);
        InsideExtent(v, i);
        StartOf(v, i, v[i].End());
        r := if ext.start + ext.count <= last then FoundAt(ext.start + ext.count) else NotFound;
      case Between(_, _) =>
        r := FoundAt(first);
    }

    /** `rb_find_first_set` */
    method FindFirstSet(first: nat, last: nat) returns (r: Scan)
      requires Valid()
      ensures var v := View(); FirstOf((b: nat) => Has(v, b), first, last, r)
    {
      ghost var v := View();
      if first > last {
        return Invalid;
      }
      if tree == [] {
        return NotFound;
      }
      var p := Descend(first, 0, |tree|, -1);
      match p
      case In(i, _) =>
        assert v[i].Holds(first);
        r := FoundAt(first);
      case Between(g, parent) =>
        var next := parent;
        if parent < 0 || tree[parent].start < first {
          next := parent + 1;
        }
        assert 0 <= parent < |tree| ==> v[parent] == Ext(tree[parent].start, tree[parent].count);
        assert next == g;
        FirstBehind(v, g, first);
        r := if next < |tree| && tree[next].start <= last then FoundAt(tree[next].start) else NotFound;
    }
  }

  /** Where a search ends. */
  datatype Place = At(i: nat) | Gap(g: nat)

  datatype Found = In(i: nat, hi: nat) | Between(g: nat, parent: int)

  /** The first bit is set exactly if the extent it touches does not end there. */
  lemma StartOf(s: seq<Ext>, i: nat, first: nat)
    requires Sorted(s) && i < |s| && s[i].start <= first <= s[i].End()
    ensures first < s[i].End() <==> Has(s, first)
  {
    if first < s[i].End() {
      assert s[i].Holds(first);
    } else {
      assert forall k :: i < k < |s| ==> s[i].End() < s[k].start;
      assert forall k :: 0 <= k < i ==> s[k].End() < s[i].start;
    }
  }

  /** `bit` falls between the nodes lo - 1 and hi, one of which is the last node visited (-1: none yet). */
  predicate Bracket(v: seq<Ext>, lo: nat, hi: nat, parent: int, bit: nat) {
    && lo <= hi <= |v|
    && (forall k :: 0 <= k < lo ==> v[k].End() <= bit)
    && (forall k :: hi <= k < |v| ==> bit < v[k].start)
    && (parent == lo - 1 || parent == hi < |v|)
    && (parent == -1 ==> lo == 0)
  }

  lemma BracketMove(v: seq<Ext>, lo: nat, hi: nat, mid: nat, bit: nat)
    requires Sorted(v) && lo <= mid < hi && (exists parent :: Bracket(v, lo, hi, parent, bit))
    ensures bit < v[mid].start ==> Bracket(v, lo, mid, mid, bit)
    ensures v[mid].End() <= bit ==> Bracket(v, mid + 1, hi, mid, bit)
    ensures v[mid].Holds(bit) ==> Bracket(v, mid, hi, mid - 1, bit)
  {
    assert forall k :: mid < k < |v| ==> v[mid].End() < v[k].start;
    assert forall k :: 0 <= k < mid ==> v[k].End() < v[mid].start;
  }

  lemma BracketClear(v: seq<Ext>, g: nat, parent: int, bit: nat)
    requires Sorted(v) && Bracket(v, g, g, parent, bit)
    ensures !Has(v, bit)
  {
    SortedHolds(v, g, bit);
  }

  lemma InsideExtent(v: seq<Ext>, i: nat)
    requires i < |v|
    ensures forall b: nat :: v[i].Holds(b) ==> Has(v, b)
  {
  }

  lemma ShrunkBracket(v: seq<Ext>, i: nat, hi: nat, first: nat, e: Ext)
    requires i < |v| && v[i].start < first && e == Ext(v[i].start, first - v[i].start)
    requires Bracket(v, i, hi, i - 1, first) && i < hi
    ensures Bracket(v[i := e], i + 1, hi, i, first)
  {
  }

  /** After the shrink no node contains the first bit of the range. */
  lemma NothingAt(v: seq<Ext>, i: nat, e: Ext, first: nat, p: Found)
    requires Sorted(v) && i < |v| && v[i].Holds(first) && e == Ext(v[i].start, first - v[i].start)
    requires p.In? ==> i < p.i < |v| && v[i := e][p.i].Holds(first)
    ensures p.Between?
  {
  }

  lemma ErasedParted(v: seq<Ext>, i: nat, first: nat, count: nat)
    requires Sorted(v) && i < |v| && v[i].start == first
    ensures Parted(Cut(v, i, i + 1), i, i, first, first + count)
  {
    assert forall k :: i < k < |v| ==> v[i].End() < v[k].start;
    assert forall k :: 0 <= k < i ==> v[k].End() < v[i].start;
  }

  lemma BetweenNeighbours(v: seq<Ext>, i: nat, bit: nat)
    requires Sorted(v) && i + 1 < |v| && v[i].End() <= bit < v[i + 1].start
    ensures !Has(v, bit)
  {
    assert forall k :: i + 1 < k < |v| ==> v[i + 1].End() < v[k].start;
    assert forall k :: 0 <= k < i ==> v[k].End() < v[i].start;
  }

  lemma EndsByLast(v: seq<Ext>)
    requires Sorted(v) && v != []
    ensures forall b: nat :: Has(v, b) ==> b < v[|v| - 1].End()
    ensures forall b: nat :: Has(v, b) && b >= v[|v| - 1].start ==> v[|v| - 1].Holds(b)
  {
    assert forall k :: 0 <= k < |v| - 1 ==> v[k].End() < v[|v| - 1].start;
  }

  /** Behind a gap the first set bit is the start of the next extent. */
  lemma FirstBehind(v: seq<Ext>, g: nat, first: nat)
    requires Sorted(v) && g <= |v| && (exists parent :: Bracket(v, g, g, parent, first))
    ensures forall b: nat :: first <= b && (g < |v| ==> b < v[g].start) ==> !Has(v, b)
    ensures g < |v| ==> first < v[g].start && Has(v, v[g].start)
  {
    assert forall k :: g < k < |v| ==> v[g].End() < v[k].start;
    if g < |v| {
      assert v[g].Holds(v[g].start);
    }
  }

  lemma ClearBehind(v: seq<Ext>, g: nat, first: nat, len: nat)
    requires Sorted(v) && g <= |v| && (exists parent :: Bracket(v, g, g, parent, first))
    ensures (g == |v| || first + len <= v[g].start) <==> forall b: nat :: InRange(first, len, b) ==> !Has(v, b)
  {
    FirstBehind(v, g, first);
    if g < |v| && v[g].start < first + len {
      assert InRange(first, len, v[g].start) && Has(v, v[g].start);
    }
  }

  /** A new bitmap: every bit is clear, and the scan for a clear bit finds none. */
  method NoZeroInEmpty(first: nat, last: nat) returns (r: Scan)
    requires first <= last
    ensures r == NotFound && !FirstOf((b: nat) => !Has([], b), first, last, r)
  {
    var m := new ExtentBitmap();
    r := m.FindFirstZero(first, last);
    assert m.View() == [];
  }
}
