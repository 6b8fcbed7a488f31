/**
 The block-mapped part of `ext2fs_block_iterate3`, with a callback that records its calls and neither
 changes nor aborts, against the lookup of the map.
 */
module BlockIterate {
  import opened Arith
  import opened Seqs
  import opened BlockTree
  import opened BlockMap

  /** One call of the callback: for a data block with its logical number, or for an indirect block of a level. */
  datatype Event =
    | Data(blk: nat, count: nat, refBlk: nat, refOff: nat)
    | Meta(level: nat, blk: nat, refBlk: nat, refOff: nat)

  /** BLOCK_FLAG_DEPTH_TRAVERSE and BLOCK_FLAG_DATA_ONLY; BLOCK_FLAG_APPEND is not set. */
  datatype Flags = Flags(depth: bool, dataOnly: bool) {
    predicate Before() { !depth && !dataOnly }

    predicate After() { depth && !dataOnly }
  }

  function NonZero(ptrs: seq<nat>): nat {
    if ptrs == [] then 0 else NonZero(ptrs[..|ptrs| - 1]) + if ptrs[|ptrs| - 1] == 0 then 0 else 1
  }

  /** The offset that is reported for place `n` of a block: the loops of the upper levels do not count holes. */
  function RefOff(d: nat, ptrs: seq<nat>, n: nat): nat
    requires n <= |ptrs|
  {
    if d == 1 then 4 * n else 4 * NonZero(ptrs[..n])
  }

  /** The calls for the tree of depth `d` under `b`. */
  function Events(disk: Disk, a: nat, fl: Flags, d: nat, b: nat, base: nat, ref: nat, off: nat): seq<Event>
    requires DiskOk(disk, a)
    decreases d, a + 1
  {
    if d == 0 then [Data(b, base, ref, off)]
    else if b >= |disk| then []
    else
      (if fl.Before() then [Meta(d, b, ref, off)] else [])
      + Children(disk, a, fl, d, b, base, a)
      + (if fl.After() then [Meta(d, b, ref, off)] else [])
  }

  /** The calls for the first `n` pointers of block `b`. */
  function Children(disk: Disk, a: nat, fl: Flags, d: nat, b: nat, base: nat, n: nat): seq<Event>
    requires DiskOk(disk, a) && d > 0 && b < |disk| && n <= a
    decreases d, n
  {
    if n == 0 then []
    else
      Children(disk, a, fl, d, b, base, n - 1)
      + Child(disk, a, fl, d - 1, disk[b][n - 1], base + Times(n - 1, Pow(a, d - 1)), b, RefOff(d, disk[b], n - 1))
  }

  /** The calls for one pointer; there are none for a hole. */
  function Child(disk: Disk, a: nat, fl: Flags, d: nat, c: nat, base: nat, ref: nat, off: nat): seq<Event>
    requires DiskOk(disk, a)
    decreases d, a + 2
  {
    if c == 0 then [] else Events(disk, a, fl, d, c, base, ref, off)
  }

  /** The call for an indirect block comes before those for what is under it, or after them in a depth traversal. */
  lemma RootCall(disk: Disk, a: nat, fl: Flags, d: nat, b: nat, base: nat, ref: nat, off: nat)
    requires DiskOk(disk, a) && d > 0 && b < |disk|
    ensures var s, under := Events(disk, a, fl, d, b, base, ref, off), Children(disk, a, fl, d, b, base, a);
            && (fl.dataOnly ==> s == under)
            && (!fl.dataOnly && !fl.depth ==> s == [Meta(d, b, ref, off)] + under)
            && (!fl.dataOnly && fl.depth ==> s == under + [Meta(d, b, ref, off)])
  {
  }

  /** With BLOCK_FLAG_DATA_ONLY there are no calls for indirect blocks. */
  lemma {:induction false} DataOnlyCalls(disk: Disk, a: nat, fl: Flags, d: nat, b: nat, base: nat, ref: nat, off: nat)
    requires DiskOk(disk, a) && fl.dataOnly
    ensures forall e :: e in Events(disk, a, fl, d, b, base, ref, off) ==> e.Data?
    decreases d, a + 1
  {
    if d > 0 && b < |disk| {
      DataOnlyChildren(disk, a, fl, d, b, base, a);
    }
  }

  lemma {:induction false} DataOnlyChildren(disk: Disk, a: nat, fl: Flags, d: nat, b: nat, base: nat, n: nat)
    requires DiskOk(disk, a) && fl.dataOnly && d > 0 && b < |disk| && n <= a
    ensures forall e :: e in Children(disk, a, fl, d, b, base, n) ==> e.Data?
    decreases d, n
  {
    if n > 0 {
      DataOnlyChildren(disk, a, fl, d, b, base, n - 1);
      DataOnlyCalls(disk, a, fl, d - 1, disk[b][n - 1], base + Times(n - 1, Pow(a, d - 1)), b,
        RefOff(d, disk[b], n - 1));
    }
  }

  /** The data blocks among the calls, with their logical numbers. */
  function Datas(log: seq<Event>): seq<(nat, nat)> {
    if log == [] then []
    else
      var last := log[|log| - 1];
      Datas(log[..|log| - 1]) + if last.Data? then [(last.count, last.blk)] else []
  }

  lemma {:induction false} DatasConcat(s: seq<Event>, t: seq<Event>)
    ensures Datas(s + t) == Datas(s) + Datas(t)
  {
    if t == [] {
      assert s + t == s;
    } else {
      assert (s + t)[..|s + t| - 1] == s + t[..|t| - 1];
      DatasConcat(s, t[..|t| - 1]);
    }
  }

  function Entry(l: nat, w: nat): seq<(nat, nat)> {
    if w == 0 then [] else [(l, w)]
  }

  /** The blocks of a list that are no holes, numbered from `base`. */
  function Entries(base: nat, vals: seq<nat>): seq<(nat, nat)> {
    if vals == [] then []
    else Entries(base, vals[..|vals| - 1]) + Entry(base + |vals| - 1, vals[|vals| - 1])
  }

  lemma {:induction false} EntriesConcat(base: nat, u: seq<nat>, v: seq<nat>)
    ensures Entries(base, u + v) == Entries(base, u) + Entries(base + |u|, v)
  {
    if v == [] {
      assert u + v == u;
    } else {
      var front, last := v[..|v| - 1], v[|v| - 1];
      assert (u + v)[..|u + v| - 1] == u + front;
      EntriesConcat(base, u, front);
      Assoc(Entries(base, u), Entries(base + |u|, front), Entry(base + |u| + |v| - 1, last));
    }
  }

  /** `list` is the entries of `vals`, folded up. */
  ghost predicate Numbered(list: seq<(nat, nat)>, base: nat, vals: seq<nat>) {
    forall k: nat :: k == base ==> list == Entries(k, vals)
  }

  /** Two stretches, one behind the other. */
  lemma Join(s: seq<(nat, nat)>, t: seq<(nat, nat)>, base: nat, base': nat, u: seq<nat>, v: seq<nat>, w: seq<nat>)
    requires Numbered(s, base, u) && Numbered(t, base', v) && base' == base + |u| && w == u + v
    ensures Numbered(s + t, base, w)
  {
    assert s == Entries(base, u) && t == Entries(base', v);
    EntriesConcat(base, u, v);
  }

  lemma {:induction false} EntriesHoles(base: nat, vals: seq<nat>)
    requires forall i :: 0 <= i < |vals| ==> vals[i] == 0
    ensures Entries(base, vals) == []
  {
    if vals != [] {
      EntriesHoles(base, vals[..|vals| - 1]);
    }
  }

  predicate Increasing(list: seq<(nat, nat)>, n: nat) {
    && (forall i :: 0 <= i < |list| ==> list[i].0 < n)
    && (forall i, j :: 0 <= i < j < |list| ==> list[i].0 < list[j].0)
  }

  lemma IncreasingNext(list: seq<(nat, nat)>, n: nat, w: nat)
    requires Increasing(list, n)
    ensures Increasing(list + Entry(n, w), n + 1)
  {
  }

  lemma {:induction false} EntriesOrder(base: nat, vals: seq<nat>)
    ensures Increasing(Entries(base, vals), base + |vals|)
  {
    if vals != [] {
      EntriesOrder(base, vals[..|vals| - 1]);
      IncreasingNext(Entries(base, vals[..|vals| - 1]), base + |vals| - 1, vals[|vals| - 1]);
    }
  }

  /** There is an entry for exactly each block that is no hole. */
  lemma {:induction false} EntriesMembers(base: nat, vals: seq<nat>, l: nat, w: nat)
    ensures (l, w) in Entries(base, vals) <==> base <= l < base + |vals| && w != 0 && vals[l - base] == w
  {
    if vals != [] {
      var front, last := vals[..|vals| - 1], vals[|vals| - 1];
      EntriesMembers(base, front, l, w);
      MemberNext(Entries(base, front), base + |front|, last, l, w);
      assert base <= l < base + |front| ==> front[l - base] == vals[l - base];
    }
  }

  lemma MemberNext(list: seq<(nat, nat)>, n: nat, x: nat, l: nat, w: nat)
    ensures (l, w) in list + Entry(n, x) <==> (l, w) in list || (l == n && w == x && x != 0)
  {
  }

  /** The walk to the k-th place of a tree finds `v`. */
  ghost predicate WalkIs(disk: Disk, a: nat, b: nat, d: nat, k: nat, v: nat)
    requires DiskOk(disk, a)
  {
    forall x: nat :: x == k ==> Walk(disk, a, b, Digits(a, d, x)) == v
  }

  ghost predicate AreValues(disk: Disk, a: nat, b: nat, d: nat, vals: seq<nat>)
    requires DiskOk(disk, a)
  {
    forall k :: 0 <= k < |vals| ==> WalkIs(disk, a, b, d, k, vals[k])
  }

  /** `list` has the first `n` blocks of a tree that are no holes. */
  ghost predicate ListsBlocks(disk: Disk, a: nat, b: nat, d: nat, base: nat, n: nat, list: seq<(nat, nat)>)
    requires DiskOk(disk, a)
  {
    exists vals: seq<nat> :: AreValues(disk, a, b, d, vals) && |vals| == n && Numbered(list, base, vals)
  }

  /** The same, folded up. */
  ghost predicate Lists(disk: Disk, a: nat, b: nat, d: nat, base: nat, n: nat, list: seq<(nat, nat)>)
    requires DiskOk(disk, a)
  {
    forall k: nat :: k == n ==> ListsBlocks(disk, a, b, d, base, k, list)
  }

  lemma ListsHole(disk: Disk, a: nat, d: nat, base: nat, n: nat)
    requires DiskOk(disk, a)
    ensures Lists(disk, a, 0, d, base, n, [])
  {
    var vals := seq(n, _ => 0);
    EntriesHoles(base, vals);
    assert AreValues(disk, a, 0, d, vals);
    assert Numbered([], base, vals);
    assert ListsBlocks(disk, a, 0, d, base, n, []);
  }

  lemma ListsOne(disk: Disk, a: nat, b: nat, base: nat)
    requires DiskOk(disk, a) && b != 0
    ensures Lists(disk, a, b, 0, base, 1, [(base, b)])
  {
    EntriesOne(base, b);
    assert AreValues(disk, a, b, 0, [b]);
    assert Numbered([(base, b)], base, [b]);
    assert ListsBlocks(disk, a, b, 0, base, 1, [(base, b)]);
  }

  lemma ListsNone(disk: Disk, a: nat, b: nat, d: nat, base: nat)
    requires DiskOk(disk, a)
    ensures Lists(disk, a, b, d, base, 0, [])
  {
    assert AreValues(disk, a, b, d, []);
    assert Entries(base, []) == [];
    assert Numbered([], base, []);
    assert ListsBlocks(disk, a, b, d, base, 0, []);
  }

  lemma WalkOfChild(disk: Disk, a: nat, b: nat, d: nat, e: nat, i: nat, c: nat, start: nat, r: nat, v: nat)
    requires DiskOk(disk, a) && d == e + 1 && 0 < b < |disk| && i < a && c == disk[b][i]
    requires r < Pow(a, e) && start == Times(i, Pow(a, e)) && WalkIs(disk, a, c, e, r, v)
    ensures WalkIs(disk, a, b, d, start + r, v)
  {
    DigitsOfChild(a, d, i, r, start + r);
    var path := Digits(a, e, r);
    assert ([i] + path)[1..] == path;
    assert Walk(disk, a, c, path) == v;
    assert Walk(disk, a, b, [i] + path) == v;
  }

  /** The places under the i-th pointer follow those under the pointers before it. */
  lemma ValuesOfChild(disk: Disk, a: nat, b: nat, d: nat, e: nat, i: nat, c: nat, start: nat, u: seq<nat>, v: seq<nat>)
    requires DiskOk(disk, a) && d == e + 1 && 0 < b < |disk| && i < a && c == disk[b][i]
    requires |u| == start == Times(i, Pow(a, e)) && |v| == Pow(a, e)
    requires AreValues(disk, a, b, d, u) && AreValues(disk, a, c, e, v)
    ensures AreValues(disk, a, b, d, u + v)
  {
    forall k | 0 <= k < |u + v| ensures WalkIs(disk, a, b, d, k, (u + v)[k]) {
      if k < start {
        assert WalkIs(disk, a, b, d, k, u[k]);
      } else {
        assert WalkIs(disk, a, c, e, k - start, v[k - start]);
        WalkOfChild(disk, a, b, d, e, i, c, start, k - start, v[k - start]);
      }
    }
  }

  lemma ListsChild(disk: Disk, a: nat, b: nat, d: nat, e: nat, i: nat, c: nat, base: nat, start: nat, n: nat,
                   s: seq<(nat, nat)>, t: seq<(nat, nat)>, list: seq<(nat, nat)>)
    requires DiskOk(disk, a) && d == e + 1 && 0 < b < |disk| && i < a && c == disk[b][i]
    requires start == Times(i, Pow(a, e)) && n == start + Pow(a, e) && list == s + t
    requires Lists(disk, a, b, d, base, start, s) && Lists(disk, a, c, e, base + start, Pow(a, e), t)
    ensures Lists(disk, a, b, d, base, n, list)
  {
    assert ListsBlocks(disk, a, b, d, base, start, s) && ListsBlocks(disk, a, c, e, base + start, Pow(a, e), t);
    var u: seq<nat> :| AreValues(disk, a, b, d, u) && |u| == start && Numbered(s, base, u);
    var v: seq<nat> :| AreValues(disk, a, c, e, v) && |v| == Pow(a, e) && Numbered(t, base + start, v);
    ValuesOfChild(disk, a, b, d, e, i, c, start, u, v);
    Join(s, t, base, base + start, u, v, u + v);
    assert ListsBlocks(disk, a, b, d, base, n, list);
  }

  /** `TreeOk`, folded up. */
  ghost predicate Fine(disk: Disk, a: nat, first: nat, b: nat, d: nat)
    requires DiskOk(disk, a)
  {
    forall x: nat :: x == b ==> TreeOk(disk, a, first, x, d)
  }

  lemma FineChild(disk: Disk, a: nat, first: nat, b: nat, d: nat, i: nat)
    requires DiskOk(disk, a) && Fine(disk, a, first, b, d) && d > 0 && b != 0 && i < a
    ensures b < |disk| && Fine(disk, a, first, disk[b][i], d - 1)
  {
    assert TreeOk(disk, a, first, b, d);
  }

  /** The data calls of a tree are its blocks that are no holes. */
  lemma {:induction false} EventsData(disk: Disk, a: nat, fl: Flags, first: nat, d: nat, b: nat, base: nat, ref: nat,
      off: nat)
    requires DiskOk(disk, a) && b != 0 && Fine(disk, a, first, b, d)
    ensures Lists(disk, a, b, d, base, Pow(a, d), Datas(Events(disk, a, fl, d, b, base, ref, off)))
    decreases d, a + 1
  {
    if d == 0 {
      DatasOne(b, base, ref, off);
      ListsOne(disk, a, b, base);
    } else {
      FineChild(disk, a, first, b, d, 0);
      ChildrenData(disk, a, fl, first, d, b, base, a);
      TimesComm(a, Pow(a, d - 1));
      MetaAround(d, b, ref, off, Children(disk, a, fl, d, b, base, a), fl);
    }
  }

  lemma EntriesOne(base: nat, b: nat)
    requires b != 0
    ensures Entries(base, [b]) == [(base, b)]
  {
    assert [b][..0] == [] && Entries(base, []) == [];
  }

  lemma DatasOne(b: nat, base: nat, ref: nat, off: nat)
    ensures Datas([Data(b, base, ref, off)]) == [(base, b)]
  {
    assert [Data(b, base, ref, off)][..0] == [] && Datas([]) == [];
  }

  lemma MetaAround(d: nat, b: nat, ref: nat, off: nat, middle: seq<Event>, fl: Flags)
    ensures Datas((if fl.Before() then [Meta(d, b, ref, off)] else []) + middle
      + (if fl.After() then [Meta(d, b, ref, off)] else []))
         == Datas(middle)
  {
    var before := if fl.Before() then [Meta(d, b, ref, off)] else [];
    var after := if fl.After() then [Meta(d, b, ref, off)] else [];
    assert [Meta(d, b, ref, off)][..0] == [] && Datas([]) == [];
    assert Datas(before) == [] && Datas(after) == [];
    DatasConcat(before, middle);
    DatasConcat(before + middle, after);
  }

  lemma {:induction false} ChildrenData(disk: Disk, a: nat, fl: Flags, first: nat, d: nat, b: nat, base: nat, n: nat)
    requires DiskOk(disk, a) && d > 0 && 0 < b < |disk| && Fine(disk, a, first, b, d) && n <= a
    ensures Lists(disk, a, b, d, base, Times(n, Pow(a, d - 1)), Datas(Children(disk, a, fl, d, b, base, n)))
    decreases d, n
  {
    if n == 0 {
      ListsNone(disk, a, b, d, base);
    } else {
      var i, c, e, p := n - 1, disk[b][n - 1], d - 1, Pow(a, d - 1);
      var start, off := Times(i, p), RefOff(d, disk[b], i);
      var s, t := Children(disk, a, fl, d, b, base, i), Child(disk, a, fl, e, c, base + start, b, off);
      ChildrenData(disk, a, fl, first, d, b, base, i);
      FineChild(disk, a, first, b, d, i);
      ChildData(disk, a, fl, first, b, base + start, e, c, off);
      DatasConcat(s, t);
      ListsChild(disk, a, b, d, e, i, c, base, start, Times(n, Pow(a, d - 1)), Datas(s), Datas(t),
        Datas(Children(disk, a, fl, d, b, base, n)));
    }
  }

  lemma ChildData(disk: Disk, a: nat, fl: Flags, first: nat, b: nat, base: nat, e: nat, c: nat, off: nat)
    requires DiskOk(disk, a) && Fine(disk, a, first, c, e)
    ensures Lists(disk, a, c, e, base, Pow(a, e), Datas(Child(disk, a, fl, e, c, base, b, off)))
    decreases e, a + 2
  {
    if c == 0 {
      ListsHole(disk, a, e, base, Pow(a, e));
    } else {
      EventsData(disk, a, fl, first, e, c, base, b, off);
    }
  }

  /** The first logical block of the tree of depth `d`. */
  function Base(a: nat, d: nat): nat {
    if d == 1 then NDIR else if d == 2 then NDIR + a else NDIR + a + Pow(a, 2)
  }

  ghost predicate LookupIs(disk: Disk, a: nat, iblock: seq<nat>, l: nat, v: nat)
    requires DiskOk(disk, a) && |iblock| == NDIR + 3
  {
    forall x: nat :: x == l ==> Lookup(disk, a, iblock, x) == v
  }

  ghost predicate AreLookups(disk: Disk, a: nat, iblock: seq<nat>, vals: seq<nat>)
    requires DiskOk(disk, a) && |iblock| == NDIR + 3
  {
    forall l :: 0 <= l < |vals| ==> LookupIs(disk, a, iblock, l, vals[l])
  }

  /** `list` has the first `n` logical blocks that are no holes. */
  ghost predicate ListsLookups(disk: Disk, a: nat, iblock: seq<nat>, n: nat, list: seq<(nat, nat)>)
    requires DiskOk(disk, a) && |iblock| == NDIR + 3
  {
    exists vals: seq<nat> :: AreLookups(disk, a, iblock, vals) && |vals| == n && Numbered(list, 0, vals)
  }

  /** `log` has the data calls for the first `n` logical blocks. */
  ghost predicate Covers(disk: Disk, a: nat, iblock: seq<nat>, n: nat, log: seq<Event>)
    requires DiskOk(disk, a) && |iblock| == NDIR + 3
  {
    forall k: nat :: k == n ==> ListsLookups(disk, a, iblock, k, Datas(log))
  }

  lemma LookupInTree(disk: Disk, a: nat, iblock: seq<nat>, d: nat, base: nat, b: nat, k: nat, v: nat)
    requires DiskOk(disk, a) && |iblock| == NDIR + 3 && 1 <= d <= 3
    requires k < Pow(a, d) && base == Base(a, d) && b == Root(iblock, d)
    requires WalkIs(disk, a, b, d, k, v)
    ensures LookupIs(disk, a, iblock, base + k, v)
  {
    assert Walk(disk, a, b, Digits(a, d, k)) == v;
    if d == 1 {
      PowOne(a);
      PathInInd(a, k);
    } else if d == 2 {
      PathInDind(a, k);
    } else {
      PathInTind(a, k, Pow(a, 2));
    }
    assert Lookup(disk, a, iblock, base + k) == v;
  }

  lemma LookupsOfTree(disk: Disk, a: nat, iblock: seq<nat>, d: nat, base: nat, b: nat, u: seq<nat>, v: seq<nat>)
    requires DiskOk(disk, a) && |iblock| == NDIR + 3 && 1 <= d <= 3
    requires base == Base(a, d) == |u| && b == Root(iblock, d) && |v| == Pow(a, d)
    requires AreLookups(disk, a, iblock, u) && AreValues(disk, a, b, d, v)
    ensures AreLookups(disk, a, iblock, u + v)
  {
    forall k: nat | k < |v| ensures LookupIs(disk, a, iblock, base + k, v[k]) {
      assert WalkIs(disk, a, b, d, k, v[k]);
      LookupInTree(disk, a, iblock, d, base, b, k, v[k]);
    }
    JoinLookups(disk, a, iblock, base, u, v);
  }

  lemma JoinLookups(disk: Disk, a: nat, iblock: seq<nat>, base: nat, u: seq<nat>, v: seq<nat>)
    requires DiskOk(disk, a) && |iblock| == NDIR + 3 && base == |u| && AreLookups(disk, a, iblock, u)
    requires forall k: nat :: k < |v| ==> LookupIs(disk, a, iblock, base + k, v[k])
    ensures AreLookups(disk, a, iblock, u + v)
  {
    forall l | 0 <= l < |u + v| ensures LookupIs(disk, a, iblock, l, (u + v)[l]) {
      if l < base {
        assert LookupIs(disk, a, iblock, l, u[l]);
      } else {
        assert LookupIs(disk, a, iblock, base + (l - base), v[l - base]);
      }
    }
  }

  /** The calls for one tree of the inode add its blocks to the list. */
  lemma TreeData(disk: Disk, a: nat, iblock: seq<nat>, fl: Flags, first: nat, d: nat, base: nat, b: nat,
      log: seq<Event>, more: seq<Event>)
    requires DiskOk(disk, a) && |iblock| == NDIR + 3 && 1 <= d <= 3 && base == Base(a, d) && b == Root(iblock, d)
    requires Fine(disk, a, first, b, d) && more == Child(disk, a, fl, d, b, base, 0, NDIR + d - 1)
    requires Covers(disk, a, iblock, base, log)
    ensures Covers(disk, a, iblock, base + Pow(a, d), log + more)
  {
    ChildData(disk, a, fl, first, 0, base, d, b, NDIR + d - 1);
    CoversTree(disk, a, iblock, d, base, b, log, more);
  }

  lemma CoversTree(disk: Disk, a: nat, iblock: seq<nat>, d: nat, base: nat, b: nat, log: seq<Event>, more: seq<Event>)
    requires DiskOk(disk, a) && |iblock| == NDIR + 3 && 1 <= d <= 3 && base == Base(a, d) && b == Root(iblock, d)
    requires Covers(disk, a, iblock, base, log) && Lists(disk, a, b, d, base, Pow(a, d), Datas(more))
    ensures Covers(disk, a, iblock, base + Pow(a, d), log + more)
  {
    assert ListsBlocks(disk, a, b, d, base, Pow(a, d), Datas(more)) && ListsLookups(disk, a, iblock, base, Datas(log));
    DatasConcat(log, more);
    forall u: seq<nat>, v: seq<nat> | |u| == base && |v| == Pow(a, d) && AreLookups(disk, a, iblock, u)
      && AreValues(disk, a, b, d, v)
      ensures AreLookups(disk, a, iblock, u + v)
    {
      LookupsOfTree(disk, a, iblock, d, base, b, u, v);
    }
    LookupsJoin(disk, a, iblock, d, base, b, Pow(a, d), base + Pow(a, d), Datas(log), Datas(more), Datas(log + more));
  }

  lemma LookupsJoin(disk: Disk, a: nat, iblock: seq<nat>, d: nat, base: nat, b: nat, p: nat, n: nat,
                    s: seq<(nat, nat)>, t: seq<(nat, nat)>, list: seq<(nat, nat)>)
    requires DiskOk(disk, a) && |iblock| == NDIR + 3 && n == base + p && list == s + t
    requires forall u: seq<nat>, v: seq<nat> ::
      |u| == base && |v| == p && AreLookups(disk, a, iblock, u) && AreValues(disk, a, b, d, v) ==>
        AreLookups(disk, a, iblock, u + v)
    requires ListsLookups(disk, a, iblock, base, s) && ListsBlocks(disk, a, b, d, base, p, t)
    ensures ListsLookups(disk, a, iblock, n, list)
  {
    var u: seq<nat> :| AreLookups(disk, a, iblock, u) && |u| == base && Numbered(s, 0, u);
    var v: seq<nat> :| AreValues(disk, a, b, d, v) && |v| == p && Numbered(t, base, v);
    Join(s, t, 0, base, u, v, u + v);
    LookupsIntro(disk, a, iblock, n, u + v, list);
  }

  lemma LookupsIntro(disk: Disk, a: nat, iblock: seq<nat>, n: nat, vals: seq<nat>, list: seq<(nat, nat)>)
    requires DiskOk(disk, a) && |iblock| == NDIR + 3
    requires AreLookups(disk, a, iblock, vals) && |vals| == n && Numbered(list, 0, vals)
    ensures ListsLookups(disk, a, iblock, n, list)
  {
  }

  /** The holes of the upper levels shift the offsets that are reported behind them. */
  lemma {:induction false} RefOffExact(d: nat, ptrs: seq<nat>, n: nat)
    requires n <= |ptrs|
    ensures RefOff(d, ptrs, n) == 4 * n <==> d == 1 || forall i :: 0 <= i < n ==> ptrs[i] != 0
    ensures RefOff(d, ptrs, n) <= 4 * n
  {
    if n > 0 {
      assert ptrs[..n][..n - 1] == ptrs[..n - 1];
      RefOffExact(d, ptrs, n - 1);
    }
  }

  class Context {
    const disk: Disk
    const a: nat
    const first: nat
    const fl: Flags
    var bcount: nat
    var log: seq<Event>
    var errcode: nat

    /** What a traversal of the tree of depth `d` under `b` has done. */
    twostate predicate Traversed(d: nat, b: nat, ref: nat, off: nat, error: bool)
      requires DiskOk(disk, a)
      reads this
    {
      && (error <==> !TreeOk(disk, a, first, b, d)) && (error <==> errcode != 0)
      && (!error ==>
           bcount == old(bcount) + Pow(a, d) && log == old(log) + Events(disk, a, fl, d, b, old(bcount), ref, off))
    }

    /** `block_iterate_ind` */
    method IterateInd(ind: nat, ref: nat, off: nat) returns (error: bool)
      requires DiskOk(disk, a) && ind != 0
      modifies this
      ensures Traversed(1, ind, ref, off, error)
    {
      PowOne(a);
      if fl.Before() {
        log := log + [Meta(1, ind, ref, off)];
      }
      if ind >= |disk| || ind < first {
        errcode := 1;
        return true;
      }
      errcode := 0;
      ghost var l0 := log;
      var offset := 0;
      for i := 0 to a
        invariant bcount == old(bcount) + i && offset == 4 * i && errcode == 0
        invariant log == l0 + Children(disk, a, fl, 1, ind, old(bcount), i)
      {
        var b := disk[ind][i];
        ChildOfInd(disk, a, fl, ind, old(bcount), i);
        Assoc(l0, Children(disk, a, fl, 1, ind, old(bcount), i), if b == 0 then [] else [Data(b, bcount, ind, offset)]);
        if b != 0 {
          log := log + [Data(b, bcount, ind, offset)];
        }
        offset := offset + 4;
        bcount := bcount + 1;
      }
      if fl.After() {
        log := log + [Meta(1, ind, ref, off)];
      }
      error := false;
      assert TreeOk(disk, a, first, ind, 1);
      EventsAround(disk, a, fl, 1, ind, old(bcount), ref, off, old(log));
    }

    /** The loop over the pointers of block `b` is at place `i`. */
    ghost predicate InBlock(d: nat, b: nat, base: nat, l0: seq<Event>, i: nat, offset: nat)
      requires DiskOk(disk, a) && d > 0 && b < |disk| && i <= a
      reads this
    {
      && bcount == base + Times(i, Pow(a, d - 1)) && offset == RefOff(d, disk[b], i)
      && log == l0 + Children(disk, a, fl, d, b, base, i) && errcode == 0
      && FineUpTo(disk, a, first, b, d - 1, i)
    }

    /** `block_iterate_dind` */
    method IterateDind(b: nat, ref: nat, off: nat) returns (error: bool)
      requires DiskOk(disk, a) && b != 0
      modifies this
      ensures Traversed(2, b, ref, off, error)
    {
      if fl.Before() {
        log := log + [Meta(2, b, ref, off)];
      }
      if b >= |disk| || b < first {
        errcode := 2;
        return true;
      }
      errcode := 0;
      FineBlock(disk, a, first, b, 1);
      error := IterateDindBlock(b);
      if fl.After() {
        log := log + [Meta(2, b, ref, off)];
      }
      if !error {
        EventsAround(disk, a, fl, 2, b, old(bcount), ref, off, old(log));
      }
    }

    /** Its loop over the pointers of the block. */
    method IterateDindBlock(b: nat) returns (error: bool)
      requires DiskOk(disk, a) && 0 < b < |disk| && errcode == 0
      modifies this
      ensures error <==> errcode != 0
      ensures error <==> !FineUpTo(disk, a, first, b, 1, a)
      ensures !error ==>
        bcount == old(bcount) + Pow(a, 2) && log == old(log) + Children(disk, a, fl, 2, b, old(bcount), a)
    {
      assert Pow(a, 1) == a by { PowSmall(a); }
      StartOfBlock(disk, a, fl, 2, b, old(bcount));
      TimesComm(a, Pow(a, 1));
      error := false;
      var offset := 0;
      for i := 0 to a
        invariant InBlock(2, b, old(bcount), old(log), i, offset)
      {
        NextFine(disk, a, first, b, 1, i);
        NextInBlock(disk, a, fl, first, 2, b, old(bcount), old(log), i);
        if disk[b][i] == 0 {
          bcount := bcount + a;
        } else {
          error := IterateInd(disk[b][i], b, offset);
          if error {
            return;
          }
          offset := offset + 4;
        }
      }
    }

    /** `block_iterate_tind` */
    method IterateTind(b: nat, ref: nat, off: nat) returns (error: bool)
      requires DiskOk(disk, a) && b != 0
      modifies this
      ensures Traversed(3, b, ref, off, error)
    {
      if fl.Before() {
        log := log + [Meta(3, b, ref, off)];
      }
      if b >= |disk| || b < first {
        errcode := 3;
        return true;
      }
      errcode := 0;
      FineBlock(disk, a, first, b, 2);
      error := IterateTindBlock(b);
      if fl.After() {
        log := log + [Meta(3, b, ref, off)];
      }
      if !error {
        EventsAround(disk, a, fl, 3, b, old(bcount), ref, off, old(log));
      }
    }

    /** Its loop over the pointers of the block. */
    method IterateTindBlock(b: nat) returns (error: bool)
      requires DiskOk(disk, a) && 0 < b < |disk| && errcode == 0
      modifies this
      ensures error <==> errcode != 0
      ensures error <==> !FineUpTo(disk, a, first, b, 2, a)
      ensures !error ==>
        bcount == old(bcount) + Pow(a, 3) && log == old(log) + Children(disk, a, fl, 3, b, old(bcount), a)
    {
      assert Pow(a, 2) == a * a by { PowSmall(a); }
      StartOfBlock(disk, a, fl, 3, b, old(bcount));
      TimesComm(a, Pow(a, 2));
      error := false;
      var offset := 0;
      for i := 0 to a
        invariant InBlock(3, b, old(bcount), old(log), i, offset)
      {
        NextFine(disk, a, first, b, 2, i);
        NextInBlock(disk, a, fl, first, 3, b, old(bcount), old(log), i);
        if disk[b][i] == 0 {
          bcount := bcount + a * a;
        } else {
          error := IterateDind(disk[b][i], b, offset);
          if error {
            return;
          }
          offset := offset + 4;
        }
      }
    }

    /** The block-mapped part of `ext2fs_block_iterate3`. */
    method Iterate(iblock: seq<nat>) returns (code: nat)
      requires DiskOk(disk, a) && |iblock| == NDIR + 3 && bcount == 0 && log == [] && errcode == 0
      modifies this
      ensures AllOk(disk, a, first, iblock) ==> code == 0 && Covers(disk, a, iblock, Total(a), log)
      ensures code != 0 <==> LastBad(disk, a, first, iblock)
    {
      IterateDirect(iblock);
      PowOne(a);
      var any := IterateRoot(1, iblock, false);
      any := IterateRoot(2, iblock, any);
      any := IterateRoot(3, iblock, any);
      code := if any then errcode else 0;
    }

    method IterateDirect(iblock: seq<nat>)
      requires DiskOk(disk, a) && |iblock| == NDIR + 3 && bcount == 0 && log == []
      modifies `bcount, `log
      ensures bcount == NDIR && Covers(disk, a, iblock, NDIR, log)
    {
      assert AreLookups(disk, a, iblock, []) && Datas([]) == [] && Entries(0, []) == [];
      assert Numbered([], 0, []);
      assert ListsLookups(disk, a, iblock, 0, Datas(log));
      for i := 0 to NDIR
        invariant bcount == i && Covers(disk, a, iblock, i, log)
      {
        DirectStep(disk, a, iblock, i, log);
        if iblock[i] != 0 {
          log := log + [Data(iblock[i], bcount, 0, i)];
        }
        bcount := bcount + 1;
      }
    }

    /** One of the three trees; a missing one is only counted. */
    method IterateRoot(d: nat, iblock: seq<nat>, any: bool) returns (any': bool)
      requires DiskOk(disk, a) && |iblock| == NDIR + 3 && 1 <= d <= 3
      requires !any ==> errcode == 0 && bcount == Base(a, d) && Covers(disk, a, iblock, Base(a, d), log)
      modifies this
      ensures any' <==> any || !TreeOk(disk, a, first, Root(iblock, d), d)
      ensures if Root(iblock, d) == 0 then errcode == old(errcode)
              else errcode != 0 <==> !TreeOk(disk, a, first, Root(iblock, d), d)
      ensures !any' ==> errcode == 0
      ensures !any' && d < 3 ==> bcount == Base(a, d) + Pow(a, d)
      ensures !any' ==> Covers(disk, a, iblock, Base(a, d) + Pow(a, d), log)
    {
      var b := iblock[NDIR + d - 1];
      var error := false;
      ghost var l0 := log;
      if b == 0 {
        assert Pow(a, d) == (if d == 1 then a else if d == 2 then a * a else a * a * a) by { PowSmall(a); }
        if d == 1 {
          bcount := bcount + a;
        } else if d == 2 {
          bcount := bcount + a * a;
        }
      } else if d == 1 {
        error := IterateInd(b, 0, NDIR);
      } else if d == 2 {
        error := IterateDind(b, 0, NDIR + 1);
      } else {
        error := IterateTind(b, 0, NDIR + 2);
      }
      any' := any || error;
      if !any' {
        assert TreeOk(disk, a, first, b, d);
        var base := Base(a, d);
        assert log == l0 + Child(disk, a, fl, d, b, base, 0, NDIR + d - 1);
        TreeData(disk, a, iblock, fl, first, d, base, b, l0, Child(disk, a, fl, d, b, base, 0, NDIR + d - 1));
      }
    }
  }

  lemma EventsAround(disk: Disk, a: nat, fl: Flags, d: nat, b: nat, base: nat, ref: nat, off: nat, log: seq<Event>)
    requires DiskOk(disk, a) && d > 0 && b < |disk|
    ensures log + Events(disk, a, fl, d, b, base, ref, off)
         == (if fl.Before() then log + [Meta(d, b, ref, off)] else log) + Children(disk, a, fl, d, b, base, a)
            + (if fl.After() then [Meta(d, b, ref, off)] else [])
  {
    var meta, middle := [Meta(d, b, ref, off)], Children(disk, a, fl, d, b, base, a);
    var before, after := if fl.Before() then meta else [], if fl.After() then meta else [];
    Assoc(log, before + middle, after);
    Assoc(log, before, middle);
  }

  lemma ChildOfInd(disk: Disk, a: nat, fl: Flags, ind: nat, base: nat, i: nat)
    requires DiskOk(disk, a) && ind < |disk| && i < a
    ensures Children(disk, a, fl, 1, ind, base, i + 1)
         == Children(disk, a, fl, 1, ind, base, i) + if disk[ind][i] == 0 then []
           else [Data(disk[ind][i], base + i, ind, 4 * i)]
  {
    PowOne(a);
    TimesIs(i, 1);
    var c, e, off := disk[ind][i], Pow(a, 0), RefOff(1, disk[ind], i);
    assert Children(disk, a, fl, 1, ind, base, i + 1)
        == Children(disk, a, fl, 1, ind, base, i) + Child(disk, a, fl, 0, c, base + Times(i, e), ind, off);
  }

  ghost predicate FineUpTo(disk: Disk, a: nat, first: nat, b: nat, e: nat, n: nat)
    requires DiskOk(disk, a) && b < |disk| && n <= a
  {
    forall j :: 0 <= j < n ==> Fine(disk, a, first, disk[b][j], e)
  }

  lemma NextFine(disk: Disk, a: nat, first: nat, b: nat, e: nat, i: nat)
    requires DiskOk(disk, a) && b < |disk| && i < a && FineUpTo(disk, a, first, b, e, i)
    ensures FineUpTo(disk, a, first, b, e, i + 1) <==> TreeOk(disk, a, first, disk[b][i], e)
    ensures !TreeOk(disk, a, first, disk[b][i], e) ==> !FineUpTo(disk, a, first, b, e, a)
  {
    assert Fine(disk, a, first, disk[b][i], e) <==> TreeOk(disk, a, first, disk[b][i], e);
  }

  lemma FineBlock(disk: Disk, a: nat, first: nat, b: nat, e: nat)
    requires DiskOk(disk, a) && first <= b < |disk| && b != 0
    ensures TreeOk(disk, a, first, b, e + 1) <==> FineUpTo(disk, a, first, b, e, a)
  {
    if FineUpTo(disk, a, first, b, e, a) {
      forall i | 0 <= i < a ensures TreeOk(disk, a, first, disk[b][i], e) {
        assert Fine(disk, a, first, disk[b][i], e);
      }
    }
  }

  lemma StartOfBlock(disk: Disk, a: nat, fl: Flags, d: nat, b: nat, base: nat)
    requires DiskOk(disk, a) && d > 0 && b < |disk|
    ensures Times(0, Pow(a, d - 1)) == 0 && Children(disk, a, fl, d, b, base, 0) == [] && RefOff(d, disk[b], 0) == 0
  {
    assert disk[b][..0] == [];
  }

  /** What changes from place `i` of a block to the next. */
  lemma NextInBlock(disk: Disk, a: nat, fl: Flags, first: nat, d: nat, b: nat, base: nat, l0: seq<Event>, i: nat)
    requires DiskOk(disk, a) && d > 1 && b < |disk| && i < a
    ensures var c, start, off := disk[b][i], base + Times(i, Pow(a, d - 1)), RefOff(d, disk[b], i);
            && base + Times(i + 1, Pow(a, d - 1)) == start + Pow(a, d - 1)
            && RefOff(d, disk[b], i + 1) == off + (if c == 0 then 0 else 4)
            && l0 + Children(disk, a, fl, d, b, base, i + 1)
               == l0 + Children(disk, a, fl, d, b, base, i) + Child(disk, a, fl, d - 1, c, start, b, off)
  {
    assert disk[b][..i + 1][..i] == disk[b][..i];
    Assoc(l0, Children(disk, a, fl, d, b, base, i),
          Child(disk, a, fl, d - 1, disk[b][i], base + Times(i, Pow(a, d - 1)), b, RefOff(d, disk[b], i)));
  }

  predicate AllOk(disk: Disk, a: nat, first: nat, iblock: seq<nat>)
    requires DiskOk(disk, a) && |iblock| == NDIR + 3
  {
    TreeOk(disk, a, first, Root(iblock, 1), 1) && TreeOk(disk, a, first, Root(iblock, 2), 2)
      && TreeOk(disk, a, first, Root(iblock, 3), 3)
  }

  /**
   The last tree that is there has a bad pointer. An error in an earlier tree is forgotten, because reading
   the root of the next tree clears the error code.
   */
  predicate LastBad(disk: Disk, a: nat, first: nat, iblock: seq<nat>)
    requires DiskOk(disk, a) && |iblock| == NDIR + 3
  {
    if Root(iblock, 3) != 0 then !TreeOk(disk, a, first, Root(iblock, 3), 3)
    else if Root(iblock, 2) != 0 then !TreeOk(disk, a, first, Root(iblock, 2), 2)
    else !TreeOk(disk, a, first, Root(iblock, 1), 1)
  }

  lemma DirectStep(disk: Disk, a: nat, iblock: seq<nat>, i: nat, log: seq<Event>)
    requires DiskOk(disk, a) && |iblock| == NDIR + 3 && i < NDIR && Covers(disk, a, iblock, i, log)
    ensures Covers(disk, a, iblock, i + 1, if iblock[i] == 0 then log else log + [Data(iblock[i], i, 0, i)])
  {
    assert ListsLookups(disk, a, iblock, i, Datas(log));
    DatasOne(iblock[i], i, 0, i);
    DatasConcat(log, [Data(iblock[i], i, 0, i)]);
    DirectJoin(disk, a, iblock, i, i + 1, Datas(log),
      Datas(if iblock[i] == 0 then log else log + [Data(iblock[i], i, 0, i)]));
  }

  lemma DirectJoin(disk: Disk, a: nat, iblock: seq<nat>, i: nat, n: nat, s: seq<(nat, nat)>, list: seq<(nat, nat)>)
    requires DiskOk(disk, a) && |iblock| == NDIR + 3 && i < NDIR && n == i + 1
    requires ListsLookups(disk, a, iblock, i, s) && list == s + Entry(i, iblock[i])
    ensures ListsLookups(disk, a, iblock, n, list)
  {
    var u: seq<nat> :| AreLookups(disk, a, iblock, u) && |u| == i && Numbered(s, 0, u);
    LookupDirect(disk, a, iblock, u, i);
    NumberedSnoc(s, 0, u, iblock[i]);
    LookupsIntro(disk, a, iblock, n, u + [iblock[i]], list);
  }

  lemma NumberedSnoc(s: seq<(nat, nat)>, base: nat, u: seq<nat>, w: nat)
    requires Numbered(s, base, u)
    ensures Numbered(s + Entry(base + |u|, w), base, u + [w])
  {
    assert s == Entries(base, u);
    assert (u + [w])[..|u|] == u;
  }

  lemma LookupDirect(disk: Disk, a: nat, iblock: seq<nat>, u: seq<nat>, i: nat)
    requires DiskOk(disk, a) && |iblock| == NDIR + 3 && i < NDIR && |u| == i && AreLookups(disk, a, iblock, u)
    ensures AreLookups(disk, a, iblock, u + [iblock[i]])
  {
    assert Lookup(disk, a, iblock, i) == iblock[i];
    forall k | 0 <= k < i + 1 ensures LookupIs(disk, a, iblock, k, (u + [iblock[i]])[k]) {
      if k < i {
        assert LookupIs(disk, a, iblock, k, u[k]);
      }
    }
  }

  /** The data calls are the mapped logical blocks, each once, in increasing order. */
  lemma CoversExactly(disk: Disk, a: nat, iblock: seq<nat>, n: nat, log: seq<Event>, l: nat, w: nat)
    requires DiskOk(disk, a) && |iblock| == NDIR + 3 && Covers(disk, a, iblock, n, log)
    ensures Increasing(Datas(log), n)
    ensures (l, w) in Datas(log) <==> l < n && w != 0 && Lookup(disk, a, iblock, l) == w
  {
    assert ListsLookups(disk, a, iblock, n, Datas(log));
    LookupsExact(disk, a, iblock, n, Datas(log), l, w, Lookup(disk, a, iblock, l));
  }

  lemma LookupsExact(disk: Disk, a: nat, iblock: seq<nat>, n: nat, list: seq<(nat, nat)>, l: nat, w: nat, x: nat)
    requires DiskOk(disk, a) && |iblock| == NDIR + 3 && ListsLookups(disk, a, iblock, n, list)
    requires LookupIs(disk, a, iblock, l, x)
    ensures Increasing(list, n)
    ensures (l, w) in list <==> l < n && w != 0 && x == w
  {
    var vals: seq<nat> :| AreLookups(disk, a, iblock, vals) && |vals| == n && Numbered(list, 0, vals);
    EntriesOrder(0, vals);
    EntriesMembers(0, vals, l, w);
    if l < n {
      SameLookup(disk, a, iblock, l, x, vals[l]);
    }
  }

  lemma SameLookup(disk: Disk, a: nat, iblock: seq<nat>, l: nat, x: nat, y: nat)
    requires DiskOk(disk, a) && |iblock| == NDIR + 3 && LookupIs(disk, a, iblock, l, x)
    requires LookupIs(disk, a, iblock, l, y)
    ensures x == y
  {
    assert Lookup(disk, a, iblock, l) == x;
  }

  lemma {:induction false} TreeOkReaches(disk: Disk, a: nat, first: nat, b: nat, path: seq<nat>)
    requires DiskOk(disk, a) && PathOk(path, a) && TreeOk(disk, a, first, b, |path|)
    ensures Reaches(disk, a, b, path)
    decreases |path|
  {
    if path != [] && b != 0 {
      assert path[0] < a;
      TreeOkReaches(disk, a, first, disk[b][path[0]], path[1..]);
    }
  }

  /** With valid indirect blocks every lookup that is not too big succeeds, so both traversals see the same map. */
  lemma LookupSucceeds(disk: Disk, a: nat, first: nat, iblock: seq<nat>, l: nat)
    requires DiskOk(disk, a) && |iblock| == NDIR + 3 && AllOk(disk, a, first, iblock)
    ensures Reaches(disk, a, iblock[Slot(a, l)], PathOf(a, l))
  {
    if l >= NDIR {
      var d := |PathOf(a, l)|;
      assert Root(iblock, d) == iblock[Slot(a, l)] && TreeOk(disk, a, first, Root(iblock, d), d);
      TreeOkReaches(disk, a, first, iblock[Slot(a, l)], PathOf(a, l));
    }
  }

  /** With blocks of at most 4096 bytes the pointers cannot map a block that a lookup refuses. */
  lemma NothingRefused(a: nat)
    requires a <= 1024
    ensures Total(a) < 0x1_0000_0000 - 1
  {
    PowSmall(a);
    MulMono(a, 1024, a);
    MulMono(a, 1024, a * a);
  }

  /** An iteration can miss a tree and still report success, whatever the block size. */
  lemma ErrorForgotten(a: nat)
    requires a > 0
    ensures exists disk: Disk, iblock: seq<nat> ::
              DiskOk(disk, a) && |iblock| == NDIR + 3 && !AllOk(disk, a, 1, iblock) && !LastBad(disk, a, 1, iblock)
  {
    var zero: seq<nat> := seq(a, _ => 0);
    var disk: Disk := [zero, zero];
    var iblock: seq<nat> := [0, 0, 0, 0, 0, 0, 0, 0, 0, 0, 0, 0, 5, 1, 0];
    assert DiskOk(disk, a);
    assert !TreeOk(disk, a, 1, 5, 1);
    assert forall k :: 0 <= k < a ==> TreeOk(disk, a, 1, disk[1][k], 1);
    assert TreeOk(disk, a, 1, 1, 2);
    assert Root(iblock, 1) == 5 && Root(iblock, 2) == 1 && Root(iblock, 3) == 0;
    assert !AllOk(disk, a, 1, iblock) && !LastBad(disk, a, 1, iblock);
  }

  /**
   Iteration and lookup see the same map: with valid indirect blocks of at most 4096 bytes, the calls give `l` the block
   `w` exactly if a lookup of `l` succeeds and returns `w`, which is not 0.
   */
  method IterateAndLookup(c: Context, inode: Inode, l: nat) returns (code: nat, err: Error, phys: nat)
    requires inode.Valid() && c.disk == inode.disk && c.a == inode.a <= 1024
    requires c.bcount == 0 && c.log == [] && c.errcode == 0 && AllOk(c.disk, c.a, c.first, inode.iblock)
    modifies c, inode
    ensures code == 0 && (err == NoError <==> l < 12 + c.a + c.a * c.a + c.a * c.a * c.a)
    ensures forall w: nat :: (l, w) in Datas(c.log) <==> err == NoError && phys == w && w != 0
    ensures Increasing(Datas(c.log), Total(c.a))
  {
    code := c.Iterate(inode.iblock);
    err, phys := inode.Bmap2(false, l, 0);
    PowSmall(c.a);
    NothingRefused(c.a);
    LookupSucceeds(c.disk, c.a, c.first, inode.iblock, l);
    forall w: nat
      ensures (l, w) in Datas(c.log) <==> err == NoError && phys == w && w != 0
      ensures Increasing(Datas(c.log), Total(c.a))
    {
      CoversExactly(c.disk, c.a, inode.iblock, Total(c.a), c.log, l, w);
    }
    CoversExactly(c.disk, c.a, inode.iblock, Total(c.a), c.log, l, 0);
  }
}
