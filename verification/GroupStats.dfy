/**
 Free-block accounting per block group (`alloc_stats.c`, `blknum.c`), without bigalloc: the group
 descriptors' counts and the superblock's count against the bits of the block bitmap.
 */
module GroupStats {
  import opened Bytes
  import opened Extents

  const TWO16 := 0x1_0000
  const TWO31 := 0x8000_0000

  datatype Geometry = Geometry(first: nat, perGroup: nat, blocks: nat, groups: nat) {

    /** `ext2fs_group_first_block2` */
    function First(g: nat): nat {
      first + perGroup * g
    }

    /** `ext2fs_group_last_block2` */
    function Last(g: nat): int {
      if g == groups - 1 then blocks - 1 else First(g) + (perGroup - 1)
    }

    /** `ext2fs_group_of_blk2` */
    function Of(blk: nat): nat
      requires perGroup > 0 && first <= blk
    {
      (blk - first) / perGroup
    }

    /** `ext2fs_group_blocks_count` */
    function Size(g: nat): nat
      requires perGroup > 0 && first <= blocks
    {
      if g == groups - 1 then
        var rest := (blocks - first) % perGroup;
        if rest == 0 then perGroup else rest
      else perGroup
    }

    /** The groups cover the blocks, the last one perhaps in part. */
    predicate Ok() {
      perGroup > 0 && groups > 0 && First(groups - 1) < blocks <= First(groups)
    }

    /** Where group g begins, and group g - 1 ends. */
    function Edge(g: nat): nat {
      if g >= groups then blocks else First(g)
    }

    function End(g: nat): nat {
      Edge(g + 1)
    }
  }

  lemma FirstNext(geo: Geometry, g: nat)
    ensures geo.First(g + 1) == geo.First(g) + geo.perGroup
  {
  }

  lemma {:induction false} EdgesUp(geo: Geometry, g: nat, h: nat)
    requires geo.Ok() && g <= h <= geo.groups
    ensures geo.Edge(g) <= geo.Edge(h) && (g < h ==> geo.Edge(g) < geo.Edge(h))
    decreases h - g
  {
    if g < h {
      EdgesUp(geo, g, h - 1);
      FirstNext(geo, h - 1);
    }
  }

  /** A group is what lies between two edges. */
  lemma GroupIs(geo: Geometry, g: nat)
    requires geo.Ok() && g < geo.groups
    ensures geo.First(g) == geo.Edge(g) && geo.Last(g) + 1 == geo.Edge(g + 1) && geo.Edge(g) < geo.Edge(g + 1)
    ensures geo.Edge(0) == geo.first && geo.Edge(g + 1) - geo.Edge(g) <= geo.perGroup
  {
    FirstNext(geo, g);
    EdgesUp(geo, g, g + 1);
  }

  /** A block lies in its group. */
  lemma InGroup(geo: Geometry, blk: nat)
    requires geo.Ok() && geo.first <= blk < geo.blocks
    ensures var g := geo.Of(blk); g < geo.groups && geo.Edge(g) <= blk < geo.Edge(g + 1)
    ensures var g := geo.Of(blk); geo.first + geo.perGroup * g <= blk < geo.first + geo.perGroup * (g + 1)
  {
    var g, d := geo.Of(blk), geo.perGroup;
    Quotient(blk - geo.first, d);
    if g >= geo.groups {
      ProductUp(d, geo.groups, g);
    }
    FirstNext(geo, g);
  }

  lemma Quotient(x: nat, d: nat)
    requires d > 0
    ensures d * (x / d) <= x < d * (x / d) + d
  {
  }

  lemma ProductUp(d: nat, g: nat, h: nat)
    requires g <= h
    ensures d * g <= d * h
  {
  }

  lemma QuotientIs(x: nat, d: nat, q: nat)
    requires d > 0 && d * q <= x < d * q + d
    ensures x / d == q && x % d == x - d * q
  {
    Quotient(x, d);
    if x / d < q {
      ProductUp(d, x / d + 1, q);
    } else if x / d > q {
      ProductUp(d, q + 1, x / d);
    }
  }

  /** `ext2fs_group_blocks_count` counts the blocks from the first to the last. */
  lemma SizeIs(geo: Geometry, g: nat)
    requires geo.Ok() && g < geo.groups
    ensures geo.Size(g) == geo.Last(g) + 1 - geo.First(g)
  {
    if g == geo.groups - 1 {
      FirstNext(geo, g);
      var x, d := geo.blocks - geo.first, geo.perGroup;
      if x == d * g + d {
        QuotientIs(x, d, g + 1);
      } else {
        QuotientIs(x, d, g);
      }
    }
  }

  // Counting bits.

  /** The clear bits of lo..hi - 1. */
  function Clear(used: set<nat>, lo: nat, hi: nat): (n: nat)
    ensures n <= if lo < hi then hi - lo else 0
    decreases hi
  {
    if lo >= hi then 0 else Clear(used, lo, hi - 1) + (if hi - 1 in used then 0 else 1)
  }

  /** The bits of lo..hi - 1 that are also in blk..blk + num - 1. */
  function Overlap(lo: nat, hi: nat, blk: nat, num: nat): nat {
    var a, b := if lo < blk then blk else lo, if hi < blk + num then hi else blk + num;
    if a < b then b - a else 0
  }

  /** Those of them that marking, or unmarking, the range changes. */
  function Changes(used: set<nat>, mark: bool, lo: nat, hi: nat, blk: nat, num: nat): nat
    decreases hi
  {
    if lo >= hi then 0
    else
      var one := if InRange(blk, num, hi - 1) && (hi - 1 in used) != mark then 1 else 0;
      Changes(used, mark, lo, hi - 1, blk, num) + one
  }

  function BlocksOf(blk: nat, num: nat): set<nat> {
    set b: nat | b < blk + num && InRange(blk, num, b)
  }

  function Marking(used: set<nat>, mark: bool, blk: nat, num: nat): set<nat> {
    if mark then used + BlocksOf(blk, num) else used - BlocksOf(blk, num)
  }

  /** Every block of the range is there to be taken, or to be given back. */
  predicate Ready(used: set<nat>, mark: bool, blk: nat, num: nat) {
    forall b: nat :: blk <= b < blk + num ==> (b in used) != mark
  }

  predicate ReadyWithin(used: set<nat>, mark: bool, blk: nat, num: nat, lo: nat, hi: nat) {
    forall b: nat :: lo <= b < hi && InRange(blk, num, b) ==> (b in used) != mark
  }

  function Sign(mark: bool): int {
    if mark then 1 else -1
  }

  lemma {:induction false} ClearAfter(used: set<nat>, mark: bool, lo: nat, hi: nat, blk: nat, num: nat)
    ensures Clear(Marking(used, mark, blk, num), lo, hi) ==
      Clear(used, lo, hi) - Sign(mark) * Changes(used, mark, lo, hi, blk, num)
    decreases hi
  {
    if lo < hi {
      ClearAfter(used, mark, lo, hi - 1, blk, num);
    }
  }

  /** A change for every block of the overlap, exactly if each of them is ready. */
  lemma {:induction false} ChangesAll(used: set<nat>, mark: bool, lo: nat, hi: nat, blk: nat, num: nat)
    ensures Changes(used, mark, lo, hi, blk, num) <= Overlap(lo, hi, blk, num)
    ensures Changes(used, mark, lo, hi, blk, num) == Overlap(lo, hi, blk, num) <==>
      ReadyWithin(used, mark, blk, num, lo, hi)
    decreases hi
  {
    if lo < hi {
      ChangesAll(used, mark, lo, hi - 1, blk, num);
      OverlapSnoc(lo, hi, blk, num);
    }
  }

  lemma OverlapSnoc(lo: nat, hi: nat, blk: nat, num: nat)
    requires lo < hi
    ensures Overlap(lo, hi, blk, num) == Overlap(lo, hi - 1, blk, num) + (if InRange(blk, num, hi - 1) then 1 else 0)
  {
  }

  lemma {:induction false} ClearSplit(used: set<nat>, lo: nat, mid: nat, hi: nat)
    requires lo <= mid <= hi
    ensures Clear(used, lo, hi) == Clear(used, lo, mid) + Clear(used, mid, hi)
    decreases hi
  {
    if mid < hi {
      ClearSplit(used, lo, mid, hi - 1);
    }
  }

  /** The clear bits of the first n groups. */
  function ClearByGroup(geo: Geometry, used: set<nat>, n: nat): nat {
    if n == 0 then 0 else ClearByGroup(geo, used, n - 1) + Clear(used, geo.Edge(n - 1), geo.Edge(n))
  }

  /** The groups partition the blocks. */
  lemma {:induction false} GroupsPartition(geo: Geometry, used: set<nat>, n: nat)
    requires geo.Ok() && n <= geo.groups
    ensures ClearByGroup(geo, used, n) == Clear(used, geo.first, geo.Edge(n))
  {
    GroupIs(geo, 0);
    if n > 0 {
      GroupsPartition(geo, used, n - 1);
      EdgesUp(geo, 0, n - 1);
      EdgesUp(geo, n - 1, n);
      ClearSplit(used, geo.first, geo.Edge(n - 1), geo.Edge(n));
    }
  }

  // The accounting.

  function Sum(free: seq<nat>): nat {
    if free == [] then 0 else Sum(free[..|free| - 1]) + free[|free| - 1]
  }

  /** Every group's count is the number of its clear bits. */
  ghost predicate GroupsCount(geo: Geometry, used: set<nat>, free: seq<nat>) {
    |free| == geo.groups && forall g :: 0 <= g < |free| ==> free[g] == Clear(used, geo.Edge(g), geo.End(g))
  }

  /** And the superblock's count is their sum. */
  ghost predicate Conserved(geo: Geometry, used: set<nat>, free: seq<nat>, total: nat) {
    GroupsCount(geo, used, free) && total == Sum(free)
  }

  lemma {:induction false} SumIsByGroup(geo: Geometry, used: set<nat>, free: seq<nat>, n: nat)
    requires GroupsCount(geo, used, free) && n <= |free|
    ensures Sum(free[..n]) == ClearByGroup(geo, used, n)
  {
    if n > 0 {
      SumIsByGroup(geo, used, free, n - 1);
      assert free[..n][..n - 1] == free[..n - 1];
    }
  }

  /** The sum of the groups' counts is the number of clear bits of the whole bitmap. */
  lemma SumIsClear(geo: Geometry, used: set<nat>, free: seq<nat>)
    requires geo.Ok() && GroupsCount(geo, used, free)
    ensures Sum(free) == Clear(used, geo.first, geo.blocks)
  {
    SumIsByGroup(geo, used, free, |free|);
    assert free[..|free|] == free;
    GroupsPartition(geo, used, geo.groups);
  }

  /** What the range loop does to a count that is kept in a field of a width. */
  function Less(count: nat, mark: bool, n: nat, width: Width): nat {
    width.Wrap(if mark then count - n else count + n)
  }

  /** The widths of the count fields. */
  datatype Width = Bits16 | Bits32 | Bits64 {
    function Limit(): nat {
      match this
      case Bits16 => TWO16
      case Bits32 => TWO32
      case Bits64 => TWO64
    }

    function Wrap(x: int): nat {
      match this
      case Bits16 => x % TWO16
      case Bits32 => x % TWO32
      case Bits64 => x % TWO64
    }
  }

  lemma LessExact(count: nat, mark: bool, n: nat, c: nat, room: nat, width: Width)
    requires c <= n <= room < width.Limit() && count <= room && 0 <= count - Sign(mark) * c <= room
    ensures Less(count, mark, n, width) == count - Sign(mark) * c <==> c == n
  {
  }

  ghost predicate Counted(geo: Geometry, mark: bool, blk: nat, num: nat, free: seq<nat>, free': seq<nat>, width: Width)
  {
    && |free| == |free'| == geo.groups
    && forall g :: 0 <= g < |free| ==>
         free'[g] == Less(free[g], mark, Overlap(geo.Edge(g), geo.End(g), blk, num), width)
  }

  lemma GroupExact(geo: Geometry, used: set<nat>, mark: bool, blk: nat, num: nat, g: nat, width: Width)
    requires geo.Ok() && g < geo.groups && geo.perGroup < width.Limit()
    ensures var lo, hi := geo.Edge(g), geo.End(g);
            Less(Clear(used, lo, hi), mark, Overlap(lo, hi, blk, num), width) ==
              Clear(Marking(used, mark, blk, num), lo, hi) <==>
            ReadyWithin(used, mark, blk, num, lo, hi)
  {
    var lo, hi := geo.Edge(g), geo.End(g);
    GroupIs(geo, g);
    ClearAfter(used, mark, lo, hi, blk, num);
    ChangesAll(used, mark, lo, hi, blk, num);
    LessExact(Clear(used, lo, hi), mark, Overlap(lo, hi, blk, num), Changes(used, mark, lo, hi, blk, num),
      geo.perGroup, width);
  }

  /** Marking or unmarking a range keeps the groups' counts right exactly if the whole range was ready. */
  lemma GroupsExact(geo: Geometry, used: set<nat>, mark: bool, blk: nat, num: nat, free: seq<nat>, free': seq<nat>,
      width: Width)
    requires geo.Ok() && geo.perGroup < width.Limit() && (num == 0 || geo.first <= blk) && blk + num <= geo.blocks
    requires GroupsCount(geo, used, free) && Counted(geo, mark, blk, num, free, free', width)
    ensures GroupsCount(geo, Marking(used, mark, blk, num), free') <==> Ready(used, mark, blk, num)
  {
    forall g: nat | g < geo.groups
      ensures free'[g] == Clear(Marking(used, mark, blk, num), geo.Edge(g), geo.End(g)) <==>
              ReadyWithin(used, mark, blk, num, geo.Edge(g), geo.End(g))
    {
      GroupExact(geo, used, mark, blk, num, g, width);
    }
    if GroupsCount(geo, Marking(used, mark, blk, num), free') {
      forall b: nat | blk <= b < blk + num ensures (b in used) != mark {
        InGroup(geo, b);
        assert free'[geo.Of(b)] == Clear(Marking(used, mark, blk, num), geo.Edge(geo.Of(b)), geo.End(geo.Of(b)));
        assert InRange(blk, num, b);
      }
    }
  }

  /** The same with the superblock's count: the accounting is conserved exactly if the range was ready. */
  lemma ConservedExact(geo: Geometry, used: set<nat>, mark: bool, blk: nat, num: nat, free: seq<nat>,
      free': seq<nat>, total: nat, width: Width, superWidth: Width)
    requires geo.Ok() && geo.perGroup < width.Limit() && (num == 0 || geo.first <= blk) && blk + num <= geo.blocks
    requires geo.blocks < superWidth.Limit()
    requires Conserved(geo, used, free, total) && Counted(geo, mark, blk, num, free, free', width)
    ensures Conserved(geo, Marking(used, mark, blk, num), free', Less(total, mark, num, superWidth)) <==>
      Ready(used, mark, blk, num)
  {
    GroupsExact(geo, used, mark, blk, num, free, free', width);
    if Ready(used, mark, blk, num) {
      var used' := Marking(used, mark, blk, num);
      SumIsClear(geo, used, free);
      SumIsClear(geo, used', free');
      ClearAfter(used, mark, geo.first, geo.blocks, blk, num);
      ChangesAll(used, mark, geo.first, geo.blocks, blk, num);
      LessExact(total, mark, num, num, geo.blocks, superWidth);
    }
  }

  /** Taking a block that is in use breaks it, on every file system. */
  lemma TakenAgain(geo: Geometry, used: set<nat>, b: nat, free: seq<nat>, free': seq<nat>, total: nat, width: Width,
      superWidth: Width)
    requires geo.Ok() && geo.perGroup < width.Limit() && geo.first <= b < geo.blocks < superWidth.Limit() && b in used
    requires Conserved(geo, used, free, total) && Counted(geo, true, b, 1, free, free', width)
    ensures !Conserved(geo, Marking(used, true, b, 1), free', Less(total, true, 1, superWidth))
  {
    ConservedExact(geo, used, true, b, 1, free, free', total, width, superWidth);
  }

  lemma {:induction false} NoneClear(used: set<nat>, lo: nat, hi: nat)
    requires Ready(used, false, lo, if lo < hi then hi - lo else 0)
    ensures Clear(used, lo, hi) == 0
    decreases hi
  {
    if lo < hi {
      assert hi - 1 in used;
      NoneClear(used, lo, hi - 1);
    }
  }

  lemma {:induction false} SumOfNone(free: seq<nat>)
    requires forall g :: 0 <= g < |free| ==> free[g] == 0
    ensures Sum(free) == 0
  {
    if free != [] {
      SumOfNone(free[..|free| - 1]);
    }
  }

  lemma FullConserved(geo: Geometry, used: set<nat>, free: seq<nat>, total: nat)
    requires geo.Ok() && Ready(used, false, geo.first, geo.blocks - geo.first)
    requires |free| == geo.groups && (forall g :: 0 <= g < |free| ==> free[g] == 0) && total == 0
    ensures Conserved(geo, used, free, total)
  {
    forall g: nat | g < geo.groups ensures Clear(used, geo.Edge(g), geo.End(g)) == 0 {
      GroupIs(geo, g);
      EdgesUp(geo, 0, g);
      EdgesUp(geo, g + 1, geo.groups);
      NoneClear(used, geo.Edge(g), geo.End(g));
    }
    SumOfNone(free);
  }

  /** So for every geometry there is a state, the full one, and a call that breaks the accounting. */
  lemma FullTaken(geo: Geometry, used: set<nat>, free: seq<nat>, free': seq<nat>, total: nat, width: Width,
      superWidth: Width)
    requires geo.Ok() && geo.perGroup < width.Limit() && geo.blocks < superWidth.Limit()
    requires Ready(used, false, geo.first, geo.blocks - geo.first)
    requires |free| == geo.groups && (forall g :: 0 <= g < |free| ==> free[g] == 0) && total == 0
    requires Counted(geo, true, geo.first, 1, free, free', width)
    ensures Conserved(geo, used, free, total)
    ensures !Conserved(geo, Marking(used, true, geo.first, 1), free', Less(total, true, 1, superWidth))
  {
    FullConserved(geo, used, free, total);
    GroupIs(geo, 0);
    EdgesUp(geo, 0, geo.groups);
    TakenAgain(geo, used, geo.first, free, free', total, width, superWidth);
  }

  // The loop over groups.

  lemma LessMore(count: nat, mark: bool, n: nat, m: nat, width: Width)
    ensures Less(Less(count, mark, n, width), mark, m, width) == Less(count, mark, n + m, width)
  {
    var x: int := if mark then count - n else count + n;
    var d: int := if mark then 0 - m else m;
    WrapMore(x, d, width);
  }

  lemma WrapMore(x: int, d: int, width: Width)
    ensures width.Wrap(width.Wrap(x) + d) == width.Wrap(x + d)
  {
    match width
    case Bits16 => WrapMore16(x, d);
    case Bits32 => WrapMore32(x, d);
    case Bits64 => WrapMore64(x, d);
  }

  lemma WrapMore16(x: int, d: int)
    ensures (x % TWO16 + d) % TWO16 == (x + d) % TWO16
  {
  }

  lemma WrapMore32(x: int, d: int)
    ensures (x % TWO32 + d) % TWO32 == (x + d) % TWO32
  {
  }

  lemma WrapMore64(x: int, d: int)
    ensures (x % TWO64 + d) % TWO64 == (x + d) % TWO64
  {
  }

  lemma LessNone(count: nat, mark: bool, width: Width)
    requires width.Limit() > count
    ensures Less(count, mark, 0, width) == count
  {
  }

  /** Only the group that holds the next n blocks overlaps more of the range. */
  lemma OverlapStep(geo: Geometry, g: nat, k: nat, blk: nat, done: nat, n: nat)
    requires geo.Ok() && g < geo.groups && k < geo.groups && geo.Edge(k) <= blk + done && blk + done + n <= geo.End(k)
    ensures Overlap(geo.Edge(g), geo.End(g), blk, done + n) ==
            Overlap(geo.Edge(g), geo.End(g), blk, done) + (if g == k then n else 0)
  {
    if g < k {
      EdgesUp(geo, g + 1, k);
    } else if g > k {
      EdgesUp(geo, k + 1, g);
    }
  }

  lemma CountedStep(geo: Geometry, mark: bool, blk: nat, done: nat, n: nat, k: nat,
                    free: seq<nat>, now: seq<nat>, next: seq<nat>, width: Width, after: nat)
    requires geo.Ok() && k < geo.groups && geo.Edge(k) <= blk + done && blk + done + n <= geo.End(k)
    requires Counted(geo, mark, blk, done, free, now, width)
    requires next == now[k := Less(now[k], mark, n, width)] && after == done + n
    ensures Counted(geo, mark, blk, after, free, next, width)
  {
    forall g: nat | g < geo.groups
      ensures next[g] == Less(free[g], mark, Overlap(geo.Edge(g), geo.End(g), blk, after), width)
    {
      OverlapStep(geo, g, k, blk, done, n);
      assert now[g] == Less(free[g], mark, Overlap(geo.Edge(g), geo.End(g), blk, done), width);
      GroupStep(free[g], mark, Overlap(geo.Edge(g), geo.End(g), blk, done), n, width, now[g], next[g], g == k,
                Overlap(geo.Edge(g), geo.End(g), blk, after));
    }
  }

  /** One count: it goes down by the new share if the group has one. */
  lemma GroupStep(free: nat, mark: bool, had: nat, n: nat, width: Width, now: nat, next: nat, here: bool, has: nat)
    requires now == Less(free, mark, had, width) && has == had + (if here then n else 0)
    requires next == if here then Less(now, mark, n, width) else now
    ensures next == Less(free, mark, has, width)
  {
    LessMore(free, mark, had, n, width);
  }

  lemma CountedNone(geo: Geometry, mark: bool, blk: nat, free: seq<nat>, width: Width)
    requires |free| == geo.groups && forall g :: 0 <= g < |free| ==> free[g] < width.Limit()
    ensures Counted(geo, mark, blk, 0, free, free, width)
  {
    forall g: nat | g < geo.groups ensures free[g] ==
      Less(free[g], mark, Overlap(geo.Edge(g), geo.End(g), blk, 0), width) {
      LessNone(free[g], mark, width);
    }
  }

  /** The counts after the first `done` blocks of the range. */
  ghost predicate TakenExactly(geo: Geometry, mark: bool, start: nat, done: nat, free: seq<nat>, now: seq<nat>,
      width: Width, total: nat, totalNow: nat, superWidth: Width)
  {
    && Counted(geo, mark, start, done, free, now, width) && totalNow == Less(total, mark, done, superWidth)
  }

  /** The same, folded: the bound variable keeps the definition from being expanded at every mention. */
  ghost predicate Taken(geo: Geometry, mark: bool, start: nat, done: nat, free: seq<nat>, now: seq<nat>, width: Width,
                        total: nat, totalNow: nat, superWidth: Width)
  {
    forall d: nat :: d == done ==> TakenExactly(geo, mark, start, d, free, now, width, total, totalNow, superWidth)
  }

  lemma TakenNone(geo: Geometry, mark: bool, start: nat, free: seq<nat>, width: Width, total: nat, superWidth: Width)
    requires |free| == geo.groups && (forall g :: 0 <= g < |free| ==> free[g] < width.Limit())
    requires total < superWidth.Limit()
    ensures Taken(geo, mark, start, 0, free, free, width, total, total, superWidth)
  {
    CountedNone(geo, mark, start, free, width);
    LessNone(total, mark, superWidth);
    assert TakenExactly(geo, mark, start, 0, free, free, width, total, total, superWidth);
  }

  lemma TakenStep(geo: Geometry, mark: bool, start: nat, done: nat, n: nat, k: nat, free: seq<nat>, now: seq<nat>,
      next: seq<nat>, width: Width, total: nat, totalNow: nat, totalNext: nat, superWidth: Width, after: nat)
    requires Taken(geo, mark, start, done, free, now, width, total, totalNow, superWidth)
    requires geo.Ok() && k < geo.groups == |now| && geo.Edge(k) <= start + done && start + done + n <= geo.End(k)
    requires next == now[k := Less(now[k], mark, n, width)]
    requires totalNext == Less(totalNow, mark, n, superWidth) && after == done + n
    ensures Taken(geo, mark, start, after, free, next, width, total, totalNext, superWidth)
  {
    TakenAll(geo, mark, start, done, free, now, width, total, totalNow, superWidth);
    assert Counted(geo, mark, start, after, free, next, width) by {
      CountedStep(geo, mark, start, done, n, k, free, now, next, width, after);
    }
    assert totalNext == Less(total, mark, after, superWidth) by {
      LessMore(total, mark, done, n, superWidth);
    }
    assert TakenExactly(geo, mark, start, after, free, next, width, total, totalNext, superWidth);
  }

  lemma TakenAll(geo: Geometry, mark: bool, start: nat, count: nat, free: seq<nat>, now: seq<nat>, width: Width,
                 total: nat, totalNow: nat, superWidth: Width)
    requires Taken(geo, mark, start, count, free, now, width, total, totalNow, superWidth)
    ensures Counted(geo, mark, start, count, free, now, width) && totalNow == Less(total, mark, count, superWidth)
  {
    assert TakenExactly(geo, mark, start, count, free, now, width, total, totalNow, superWidth);
  }

  // One block, and any change of its use.

  function Abs(x: int): nat {
    if x < 0 then -x else x
  }

  /** How much the number of clear bits goes down when the block's bit is set, or else cleared. */
  function Step(used: set<nat>, blk: nat, inuse: int): int {
    if inuse > 0 then (if blk in used then 0 else 1) else (if blk in used then -1 else 0)
  }

  lemma {:induction false} ChangesOne(used: set<nat>, mark: bool, lo: nat, hi: nat, blk: nat)
    ensures Changes(used, mark, lo, hi, blk, 1) == if lo <= blk < hi && (blk in used) != mark then 1 else 0
    decreases hi
  {
    if lo < hi {
      ChangesOne(used, mark, lo, hi - 1, blk);
    }
  }

  lemma LessStep(total: nat, inuse: int, step: int, width: Width)
    requires width != Bits16 && -1 <= step <= 1 && -TWO31 <= inuse < TWO31 && 0 <= total - step && total < width.Limit()
    requires Less(total, inuse > 0, Abs(inuse), width) == total - step
    ensures inuse == step
  {
  }

  /** If the superblock's count comes out right, the change was the one that the bitmap made. */
  lemma OneOnlyIf(geo: Geometry, used: set<nat>, blk: nat, inuse: int, free: seq<nat>, free': seq<nat>, total: nat,
      width: Width)
    requires geo.Ok() && geo.first <= blk < geo.blocks < width.Limit() && width != Bits16 && -TWO31 <= inuse < TWO31
    requires Conserved(geo, used, free, total)
    requires Conserved(geo, Marking(used, inuse > 0, blk, 1), free', Less(total, inuse > 0, Abs(inuse), width))
    ensures inuse == Step(used, blk, inuse)
  {
    SumIsClear(geo, used, free);
    SumIsClear(geo, Marking(used, inuse > 0, blk, 1), free');
    ClearAfter(used, inuse > 0, geo.first, geo.blocks, blk, 1);
    ChangesOne(used, inuse > 0, geo.first, geo.blocks, blk);
    LessStep(total, inuse, Step(used, blk, inuse), width);
  }

  lemma OneTaken(geo: Geometry, used: set<nat>, blk: nat, mark: bool, k: nat, free: seq<nat>, free': seq<nat>,
      total: nat, width: Width, superWidth: Width)
    requires geo.Ok() && geo.perGroup < width.Limit() && geo.first <= blk < geo.blocks < superWidth.Limit()
    requires k < geo.groups && geo.Edge(k) <= blk < geo.End(k) && (blk in used) != mark
    requires Conserved(geo, used, free, total) && free' == free[k := Less(free[k], mark, 1, width)]
    ensures Conserved(geo, Marking(used, mark, blk, 1), free', Less(total, mark, 1, superWidth))
  {
    assert Counted(geo, mark, blk, 1, free, free', width) by {
      CountsFit(geo, used, free, total, width, superWidth);
      CountedNone(geo, mark, blk, free, width);
      CountedStep(geo, mark, blk, 0, 1, k, free, free, free', width, 1);
    }
    ConservedExact(geo, used, mark, blk, 1, free, free', total, width, superWidth);
  }

  lemma OneKept(geo: Geometry, used: set<nat>, blk: nat, k: nat, free: seq<nat>, free': seq<nat>, total: nat,
                width: Width, superWidth: Width)
    requires geo.Ok() && geo.perGroup < width.Limit() && geo.first <= blk < geo.blocks < superWidth.Limit()
    requires k < geo.groups && blk !in used
    requires Conserved(geo, used, free, total) && free' == free[k := Less(free[k], false, 0, width)]
    ensures Conserved(geo, Marking(used, false, blk, 1), free', Less(total, false, 0, superWidth))
  {
    CountsFit(geo, used, free, total, width, superWidth);
    LessNone(free[k], false, width);
    LessNone(total, false, superWidth);
    assert free' == free && Marking(used, false, blk, 1) == used;
  }

  /** The accounting is conserved exactly if the count went down by what the bitmap made it. */
  lemma OneExact(geo: Geometry, used: set<nat>, used': set<nat>, blk: nat, inuse: int, k: nat, free: seq<nat>,
      free': seq<nat>, total: nat, total': nat, width: Width, superWidth: Width)
    requires geo.Ok() && geo.perGroup < width.Limit() && geo.first <= blk < geo.blocks < superWidth.Limit()
    requires superWidth != Bits16 && -TWO31 <= inuse < TWO31 && k < geo.groups && geo.Edge(k) <= blk < geo.End(k)
    requires Conserved(geo, used, free, total) && free' == free[k := Less(free[k], inuse > 0, Abs(inuse), width)]
    requires used' == Marking(used, inuse > 0, blk, 1) && total' == Less(total, inuse > 0, Abs(inuse), superWidth)
    ensures Conserved(geo, used', free', total') <==> inuse == Step(used, blk, inuse)
  {
    if inuse == Step(used, blk, inuse) {
      if inuse == 0 {
        OneKept(geo, used, blk, k, free, free', total, width, superWidth);
      } else {
        OneTaken(geo, used, blk, inuse > 0, k, free, free', total, width, superWidth);
      }
    } else if Conserved(geo, used', free', total') {
      OneOnlyIf(geo, used, blk, inuse, free, free', total, superWidth);
    }
  }

  lemma CountsFit(geo: Geometry, used: set<nat>, free: seq<nat>, total: nat, width: Width, superWidth: Width)
    requires geo.Ok() && geo.perGroup < width.Limit() && geo.blocks < superWidth.Limit()
    requires Conserved(geo, used, free, total)
    ensures total < superWidth.Limit() && forall g :: 0 <= g < |free| ==> free[g] < width.Limit()
  {
    SumIsClear(geo, used, free);
    forall g: nat | g < |free| ensures free[g] < width.Limit() {
      GroupIs(geo, g);
    }
  }

  /** A count in two halves; the high half is there only in the 64-bit layout. */
  function Field(wide: bool, low: nat, high: nat, half: nat): nat {
    if wide then low + half * high else low
  }

  function Counts(wide: bool, low: seq<nat>, high: seq<nat>): (r: seq<nat>)
    requires |low| == |high|
    ensures |r| == |low|
  {
    seq(|low|, i requires 0 <= i < |low| => Field(wide, low[i], high[i], TWO16))
  }

  lemma SetHalves(wide: bool, n: nat, high: nat)
    requires n < TWO32
    ensures Field(wide, n % TWO16, if wide then n / TWO16 else high, TWO16) == (if wide then Bits32 else Bits16).Wrap(n)
  {
  }

  lemma LessTruncated(count: nat, mark: bool, n: nat, width: Width)
    requires width != Bits64
    ensures width.Wrap(Less(count, mark, n, Bits32)) == Less(count, mark, n, width)
  {
  }

  lemma SuperHalves(wide: bool, count: nat, mark: bool, n: nat, high: nat)
    ensures var now := Less(count, mark, n, Bits64);
            Field(wide, now % TWO32, if wide then now / TWO32 else high, TWO32) ==
              Less(count, mark, n, if wide then Bits64 else Bits32)
  {
    var x := if mark then count - n else count + n;
    assert x % TWO64 % TWO32 == x % TWO32;
  }

  class Stats {
    const geo: Geometry
    const wide: bool
    var used: set<nat>
    var low: seq<nat>
    var high: seq<nat>
    var superLow: nat
    var superHigh: nat
    var uninit: seq<bool>

    function GroupWidth(): Width {
      if wide then Bits32 else Bits16
    }

    function SuperWidth(): Width {
      if wide then Bits64 else Bits32
    }

    /** The fields hold what their widths allow, and the widths hold what the geometry needs. */
    ghost predicate Valid()
      reads this
    {
      && geo.Ok() && geo.perGroup < GroupWidth().Limit() && geo.blocks < SuperWidth().Limit()
      && |low| == |high| == |uninit| == geo.groups && superLow < TWO32 && superHigh < TWO32
      && forall g :: 0 <= g < geo.groups ==> low[g] < TWO16 && high[g] < TWO16
    }

    ghost function Free(): (r: seq<nat>)
      requires Valid()
      reads this
      ensures |r| == geo.groups && forall g :: 0 <= g < |r| ==> r[g] < GroupWidth().Limit()
    {
      Counts(wide, low, high)
    }

    ghost function Total(): (r: nat)
      requires Valid()
      reads this
      ensures r < SuperWidth().Limit()
    {
      Field(wide, superLow, superHigh, TWO32)
    }

    /** `ext2fs_bg_free_blocks_count` */
    method GetFree(g: nat) returns (n: nat)
      requires Valid() && g < geo.groups
      ensures n == Free()[g] && n < TWO32
    {
      n := Field(wide, low[g], high[g], TWO16);
    }

    /** `ext2fs_bg_free_blocks_count_set` */
    method SetFree(g: nat, n: nat)
      requires Valid() && g < geo.groups && n < TWO32
      modifies `low, `high
      ensures Valid() && Free() == old(Free())[g := GroupWidth().Wrap(n)]
    {
      SetHalves(wide, n, high[g]);
      low := low[g := n % TWO16];
      if wide {
        high := high[g := n / TWO16];
      }
    }

    /** `ext2fs_free_blocks_count_add` */
    method AddTotal(mark: bool, n: nat)
      requires Valid()
      modifies `superLow, `superHigh
      ensures Valid() && Total() == Less(old(Total()), mark, n, SuperWidth())
    {
      var count := Field(wide, superLow, superHigh, TWO32);
      SuperHalves(wide, count, mark, n, superHigh);
      var now := Less(count, mark, n, Bits64);
      superLow := now % TWO32;
      if wide {
        superHigh := now / TWO32;
      }
    }

    /** Both counts go down, or up, by n. */
    method Adjust(group: nat, mark: bool, n: nat)
      requires Valid() && group < geo.groups
      modifies `low, `high, `superLow, `superHigh, `uninit
      ensures Valid() && Free() == old(Free())[group := Less(old(Free()[group]), mark, n, GroupWidth())]
      ensures Total() == Less(old(Total()), mark, n, SuperWidth()) && uninit == old(uninit)[group := false]
    {
      var free := GetFree(group);
      LessTruncated(free, mark, n, GroupWidth());
      SetFree(group, Less(free, mark, n, Bits32));
      uninit := uninit[group := false];
      AddTotal(mark, n);
    }

    /** One pass of the loop: the blocks from `blk` on that lie in its group. */
    method TakeFromGroup(mark: bool, blk: nat, num: nat) returns (n: nat, ghost k: nat)
      requires Valid() && num > 0 && geo.first <= blk && blk + num <= geo.blocks
      modifies `low, `high, `superLow, `superHigh, `uninit
      ensures Valid() && 0 < n <= num && k < geo.groups && geo.Edge(k) <= blk && blk + n <= geo.End(k)
      ensures Free() == old(Free())[k := Less(old(Free()[k]), mark, n, GroupWidth())]
      ensures Total() == Less(old(Total()), mark, n, SuperWidth()) && uninit == old(uninit)[k := false]
    {
      var group := geo.Of(blk);
      InGroup(geo, blk);
      GroupIs(geo, group);
      k := group;
      var last := geo.Last(group);
      n := num;
      if blk + num > last {
        n := last - blk + 1;
      }
      Adjust(group, mark, n);
    }

    /** The loop of `ext2fs_block_alloc_stats_range`. */
    method TakeRange(mark: bool, start: nat, count: nat)
      requires Valid() && (count == 0 || geo.first <= start) && start + count <= geo.blocks
      modifies `low, `high, `superLow, `superHigh, `uninit
      ensures Valid() && Counted(geo, mark, start, count, old(Free()), Free(), GroupWidth())
      ensures Total() == Less(old(Total()), mark, count, SuperWidth())
    {
      var blk, num := start, count;
      TakenNone(geo, mark, start, Free(), GroupWidth(), Total(), SuperWidth());
      while num > 0
        invariant Valid() && start <= blk && 0 <= num && blk + num == start + count
        invariant Taken(geo, mark, start, blk - start, old(Free()), Free(), GroupWidth(), old(Total()), Total(),
          SuperWidth())
      {
        ghost var now, totalNow := Free(), Total();
        var n, k := TakeFromGroup(mark, blk, num);
        TakenStep(geo, mark, start, blk - start, n, k, old(Free()), now, Free(), GroupWidth(), old(Total()),
          totalNow, Total(), SuperWidth(), blk + n - start);
        blk, num := blk + n, num - n;
      }
      TakenAll(geo, mark, start, count, old(Free()), Free(), GroupWidth(), old(Total()), Total(), SuperWidth());
    }

    /** `ext2fs_block_alloc_stats_range` */
    method AllocStatsRange(start: nat, count: nat, inuse: int)
      requires Valid() && (count == 0 || geo.first <= start)
      modifies this
      ensures Valid()
      ensures start + count > geo.blocks || inuse == 0 ==>
        used == old(used) && Free() == old(Free()) && Total() == old(Total())
      ensures start + count <= geo.blocks && inuse != 0 ==>
                && used == Marking(old(used), inuse > 0, start, count)
                && Counted(geo, inuse > 0, start, count, old(Free()), Free(), GroupWidth())
                && Total() == Less(old(Total()), inuse > 0, count, SuperWidth())
      ensures start + count <= geo.blocks && inuse != 0 ==>
        forall b: nat :: b in used <==> if start <= b < start + count then inuse > 0 else b in old(used)
      ensures start + count <= geo.blocks && inuse != 0 && old(Conserved(geo, used, Free(), Total())) ==>
                (Conserved(geo, used, Free(), Total()) <==> Ready(old(used), inuse > 0, start, count))
    {
      if start + count > geo.blocks || inuse == 0 {
        return;
      }
      var mark := inuse > 0;
      used := Marking(used, mark, start, count);
      TakeRange(mark, start, count);
      if old(Conserved(geo, used, Free(), Total())) {
        ConservedExact(geo, old(used), mark, start, count, old(Free()), Free(), old(Total()), GroupWidth(),
          SuperWidth());
      }
    }

    /** `ext2fs_block_alloc_stats2` */
    method AllocStats(blk: nat, inuse: int)
      requires Valid() && -TWO31 <= inuse < TWO31
      modifies this
      ensures Valid()
      ensures !(geo.first <= blk < geo.blocks) ==> used == old(used) && Free() == old(Free()) && Total() == old(Total())
      ensures geo.first <= blk < geo.blocks ==> used == Marking(old(used), inuse > 0, blk, 1)
      ensures geo.first <= blk < geo.blocks && old(Conserved(geo, used, Free(), Total())) ==>
                (Conserved(geo, used, Free(), Total()) <==> inuse == Step(old(used), blk, inuse))
    {
      if blk < geo.first || blk >= geo.blocks {
        return;
      }
      used := Marking(used, inuse > 0, blk, 1);
      ghost var k := AdjustOne(blk, inuse);
      if old(Conserved(geo, used, Free(), Total())) {
        OneExact(geo, old(used), used, blk, inuse, k, old(Free()), Free(), old(Total()), Total(), GroupWidth(),
          SuperWidth());
      }
    }

    method AdjustOne(blk: nat, inuse: int) returns (ghost k: nat)
      requires Valid() && geo.first <= blk < geo.blocks
      modifies `low, `high, `superLow, `superHigh, `uninit
      ensures Valid() && k < geo.groups && geo.Edge(k) <= blk < geo.End(k)
      ensures Free() == old(Free())[k := Less(old(Free()[k]), inuse > 0, Abs(inuse), GroupWidth())]
      ensures Total() == Less(old(Total()), inuse > 0, Abs(inuse), SuperWidth()) && uninit == old(uninit)[k := false]
    {
      var group := geo.Of(blk);
      InGroup(geo, blk);
      k := group;
      Adjust(group, inuse > 0, Abs(inuse));
    }

    /** Taking a clear range and giving it back, or the other way round, restores the bitmap and every count. */
    method ThereAndBack(start: nat, count: nat, inuse: int)
      requires Valid() && Conserved(geo, used, Free(), Total()) && (count == 0 || geo.first <= start)
      requires start + count <= geo.blocks && inuse != 0 ==> Ready(used, inuse > 0, start, count)
      modifies this
      ensures Valid() && used == old(used) && Free() == old(Free()) && Total() == old(Total())
    {
      if Ready(used, inuse > 0, start, count) {
        MarkUnmark(used, inuse > 0, start, count);
      }
      AllocStatsRange(start, count, inuse);
      AllocStatsRange(start, count, -inuse);
      assert Conserved(geo, used, Free(), Total());
    }

    /** Over every run of changes that take clear ranges and give back used ones, the accounting is conserved. */
    method Run(changes: seq<Change>)
      requires Valid() && Conserved(geo, used, Free(), Total()) && AllReady(geo, used, changes)
      modifies this
      ensures Valid() && Conserved(geo, used, Free(), Total()) && used == AfterAll(geo, old(used), changes)
    {
      assert changes[0..] == changes;
      for i := 0 to |changes|
        invariant Valid() && Conserved(geo, used, Free(), Total()) && AllReady(geo, used, changes[i..])
        invariant AfterAll(geo, old(used), changes) == AfterAll(geo, used, changes[i..])
      {
        assert changes[i..][0] == changes[i] && changes[i..][1..] == changes[i + 1..];
        AllocStatsRange(changes[i].blk, changes[i].num, changes[i].inuse);
      }
    }
  }

  datatype Change = Change(blk: nat, num: nat, inuse: int)

  function Changed(geo: Geometry, used: set<nat>, c: Change): set<nat> {
    if c.blk + c.num > geo.blocks || c.inuse == 0 then used else Marking(used, c.inuse > 0, c.blk, c.num)
  }

  function AfterAll(geo: Geometry, used: set<nat>, changes: seq<Change>): set<nat>
    decreases |changes|
  {
    if changes == [] then used else AfterAll(geo, Changed(geo, used, changes[0]), changes[1..])
  }

  /** Each change finds its range ready, or is refused. */
  predicate AllReady(geo: Geometry, used: set<nat>, changes: seq<Change>)
    decreases |changes|
  {
    changes != [] ==>
      var c := changes[0];
      && (c.num == 0 || geo.first <= c.blk)
      && (c.blk + c.num <= geo.blocks && c.inuse != 0 ==> Ready(used, c.inuse > 0, c.blk, c.num))
      && AllReady(geo, Changed(geo, used, c), changes[1..])
  }

  lemma MarkUnmark(used: set<nat>, mark: bool, blk: nat, num: nat)
    requires Ready(used, mark, blk, num)
    ensures Ready(Marking(used, mark, blk, num), !mark, blk, num)
    ensures Marking(Marking(used, mark, blk, num), !mark, blk, num) == used
  {
    var now := Marking(used, mark, blk, num);
    forall b: nat | blk <= b < blk + num ensures (b in now) == mark {
      assert InRange(blk, num, b);
    }
    assert forall b :: b in Marking(now, !mark, blk, num) <==> b in used;
  }
}
