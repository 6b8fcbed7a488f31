/** `ext2fs_bmap2` for block-mapped inodes: lookup and update through direct and indirect pointers. */
module BlockMap {
  import opened Arith
  import opened BlockTree

  const NDIR := 12

  datatype Error = NoError | FileTooBig | NoInd | IoError

  /** The number of blocks that the pointers of an inode can map. */
  function Total(a: nat): nat {
    NDIR + a + Pow(a, 2) + Pow(a, 3)
  }

  /** The inode's pointer that leads to logical block `l`. */
  function Slot(a: nat, l: nat): nat {
    if l < NDIR then l else if l < NDIR + a then NDIR else if l < NDIR + a + Pow(a, 2) then NDIR + 1 else NDIR + 2
  }

  /** The path from there. */
  function PathOf(a: nat, l: nat): (path: seq<nat>)
    requires a > 0
    ensures PathOk(path, a) && |path| == if l < NDIR then 0 else Slot(a, l) - NDIR + 1
  {
    if l < NDIR then []
    else if l < NDIR + a then Digits(a, 1, l - NDIR)
    else if l < NDIR + a + Pow(a, 2) then Digits(a, 2, l - NDIR - a)
    else Digits(a, 3, l - NDIR - a - Pow(a, 2))
  }

  /** The physical block of logical block `l`, 0 for a hole. */
  function Lookup(disk: Disk, a: nat, iblock: seq<nat>, l: nat): nat
    requires DiskOk(disk, a) && |iblock| == NDIR + 3
  {
    Walk(disk, a, iblock[Slot(a, l)], PathOf(a, l))
  }

  /** Pointer `i` of block `b`, 0 if there is no such block. */
  function Pointer(disk: Disk, b: nat, i: nat): nat {
    if 0 < b < |disk| && i < |disk[b]| then disk[b][i] else 0
  }

  /** A pointer that is absent, or lies on the disk. */
  predicate OnDisk(disk: Disk, b: nat) { b == 0 || b < |disk| }

  /** A pointer that is there and lies on the disk. */
  predicate Present(disk: Disk, b: nat) { 0 < b < |disk| }

  lemma WalkOne(disk: Disk, a: nat, b: nat, i: nat)
    requires DiskOk(disk, a) && i < a
    ensures Walk(disk, a, b, [i]) == Pointer(disk, b, i)
    ensures Reaches(disk, a, b, [i]) <==> OnDisk(disk, b)
    ensures Holder(disk, a, b, [i]) != 0 <==> Present(disk, b)
  {
    if 0 < b < |disk| {
      assert [i][1..] == [];
      assert Walk(disk, a, disk[b][i], []) == disk[b][i];
    }
  }

  lemma WalkTwo(disk: Disk, a: nat, b: nat, i: nat, j: nat)
    requires DiskOk(disk, a) && i < a && j < a
    ensures Walk(disk, a, b, [i, j]) == Pointer(disk, Pointer(disk, b, i), j)
    ensures Reaches(disk, a, b, [i, j]) <==> OnDisk(disk, b) && OnDisk(disk, Pointer(disk, b, i))
    ensures Holder(disk, a, b, [i, j]) != 0 <==> Present(disk, b) && Present(disk, Pointer(disk, b, i))
  {
    if 0 < b < |disk| {
      assert [i, j][1..] == [j];
      WalkOne(disk, a, disk[b][i], j);
    }
  }

  lemma WalkThree(disk: Disk, a: nat, b: nat, i: nat, j: nat, k: nat)
    requires DiskOk(disk, a) && i < a && j < a && k < a
    ensures Walk(disk, a, b, [i, j, k]) == Pointer(disk, Pointer(disk, Pointer(disk, b, i), j), k)
    ensures Reaches(disk, a, b, [i, j, k]) <==>
      OnDisk(disk, b) && OnDisk(disk, Pointer(disk, b, i)) && OnDisk(disk, Pointer(disk, Pointer(disk, b, i), j))
    ensures Holder(disk, a, b, [i, j, k]) != 0 <==>
      Present(disk, b) && Present(disk, Pointer(disk, b, i)) && Present(disk, Pointer(disk, Pointer(disk, b, i), j))
  {
    if 0 < b < |disk| {
      assert [i, j, k][1..] == [j, k];
      WalkTwo(disk, a, disk[b][i], j, k);
    }
  }

  /** No pointer on the way to `l` lies outside the disk. */
  predicate Found(disk: Disk, a: nat, iblock: seq<nat>, l: nat)
    requires DiskOk(disk, a) && |iblock| == NDIR + 3
  {
    Reaches(disk, a, iblock[Slot(a, l)], PathOf(a, l))
  }

  // The levels of `bmap.c`: which pointers lead from the inode to a logical block, in numbers.

  lemma LookupDirect(disk: Disk, a: nat, iblock: seq<nat>, n: nat)
    requires DiskOk(disk, a) && |iblock| == 15
    ensures n < 12 ==> Lookup(disk, a, iblock, n) == iblock[n]
    ensures n < a ==> Lookup(disk, a, iblock, 12 + n) == Pointer(disk, iblock[12], n)
    ensures n < a ==> (Found(disk, a, iblock, 12 + n) <==> OnDisk(disk, iblock[12]))
    ensures n < a ==> (Settable(disk, a, iblock, 12 + n) <==> Present(disk, iblock[12]))
  {
    if n < a {
      PowOne(a);
      DigitsStep(a, 1, n);
      WalkOne(disk, a, iblock[12], n);
    }
  }

  /** Logical block 12 + a + q * a + r. */
  lemma LookupDouble(disk: Disk, a: nat, iblock: seq<nat>, n: nat, q: nat, r: nat)
    requires DiskOk(disk, a) && |iblock| == 15 && q < a && r < a && n == q * a + r
    ensures Lookup(disk, a, iblock, 12 + a + n) == Pointer(disk, Pointer(disk, iblock[13], q), r)
    ensures Found(disk, a, iblock, 12 + a + n) <==>
      OnDisk(disk, iblock[13]) && OnDisk(disk, Pointer(disk, iblock[13], q))
    ensures Settable(disk, a, iblock, 12 + a + n) <==>
      Present(disk, iblock[13]) && Present(disk, Pointer(disk, iblock[13], q))
  {
    DoubleAt(a, n, q, r);
    DoublePath(disk, a, iblock, 12 + a + n, q, r);
  }

  /** Logical block 12 + a + a * a + (p * a + q) * a + r. */
  lemma LookupTriple(disk: Disk, a: nat, iblock: seq<nat>, s: nat, m: nat, n: nat, p: nat, q: nat, r: nat)
    requires DiskOk(disk, a) && |iblock| == 15 && p < a && q < a && r < a
    requires s == a * a && m == p * a + q && n == m * a + r
    ensures Lookup(disk, a, iblock, 12 + a + s + n) ==
            Pointer(disk, Pointer(disk, Pointer(disk, iblock[14], p), q), r)
    ensures Found(disk, a, iblock, 12 + a + s + n) <==>
      && OnDisk(disk, iblock[14]) && OnDisk(disk, Pointer(disk, iblock[14], p))
      && OnDisk(disk, Pointer(disk, Pointer(disk, iblock[14], p), q))
    ensures Settable(disk, a, iblock, 12 + a + s + n) <==>
      && Present(disk, iblock[14]) && Present(disk, Pointer(disk, iblock[14], p))
      && Present(disk, Pointer(disk, Pointer(disk, iblock[14], p), q))
  {
    Square(a, s);
    TwoDigits(a, m, p, q);
    OneDigitMore(a, 2, m, n, r);
    ThreeDigits(a, 2, m, n, p, q, r);
    InTriple(disk, a, iblock, s, n, p, q, r);
  }

  lemma Square(a: nat, s: nat)
    requires s == a * a
    ensures s == Pow(a, 2)
  {
    PowSmall(a);
  }

  lemma PathInInd(a: nat, k: nat)
    requires a > 0 && k < a
    ensures Slot(a, NDIR + k) == NDIR && PathOf(a, NDIR + k) == Digits(a, 1, k)
  {
  }

  lemma PathInDind(a: nat, k: nat)
    requires a > 0 && k < Pow(a, 2)
    ensures Slot(a, NDIR + a + k) == NDIR + 1 && PathOf(a, NDIR + a + k) == Digits(a, 2, k)
  {
    assert NDIR + a + k - NDIR - a == k;
  }

  lemma PathInTind(a: nat, k: nat, q: nat)
    requires a > 0 && k < Pow(a, 3) && q == Pow(a, 2)
    ensures Slot(a, NDIR + a + q + k) == NDIR + 2 && PathOf(a, NDIR + a + q + k) == Digits(a, 3, k)
  {
    assert NDIR + a + q + k - NDIR - a - q == k;
  }

  lemma DoubleAt(a: nat, n: nat, q: nat, r: nat)
    requires q < a && r < a && n == q * a + r
    ensures Slot(a, 12 + a + n) == 13 && PathOf(a, 12 + a + n) == [q, r]
  {
    TwoDigits(a, n, q, r);
    PathInDind(a, n);
  }

  lemma DoublePath(disk: Disk, a: nat, iblock: seq<nat>, l: nat, q: nat, r: nat)
    requires DiskOk(disk, a) && |iblock| == 15 && q < a && r < a && 12 <= l
    requires Slot(a, l) == 13 && PathOf(a, l) == [q, r]
    ensures Lookup(disk, a, iblock, l) == Pointer(disk, Pointer(disk, iblock[13], q), r)
    ensures Found(disk, a, iblock, l) <==> OnDisk(disk, iblock[13]) && OnDisk(disk, Pointer(disk, iblock[13], q))
    ensures Settable(disk, a, iblock, l) <==>
      Present(disk, iblock[13]) && Present(disk, Pointer(disk, iblock[13], q))
  {
    WalkTwo(disk, a, iblock[13], q, r);
    ThroughPath(disk, a, iblock, l, 13, [q, r]);
  }

  lemma ThroughPath(disk: Disk, a: nat, iblock: seq<nat>, l: nat, slot: nat, path: seq<nat>)
    requires DiskOk(disk, a) && |iblock| == 15 && 12 <= slot < 15 && 12 <= l
    requires Slot(a, l) == slot && PathOf(a, l) == path && path != []
    ensures Lookup(disk, a, iblock, l) == Walk(disk, a, iblock[slot], path)
    ensures Found(disk, a, iblock, l) <==> Reaches(disk, a, iblock[slot], path)
    ensures Settable(disk, a, iblock, l) <==> Holder(disk, a, iblock[slot], path) != 0
  {
  }

  lemma InTriple(disk: Disk, a: nat, iblock: seq<nat>, s: nat, n: nat, p: nat, q: nat, r: nat)
    requires DiskOk(disk, a) && |iblock| == 15 && p < a && q < a && r < a && s == Pow(a, 2)
    requires n < Pow(a, 3) && Digits(a, 3, n) == [p, q, r]
    ensures Lookup(disk, a, iblock, 12 + a + s + n) ==
            Pointer(disk, Pointer(disk, Pointer(disk, iblock[14], p), q), r)
    ensures Found(disk, a, iblock, 12 + a + s + n) <==>
      && OnDisk(disk, iblock[14]) && OnDisk(disk, Pointer(disk, iblock[14], p))
      && OnDisk(disk, Pointer(disk, Pointer(disk, iblock[14], p), q))
    ensures Settable(disk, a, iblock, 12 + a + s + n) <==>
      && Present(disk, iblock[14]) && Present(disk, Pointer(disk, iblock[14], p))
      && Present(disk, Pointer(disk, Pointer(disk, iblock[14], p), q))
  {
    PathInTind(a, n, s);
    WalkThree(disk, a, iblock[14], p, q, r);
    ThroughPath(disk, a, iblock, 12 + a + s + n, 14, [p, q, r]);
  }

  lemma LessNext(m: nat, r: nat, a: nat, p: nat)
    requires r < a && m < p
    ensures m * a + r < Times(p, a)
  {
    TimesIs(p, a);
    MulMono(m + 1, p, a);
  }

  lemma OneDigitMore(a: nat, d: nat, m: nat, n: nat, r: nat)
    requires r < a && m < Pow(a, d) && n == m * a + r
    ensures n < Pow(a, d + 1) && Quot(n, a) == m && Rem(n, a) == r
  {
    LessNext(m, r, a, Pow(a, d));
    SplitOff(a, n, m, r);
  }

  lemma AppendDigit(a: nat, d: nat, n: nat, m: nat, r: nat)
    requires a > 0 && Quot(n, a) == m && Rem(n, a) == r
    ensures Digits(a, d + 1, n) == Digits(a, d, m) + [r]
  {
  }

  lemma SplitOff(a: nat, n: nat, m: nat, r: nat)
    requires r < a && n == m * a + r
    ensures Quot(n, a) == m && Rem(n, a) == r
  {
    DivModUnique(m, r, a);
    QuotRemIs(n, a);
  }

  lemma TwoDigits(a: nat, n: nat, q: nat, r: nat)
    requires q < a && r < a && n == q * a + r
    ensures n < Pow(a, 2) && Digits(a, 2, n) == [q, r]
  {
    PowOne(a);
    DigitsStep(a, 1, q);
    OneDigitMore(a, 1, q, n, r);
    AppendDigit(a, 1, n, q, r);
    assert [q] + [r] == [q, r];
  }

  lemma ThreeDigits(a: nat, d: nat, m: nat, n: nat, p: nat, q: nat, r: nat)
    requires r < a && m < Pow(a, d) && Digits(a, d, m) == [p, q] && n < Pow(a, d + 1)
    requires Quot(n, a) == m && Rem(n, a) == r
    ensures Digits(a, d + 1, n) == [p, q, r]
  {
    AppendDigit(a, d, n, m, r);
    assert [p, q] + [r] == [p, q, r];
  }

  /** No block holds pointers in two places of the inode's three trees. */
  ghost predicate Unshared(disk: Disk, a: nat, iblock: seq<nat>)
    requires DiskOk(disk, a) && |iblock| == NDIR + 3
  {
    && (forall d :: 1 <= d <= 3 ==> NoSharing(disk, a, Root(iblock, d), d))
    && (forall d, e :: 1 <= d <= 3 && 1 <= e <= 3 && d != e ==> Apart(disk, a, Root(iblock, d), d, Root(iblock, e), e))
  }

  /** The pointer to the tree of depth `d`. */
  function Root(iblock: seq<nat>, d: nat): nat
    requires |iblock| == NDIR + 3 && 1 <= d <= 3
  {
    iblock[NDIR + d - 1]
  }

  lemma PowOne(a: nat)
    ensures Pow(a, 0) == 1 && Pow(a, 1) == a
  {
    assert Pow(a, 0) == 1;
    TimesIs(1, a);
  }

  lemma PowSmall(a: nat)
    ensures Pow(a, 0) == 1 && Pow(a, 1) == a && Pow(a, 2) == a * a && Pow(a, 3) == a * a * a
  {
    assert Pow(a, 0) == 1;
    TimesIs(Pow(a, 0), a);
    TimesIs(Pow(a, 1), a);
    TimesIs(Pow(a, 2), a);
  }

  class Inode {
    const a: nat
    var disk: Disk
    var iblock: seq<nat>

    ghost predicate Valid()
      reads this
    {
      DiskOk(disk, a) && |iblock| == NDIR + 3
    }

    /** `block_ind_bmap`, for reading and with BMAP_SET. */
    method IndBmap(set_: bool, ind: nat, nr: nat, blk: nat) returns (err: Error, ret: nat)
      requires Valid() && nr < a
      modifies `disk
      ensures Valid() && Outcome(old(disk), disk, a, ind, [nr], set_, blk, err, ret)
    {
      if ind == 0 {
        return if set_ then NoInd else NoError, 0;
      }
      if ind >= |disk| {
        return IoError, 0;
      }
      if set_ {
        disk := SetPtr(disk, a, ind, nr, blk);
        return NoError, blk;
      }
      return NoError, disk[ind][nr];
    }

    /** `block_dind_bmap` */
    method DindBmap(set_: bool, dind: nat, nr: nat, blk: nat) returns (err: Error, ret: nat)
      requires Valid() && nr < Pow(a, 2)
      modifies `disk
      ensures Valid() && Outcome(old(disk), disk, a, dind, Digits(a, 2, nr), set_, blk, err, ret)
    {
      DigitsStep(a, 2, nr);
      DigitsStep(a, 1, nr / a);
      var b;
      err, b := IndBmap(false, dind, nr / a, 0);
      OutcomeSnoc(disk, a, dind, [nr / a], nr % a, err, b);
      if err != NoError {
        return err, 0;
      }
      err, ret := IndBmap(set_, b, nr % a, blk);
    }

    /** `block_tind_bmap` */
    method TindBmap(set_: bool, tind: nat, nr: nat, blk: nat) returns (err: Error, ret: nat)
      requires Valid() && nr < Pow(a, 3)
      modifies `disk
      ensures Valid() && Outcome(old(disk), disk, a, tind, Digits(a, 3, nr), set_, blk, err, ret)
    {
      DigitsStep(a, 3, nr);
      var b;
      err, b := DindBmap(false, tind, nr / a, 0);
      OutcomeSnoc(disk, a, tind, Digits(a, 2, nr / a), nr % a, err, b);
      if err != NoError {
        return err, 0;
      }
      err, ret := IndBmap(set_, b, nr % a, blk);
    }

    /** `ext2fs_file_block_offset_too_big` */
    predicate TooBig(l: nat) {
      l >= 0x1_0000_0000 - 1 || l >= Total(a)
    }

    /** The part of `ext2fs_bmap2` behind the direct blocks. */
    method IndirectBmap(set_: bool, l: nat, blk: nat) returns (err: Error, ret: nat)
      requires Valid() && NDIR <= l < Total(a)
      modifies `disk
      ensures Valid() && Outcome(old(disk), disk, a, iblock[Slot(a, l)], PathOf(a, l), set_, blk, err, ret)
    {
      PowSmall(a);
      var block := l - NDIR;
      if block < a {
        DigitsStep(a, 1, block);
        err, ret := IndBmap(set_, iblock[NDIR], block, blk);
        return;
      }
      block := block - a;
      if block < a * a {
        err, ret := DindBmap(set_, iblock[NDIR + 1], block, blk);
        return;
      }
      block := block - a * a;
      err, ret := TindBmap(set_, iblock[NDIR + 2], block, blk);
    }

    /**
     `ext2fs_bmap2`, without allocation. A lookup finds the block that the pointer trees map `l` to. With
     `set_` it makes `l` map to `value`, cut to 32 bits, and leaves every other logical block as it was.
     */
    method Bmap2(set_: bool, l: nat, value: nat) returns (err: Error, phys: nat)
      requires Valid()
      modifies this
      ensures Valid()
      ensures err == FileTooBig <==> TooBig(l)
      ensures err == FileTooBig <==> l >= 4294967295 || l >= 12 + a + a * a + a * a * a
      ensures !set_ || err != NoError ==> disk == old(disk) && iblock == old(iblock)
      ensures !set_ && !TooBig(l) ==> (err == NoError <==> Found(disk, a, iblock, l))
      ensures !set_ && err == NoError ==> phys == Lookup(disk, a, iblock, l)
      ensures set_ && !TooBig(l) ==> (err == NoError <==> Settable(old(disk), a, old(iblock), l))
      ensures set_ && err == NoError && old(Unshared(disk, a, iblock)) ==>
                Unshared(disk, a, iblock) && Updated(old(disk), old(iblock), disk, iblock, a, l, value % 0x1_0000_0000)
    {
      PowSmall(a);
      if TooBig(l) {
        return FileTooBig, 0;
      }
      var blk := value % 0x1_0000_0000;
      if l < NDIR {
        if set_ {
          DirectSet(disk, a, iblock, l, blk);
          iblock := iblock[l := blk];
          return NoError, blk;
        }
        return NoError, iblock[l];
      }
      err, phys := IndirectBmap(set_, l, blk);
      BmapOutcome(old(disk), disk, a, iblock, set_, l, blk, err, phys);
    }
  }

  /** What an access through pointer `b` and a path does: the block found, or the pointer set, or the error. */
  ghost predicate Outcome(disk: Disk, disk': Disk, a: nat, b: nat, path: seq<nat>, set_: bool, v: nat, err: Error,
      ret: nat)
    requires DiskOk(disk, a) && PathOk(path, a) && path != []
  {
    var w := Holder(disk, a, b, path);
    if !set_ then
      && disk' == disk && err == (if Reaches(disk, a, b, path) then NoError else IoError)
      && (err == NoError ==> ret == Walk(disk, a, b, path))
    else if w != 0 then
      w < |disk| && disk' == SetPtr(disk, a, w, path[|path| - 1], v) && err == NoError && ret == v
    else
      disk' == disk && err == if Reaches(disk, a, b, path) then NoInd else IoError
  }

  /** An access one level deeper is a read, followed by an access through the pointer that it found. */
  lemma OutcomeSnoc(disk: Disk, a: nat, b: nat, path: seq<nat>, k: nat, err: Error, c: nat)
    requires DiskOk(disk, a) && PathOk(path, a) && path != [] && k < a
    requires Outcome(disk, disk, a, b, path, false, 0, err, c)
    ensures err != NoError ==> forall s, v, r :: Outcome(disk, disk, a, b, path + [k], s, v, err, r)
    ensures err == NoError ==> forall disk', s, v, e, r ::
              Outcome(disk, disk', a, c, [k], s, v, e, r) ==> Outcome(disk, disk', a, b, path + [k], s, v, e, r)
  {
    WalkSnoc(disk, a, b, path, k);
    if err == NoError {
      WalkSnoc(disk, a, c, [], k);
      assert [] + [k] == [k];
      assert (path + [k])[|path|] == k;
    } else {
      WalkLost(disk, a, b, path);
    }
  }

  lemma DigitsStep(a: nat, d: nat, n: nat)
    requires a > 0 && d > 0 && n < Pow(a, d)
    ensures n / a < Pow(a, d - 1) && n % a < a && Digits(a, d, n) == Digits(a, d - 1, n / a) + [n % a]
    ensures d == 1 ==> n / a == 0 && n % a == n && Digits(a, d, n) == [n]
  {
    QuotLess(n, a, Pow(a, d - 1));
    QuotRemIs(n, a);
    if d == 1 {
      QuotRem(n, a);
      assert Digits(a, 0, Quot(n, a)) == [];
    }
  }

  /** Logical block `l` now maps to `v`, and every other one to what it did. */
  ghost predicate Updated(disk: Disk, iblock: seq<nat>, disk': Disk, iblock': seq<nat>, a: nat, l: nat, v: nat)
    requires DiskOk(disk, a) && |iblock| == NDIR + 3 && DiskOk(disk', a) && |iblock'| == NDIR + 3
  {
    forall k :: 0 <= k < Total(a) ==> Lookup(disk', a, iblock', k) == if k == l then v else Lookup(disk, a, iblock, k)
  }

  lemma BmapOutcome(disk: Disk, disk': Disk, a: nat, iblock: seq<nat>, set_: bool, l: nat, v: nat, err: Error, ret: nat)
    requires DiskOk(disk, a) && DiskOk(disk', a) && |iblock| == NDIR + 3 && NDIR <= l < Total(a)
    requires Outcome(disk, disk', a, iblock[Slot(a, l)], PathOf(a, l), set_, v, err, ret)
    ensures err != FileTooBig && (!set_ || err != NoError ==> disk' == disk)
    ensures !set_ ==> (err == NoError <==> Reaches(disk, a, iblock[Slot(a, l)], PathOf(a, l)))
    ensures !set_ && err == NoError ==> ret == Lookup(disk, a, iblock, l)
    ensures set_ ==> (err == NoError <==> Settable(disk, a, iblock, l))
    ensures set_ && err == NoError && Unshared(disk, a, iblock) ==>
      Unshared(disk', a, iblock) && Updated(disk, iblock, disk', iblock, a, l, v)
  {
    if set_ && err == NoError && Unshared(disk, a, iblock) {
      IndirectSet(disk, a, iblock, l, v);
    }
  }

  /** A pointer for `l` can be set: it is direct, or its indirect blocks are there. */
  predicate Settable(disk: Disk, a: nat, iblock: seq<nat>, l: nat)
    requires DiskOk(disk, a) && |iblock| == NDIR + 3
  {
    l < NDIR || Holder(disk, a, iblock[Slot(a, l)], PathOf(a, l)) != 0
  }

  lemma DirectSet(disk: Disk, a: nat, iblock: seq<nat>, l: nat, v: nat)
    requires DiskOk(disk, a) && |iblock| == NDIR + 3 && l < NDIR
    ensures Updated(disk, iblock, disk, iblock[l := v], a, l, v)
    ensures Unshared(disk, a, iblock) ==> Unshared(disk, a, iblock[l := v])
  {
    var iblock': seq<nat> := iblock[l := v];
    assert forall d :: 1 <= d <= 3 ==> Root(iblock', d) == Root(iblock, d);
    forall k | 0 <= k < Total(a)
      ensures Lookup(disk, a, iblock', k) == if k == l then v else Lookup(disk, a, iblock, k)
    {
      assert k != l ==> iblock'[Slot(a, k)] == iblock[Slot(a, k)];
    }
  }

  /** Different logical blocks of one tree have different paths. */
  lemma PathInjective(a: nat, l: nat, k: nat)
    requires a > 0 && NDIR <= l < Total(a) && NDIR <= k < Total(a) && k != l && Slot(a, k) == Slot(a, l)
    ensures PathOf(a, k) != PathOf(a, l)
  {
    var q := Pow(a, 2);
    if l < NDIR + a {
      DifferInInd(a, l - NDIR, k - NDIR);
    } else if l < NDIR + a + q {
      DifferInDind(a, l - NDIR - a, k - NDIR - a);
    } else {
      DifferInTind(a, l - NDIR - a - q, k - NDIR - a - q, q);
    }
  }

  lemma DifferInInd(a: nat, m: nat, n: nat)
    requires a > 0 && m < a && n < a && m != n
    ensures PathOf(a, NDIR + m) != PathOf(a, NDIR + n)
  {
    PowOne(a);
    PathInInd(a, m);
    PathInInd(a, n);
    DigitsInjective(a, 1, m, n);
  }

  lemma DifferInDind(a: nat, m: nat, n: nat)
    requires a > 0 && m < Pow(a, 2) && n < Pow(a, 2) && m != n
    ensures PathOf(a, NDIR + a + m) != PathOf(a, NDIR + a + n)
  {
    PathInDind(a, m);
    PathInDind(a, n);
    DigitsInjective(a, 2, m, n);
  }

  lemma DifferInTind(a: nat, m: nat, n: nat, q: nat)
    requires a > 0 && m < Pow(a, 3) && n < Pow(a, 3) && m != n && q == Pow(a, 2)
    ensures PathOf(a, NDIR + a + q + m) != PathOf(a, NDIR + a + q + n)
  {
    PathInTind(a, m, q);
    PathInTind(a, n, q);
    DigitsInjective(a, 3, m, n);
  }

  lemma SetElsewhere(disk: Disk, a: nat, iblock: seq<nat>, path: seq<nat>, w: nat, v: nat, k: nat)
    requires DiskOk(disk, a) && |iblock| == NDIR + 3 && Unshared(disk, a, iblock) && PathOk(path, a)
    requires 1 <= |path| <= 3 && w < |disk| && IsNode(disk, a, Root(iblock, |path|), |path|, w)
    requires NDIR <= k < Total(a) && Slot(a, k) != NDIR + |path| - 1
    ensures Lookup(SetPtr(disk, a, w, path[|path| - 1], v), a, iblock, k) == Lookup(disk, a, iblock, k)
  {
    var other := PathOf(a, k);
    assert Apart(disk, a, Root(iblock, |path|), |path|, Root(iblock, |other|), |other|);
    WalkFrame(disk, a, w, path[|path| - 1], v, iblock[Slot(a, k)], other);
  }

  lemma SetInTree(disk: Disk, a: nat, iblock: seq<nat>, l: nat, path: seq<nat>, w: nat, v: nat, k: nat)
    requires DiskOk(disk, a) && |iblock| == NDIR + 3 && Unshared(disk, a, iblock)
    requires NDIR <= l < Total(a) && NDIR <= k < Total(a) && Slot(a, k) == Slot(a, l)
    requires path == PathOf(a, l) && w == Holder(disk, a, iblock[Slot(a, l)], path) && 0 < w < |disk|
    ensures Lookup(SetPtr(disk, a, w, path[|path| - 1], v), a, iblock, k) ==
            if k == l then v else Lookup(disk, a, iblock, k)
  {
    assert NoSharing(disk, a, Root(iblock, |path|), |path|);
    WalkSet(disk, a, iblock[Slot(a, l)], path, v, PathOf(a, k));
    if k != l {
      PathInjective(a, l, k);
    }
  }

  lemma IndirectSetAt(disk: Disk, a: nat, iblock: seq<nat>, l: nat, v: nat, k: nat)
    requires DiskOk(disk, a) && |iblock| == NDIR + 3 && Unshared(disk, a, iblock)
    requires NDIR <= l < Total(a) && k < Total(a) && Settable(disk, a, iblock, l)
    ensures var path := PathOf(a, l);
            var w := Holder(disk, a, iblock[Slot(a, l)], path);
            && w < |disk|
            && Lookup(SetPtr(disk, a, w, path[|path| - 1], v), a, iblock, k) ==
                 if k == l then v else Lookup(disk, a, iblock, k)
  {
    var path, b := PathOf(a, l), iblock[Slot(a, l)];
    HolderIsNode(disk, a, b, path);
    var w := Holder(disk, a, b, path);
    if k < NDIR {
    } else if Slot(a, k) == Slot(a, l) {
      SetInTree(disk, a, iblock, l, path, w, v, k);
    } else {
      SetElsewhere(disk, a, iblock, path, w, v, k);
    }
  }

  lemma IndirectSet(disk: Disk, a: nat, iblock: seq<nat>, l: nat, v: nat)
    requires DiskOk(disk, a) && |iblock| == NDIR + 3 && Unshared(disk, a, iblock)
    requires NDIR <= l < Total(a) && Settable(disk, a, iblock, l)
    ensures var path := PathOf(a, l);
            var w := Holder(disk, a, iblock[Slot(a, l)], path);
            && w < |disk|
            && Unshared(SetPtr(disk, a, w, path[|path| - 1], v), a, iblock)
            && forall k :: 0 <= k < Total(a) ==>
                 Lookup(SetPtr(disk, a, w, path[|path| - 1], v), a, iblock, k) ==
                   if k == l then v else Lookup(disk, a, iblock, k)
  {
    var path := PathOf(a, l);
    IndirectSetAt(disk, a, iblock, l, v, 0);
    var w := Holder(disk, a, iblock[Slot(a, l)], path);
    var disk' := SetPtr(disk, a, w, path[|path| - 1], v);
    forall k | 0 <= k < Total(a)
      ensures Lookup(disk', a, iblock, k) == if k == l then v else Lookup(disk, a, iblock, k)
    {
      IndirectSetAt(disk, a, iblock, l, v, k);
    }
    forall d | 1 <= d <= 3
      ensures NoSharing(disk', a, Root(iblock, d), d) && SameNodes(disk, disk', a, Root(iblock, d), d)
    {
      IndirectSetTree(disk, a, iblock, l, v, d);
    }
    forall d, e | 1 <= d <= 3 && 1 <= e <= 3 && d != e
      ensures Apart(disk', a, Root(iblock, d), d, Root(iblock, e), e)
    {
      assert Apart(disk, a, Root(iblock, d), d, Root(iblock, e), e);
      assert SameNodes(disk, disk', a, Root(iblock, d), d) && SameNodes(disk, disk', a, Root(iblock, e), e);
    }
  }

  lemma IndirectSetTree(disk: Disk, a: nat, iblock: seq<nat>, l: nat, v: nat, d: nat)
    requires DiskOk(disk, a) && |iblock| == NDIR + 3 && Unshared(disk, a, iblock)
    requires NDIR <= l < Total(a) && Settable(disk, a, iblock, l) && 1 <= d <= 3
    ensures var path := PathOf(a, l);
            var w := Holder(disk, a, iblock[Slot(a, l)], path);
            && w < |disk|
            && NoSharing(SetPtr(disk, a, w, path[|path| - 1], v), a, Root(iblock, d), d)
            && SameNodes(disk, SetPtr(disk, a, w, path[|path| - 1], v), a, Root(iblock, d), d)
  {
    var path, b := PathOf(a, l), iblock[Slot(a, l)];
    HolderIsNode(disk, a, b, path);
    SetTree(disk, a, iblock, path, b, Holder(disk, a, b, path), v, d);
  }

  lemma SetTree(disk: Disk, a: nat, iblock: seq<nat>, path: seq<nat>, b: nat, w: nat, v: nat, d: nat)
    requires DiskOk(disk, a) && |iblock| == NDIR + 3 && Unshared(disk, a, iblock) && 1 <= d <= 3
    requires PathOk(path, a) && 1 <= |path| <= 3 && b == Root(iblock, |path|)
    requires w == Holder(disk, a, b, path) && 0 < w < |disk| && IsNode(disk, a, b, |path|, w)
    ensures NoSharing(SetPtr(disk, a, w, path[|path| - 1], v), a, Root(iblock, d), d)
    ensures SameNodes(disk, SetPtr(disk, a, w, path[|path| - 1], v), a, Root(iblock, d), d)
  {
    assert NoSharing(disk, a, Root(iblock, d), d);
    if d == |path| {
      SharingSet(disk, a, b, path, v);
    } else {
      assert Apart(disk, a, Root(iblock, |path|), |path|, Root(iblock, d), d);
      SharingFrame(disk, a, w, path[|path| - 1], v, Root(iblock, d), d);
    }
  }
}
