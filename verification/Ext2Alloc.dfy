/**
 Taking blocks and inodes from the bitmaps and giving them back: the buffers of one operation, before
 they are written to the volume.
 */
module Ext2Alloc {
  import opened Bytes
  import opened Seqs
  import opened Dirents
  import opened Bitmap
  import opened Ext2Tree
  import opened Ext2Layout
  import opened Ext2State

  /** Both free block counts are the number of clear bits. */
  ghost predicate Tally(tb: nat, sb: Block, gd: Block, bb: Block)
    requires tb <= 8192
  {
    FreeBlocks(sb) == GroupFreeBlocks(gd) == tb - |Marked(bb, tb)|
  }

  /** Everything but the free block counts is the same. */
  predicate SameInodeCounts(sb: Block, gd: Block, sb': Block, gd': Block) {
    && FreeInodes(sb') == FreeInodes(sb) && Magic(sb') == Magic(sb)
    && GroupFreeInodes(gd') == GroupFreeInodes(gd) && UsedDirs(gd') == UsedDirs(gd)
  }

  lemma SubsetSize<T>(a: set<T>, b: set<T>)
    requires a <= b
    ensures |a| <= |b|
  {
    assert b == a + (b - a);
  }

  lemma MarkedSize(bm: seq<byte>, n: nat)
    requires n <= 8 * |bm|
    ensures |Marked(bm, n)| <= n
    ensures (exists k: nat :: k < n && k !in Marked(bm, n)) ==> |Marked(bm, n)| < n
  {
    BelowSize(n);
    SubsetSize(Marked(bm, n), Below(n));
    if k: nat :| k < n && k !in Marked(bm, n) {
      SubsetSize(Marked(bm, n) + {k}, Below(n));
    }
  }

  lemma TallyAlloc(tb: nat, sb: Block, gd: Block, bb: Block, k: nat)
    requires tb <= 8192 && Tally(tb, sb, gd, bb) && k < tb && k !in Marked(bb, tb)
    ensures Tally(tb, AddFreeBlocks(sb, -1), AddGroupFreeBlocks(gd, -1), SetBit(bb, k))
    ensures SameInodeCounts(sb, gd, AddFreeBlocks(sb, -1), AddGroupFreeBlocks(gd, -1))
  {
    MarkedSize(bb, tb);
    MarkedSet(bb, k, tb);
    AddFreeBlocksFields(sb, -1);
    AddGroupFreeBlocksFields(gd, -1);
  }

  lemma TallyFree(tb: nat, sb: Block, gd: Block, bb: Block, k: nat)
    requires tb <= 8192 && Tally(tb, sb, gd, bb) && k < tb && k in Marked(bb, tb)
    ensures Tally(tb, AddFreeBlocks(sb, 1), AddGroupFreeBlocks(gd, 1), ClearBit(bb, k))
    ensures SameInodeCounts(sb, gd, AddFreeBlocks(sb, 1), AddGroupFreeBlocks(gd, 1))
  {
    MarkedSize(bb, tb);
    MarkedClear(bb, k, tb);
    AddFreeBlocksFields(sb, 1);
    AddGroupFreeBlocksFields(gd, 1);
  }

  function Elems(s: seq<nat>): set<nat> {
    set i | 0 <= i < |s| :: s[i]
  }

  lemma ElemsSnoc(s: seq<nat>, x: nat)
    ensures Elems(s + [x]) == Elems(s) + {x}
  {
    assert (s + [x])[|s|] == x;
    assert forall i :: 0 <= i < |s| ==> (s + [x])[i] == s[i];
    forall y | y in Elems(s) + {x}
      ensures y in Elems(s + [x])
    {
      if y != x {
        var i :| 0 <= i < |s| && s[i] == y;
        assert (s + [x])[i] == y;
      }
    }
  }

  /** The block pointers the code frees when a file or directory is overwritten. */
  predicate Freeable(f: Fields, bb: Block, tb: nat)
    requires |f.ptrs| == NPTRS && tb <= 8192
  {
    && NBlocks(f.size) <= NDIRECT && Distinct(f.ptrs[..NBlocks(f.size)])
    && (forall i :: 0 <= i < NBlocks(f.size) ==> f.ptrs[i] != 0 && f.ptrs[i] in Marked(bb, tb))
    && (forall i :: NBlocks(f.size) <= i < NPTRS ==> f.ptrs[i] == 0)
  }

  function ZeroedTo(ps: seq<nat>, i: nat): seq<nat>
    requires i <= |ps|
  {
    seq(i, _ => 0) + ps[i..]
  }

  /** The buffers after the first `i` pointers of the inode have been freed. */
  ghost predicate Freed(tb: nat, sb: Block, gd: Block, bb: Block, f: Fields, i: nat,
                        sb': Block, gd': Block, bb': Block, fi': Raw)
    requires tb <= 8192 && i <= |f.ptrs|
  {
    && Tally(tb, sb', gd', bb') && SameInodeCounts(sb, gd, sb', gd')
    && Marked(bb', tb) == Marked(bb, tb) - Elems(f.ptrs[..i])
    && FieldsOf(fi') == f.(ptrs := ZeroedTo(f.ptrs, i))
  }

  /** `free_inode_blocks` */
  method FreeInodeBlocks(tb: nat, sb: Block, gd: Block, bb: Block, fi: Raw)
    returns (sb': Block, gd': Block, bb': Block, fi': Raw)
    requires tb <= 8192 && Tally(tb, sb, gd, bb) && Freeable(FieldsOf(fi), bb, tb)
    ensures Tally(tb, sb', gd', bb') && SameInodeCounts(sb, gd, sb', gd')
    ensures Marked(bb', tb) == Marked(bb, tb) - Elems(FieldsOf(fi).ptrs[..NBlocks(Size(fi))])
    ensures FieldsOf(fi') == FieldsOf(fi).(size := 0, sectors := 0, ptrs := seq(NPTRS, _ => 0))
  {
    ghost var f := FieldsOf(fi);
    var nblk := NBlocks(Size(fi));
    if nblk > NDIRECT {
      nblk := NDIRECT;
    }
    sb', gd', bb', fi' := sb, gd, bb, fi;
    FreedNone(tb, sb, gd, bb, fi);
    var i := 0;
    while i < nblk
      invariant i <= nblk && Freed(tb, sb, gd, bb, f, i, sb', gd', bb', fi')
    {
      sb', gd', bb', fi' := FreeOne(tb, sb', gd', bb', fi', i, sb, gd, bb, f);
      i := i + 1;
    }
    ZeroedAll(f.ptrs, nblk);
    SetSizeFields(fi', 0);
    fi' := SetSize(fi', 0);
    SetSectorsFields(fi', 0);
    fi' := SetSectors(fi', 0);
  }

  lemma FreedNone(tb: nat, sb: Block, gd: Block, bb: Block, fi: Raw)
    requires tb <= 8192 && Tally(tb, sb, gd, bb)
    ensures Freed(tb, sb, gd, bb, FieldsOf(fi), 0, sb, gd, bb, fi)
  {
    var ps := FieldsOf(fi).ptrs;
    assert ps[..0] == [] && ZeroedTo(ps, 0) == ps;
  }

  lemma ZeroedAll(ps: seq<nat>, n: nat)
    requires n <= |ps| == NPTRS && forall i :: n <= i < |ps| ==> ps[i] == 0
    ensures ZeroedTo(ps, n) == seq(NPTRS, _ => 0)
  {
  }

  lemma ZeroStep(ps: seq<nat>, i: nat)
    requires i < |ps|
    ensures ZeroedTo(ps, i)[i := 0] == ZeroedTo(ps, i + 1) && ZeroedTo(ps, i)[i] == ps[i]
  {
  }

  lemma NotYet(ps: seq<nat>, n: nat, i: nat)
    requires i < n <= |ps| && Distinct(ps[..n])
    ensures ps[i] !in Elems(ps[..i]) && Elems(ps[..i + 1]) == Elems(ps[..i]) + {ps[i]}
  {
    assert forall j :: 0 <= j < n ==> ps[..n][j] == ps[j];
    TakeSnoc(ps, i);
    ElemsSnoc(ps[..i], ps[i]);
  }

  /** One round of `free_inode_blocks`. */
  method FreeOne(tb: nat, sb: Block, gd: Block, bb: Block, fi: Raw, i: nat,
                 ghost sb0: Block, ghost gd0: Block, ghost bb0: Block, ghost f: Fields)
    returns (sb': Block, gd': Block, bb': Block, fi': Raw)
    requires tb <= 8192 && |f.ptrs| == NPTRS && Freeable(f, bb0, tb) && i < NBlocks(f.size)
    requires Freed(tb, sb0, gd0, bb0, f, i, sb, gd, bb, fi)
    ensures Freed(tb, sb0, gd0, bb0, f, i + 1, sb', gd', bb', fi')
  {
    ZeroStep(f.ptrs, i);
    NotYet(f.ptrs, NBlocks(f.size), i);
    var bn := Ptr(fi, i);
    assert bn == FieldsOf(fi).ptrs[i] == f.ptrs[i];
    sb', gd', bb' := sb, gd, bb;
    if bn != 0 {
      TallyFree(tb, sb, gd, bb, bn);
      MarkedClear(bb, bn, tb);
      bb' := ClearBit(bb, bn);
      sb' := AddFreeBlocks(sb, 1);
      gd' := AddGroupFreeBlocks(gd, 1);
    }
    SetPtrFields(fi, i, 0);
    fi' := SetPtr(fi, i, 0);
  }

  /** What the blocks taken for a file satisfy: fresh, distinct, behind the fixed blocks. */
  ghost predicate Taken(tb: nat, bb: Block, ns: seq<nat>)
    requires tb <= 8192
  {
    && Distinct(ns)
    && forall i :: 0 <= i < |ns| ==> FIRST_FREE <= ns[i] < tb && ns[i] !in Marked(bb, tb)
  }

  lemma TakenSnoc(tb: nat, bb: Block, ns: seq<nat>, b: nat)
    requires tb <= 8192 && Taken(tb, bb, ns) && FIRST_FREE <= b < tb
    requires b !in Marked(bb, tb) + Elems(ns)
    ensures Taken(tb, bb, ns + [b]) && Elems(ns + [b]) == Elems(ns) + {b}
  {
    ElemsSnoc(ns, b);
    forall i, j | 0 <= i < j < |ns + [b]|
      ensures (ns + [b])[i] != (ns + [b])[j]
    {
      if j == |ns| {
        assert (ns + [b])[i] in Elems(ns);
      }
    }
  }

  function Padded(ns: seq<nat>): (ps: seq<nat>)
    requires |ns| <= NPTRS
    ensures |ps| == NPTRS
  {
    ns + seq(NPTRS - |ns|, _ => 0)
  }

  lemma PadStep(ns: seq<nat>, b: nat)
    requires |ns| < NPTRS
    ensures Padded(ns)[|ns| := b] == Padded(ns + [b])
  {
  }

  /** The buffers after the blocks `ns` have been taken for the inode. */
  ghost predicate Took(tb: nat, sb: Block, gd: Block, bb: Block, f: Fields, ns: seq<nat>,
                       sb': Block, gd': Block, bb': Block, fi': Raw)
    requires tb <= 8192
  {
    && |ns| <= NPTRS && Taken(tb, bb, ns)
    && Tally(tb, sb', gd', bb') && SameInodeCounts(sb, gd, sb', gd')
    && Marked(bb', tb) == Marked(bb, tb) + Elems(ns)
    && FieldsOf(fi') == f.(ptrs := Padded(ns))
  }

  lemma TookNone(tb: nat, sb: Block, gd: Block, bb: Block, fi: Raw)
    requires tb <= 8192 && Tally(tb, sb, gd, bb) && FieldsOf(fi).ptrs == Padded([])
    ensures Took(tb, sb, gd, bb, FieldsOf(fi), [], sb, gd, bb, fi)
  {
  }

  /** One block more for the file: `alloc_block`, the counters and the pointer. */
  method TakeBlock(tb: nat, sb: Block, gd: Block, bb: Block, fi: Raw, i: nat,
                   ghost sb0: Block, ghost gd0: Block, ghost bb0: Block, ghost f: Fields, ghost ns: seq<nat>)
    returns (bn: Option<nat>, sb': Block, gd': Block, bb': Block, fi': Raw)
    requires tb <= 8192 && Took(tb, sb0, gd0, bb0, f, ns, sb, gd, bb, fi) && i == |ns| < NPTRS
    ensures bn.None? ==> sb' == sb && gd' == gd && bb' == bb && fi' == fi
    ensures bn.None? ==> forall k: nat :: FIRST_FREE <= k < tb ==> k in Marked(bb, tb)
    ensures bn.Some? ==> Took(tb, sb0, gd0, bb0, f, ns + [bn.value], sb', gd', bb', fi')
    ensures bn.Some? ==> FIRST_FREE <= bn.value < tb
    ensures bn.Some? ==> forall k: nat :: FIRST_FREE <= k < bn.value ==> k in Marked(bb, tb)
  {
    sb', gd', fi' := sb, gd, fi;
    bn, bb' := AllocBit(bb, FIRST_FREE, tb);
    if bn.Some? {
      TookStep(tb, sb0, gd0, bb0, f, ns, sb, gd, bb, fi, bn.value);
      sb' := AddFreeBlocks(sb, -1);
      gd' := AddGroupFreeBlocks(gd, -1);
      fi' := SetPtr(fi, i, bn.value);
    }
  }

  lemma TookStep(tb: nat, sb0: Block, gd0: Block, bb0: Block, f: Fields, ns: seq<nat>,
                 sb: Block, gd: Block, bb: Block, fi: Raw, b: nat)
    requires tb <= 8192 && Took(tb, sb0, gd0, bb0, f, ns, sb, gd, bb, fi) && |ns| < NPTRS
    requires FIRST_FREE <= b < tb && b !in Marked(bb, tb)
    ensures Took(tb, sb0, gd0, bb0, f, ns + [b], AddFreeBlocks(sb, -1), AddGroupFreeBlocks(gd, -1), SetBit(bb, b),
                 SetPtr(fi, |ns|, b))
  {
    TallyAlloc(tb, sb, gd, bb, b);
    MarkedSet(bb, b, tb);
    SetPtrFields(fi, |ns|, b);
    PadStep(ns, b);
    TakenSnoc(tb, bb0, ns, b);
  }

  lemma {:induction false} ElemsSize(ns: seq<nat>)
    requires Distinct(ns)
    ensures |Elems(ns)| == |ns|
  {
    if ns != [] {
      var k := |ns| - 1;
      TakeSnoc(ns, k);
      assert ns[..k + 1] == ns;
      ElemsSnoc(ns[..k], ns[k]);
      ElemsSize(ns[..k]);
    }
  }

  /** First fit finds enough blocks exactly when enough are clear. */
  lemma SpaceExact(tb: nat, bb: Block, ns: seq<nat>, n: nat, bb': Block)
    requires FIRST_FREE <= tb <= 8192 && Taken(tb, bb, ns) && Marked(bb', tb) == Marked(bb, tb) + Elems(ns)
    requires |ns| <= n
    requires |ns| < n ==> forall k: nat :: FIRST_FREE <= k < tb ==> k in Marked(bb', tb)
    ensures |ns| == n <==> n <= tb - |Marked(bb, tb) + Below(FIRST_FREE)|
  {
    ElemsSize(ns);
    BelowSize(tb);
    if |ns| < n {
      forall k: nat | k < tb ensures k in Marked(bb', tb) + Below(FIRST_FREE) {
        assert k < FIRST_FREE ==> k in Below(FIRST_FREE);
      }
    }
    SpaceSets(Marked(bb, tb), Below(FIRST_FREE), Elems(ns), Below(tb), n);
  }

  lemma SpaceSets(marked: set<nat>, low: set<nat>, more: set<nat>, all: set<nat>, n: nat)
    requires marked <= all && low <= all && more <= all && more !! marked && more !! low && |more| <= n
    requires |more| < n ==> all <= marked + more + low
    ensures |more| == n <==> n <= |all| - |marked + low|
  {
    var held := marked + low;
    assert held !! more && held + more <= all;
    assert |held + more| == |held| + |more|;
    SubsetSize(held + more, all);
    if |more| < n {
      assert held + more == all;
    }
  }

  /** `alloc_inode` and the inode counters. */
  method TakeInode(sb: Block, gd: Block, ib: Block)
    returns (c: Option<nat>, sb': Block, gd': Block, ib': Block)
    requires FreeInodes(sb) == GroupFreeInodes(gd) == INODES - |Marked(ib, INODES)|
    requires Below(LOST) <= Marked(ib, INODES)
    ensures c.Some? <==> FreeInodes(sb) > 0
    ensures c.Some? ==> LOST < c.value <= INODES && c.value - 1 !in Marked(ib, INODES) && ib' == SetBit(ib, c.value - 1)
    ensures c.Some? ==> forall k: nat :: LOST <= k < c.value - 1 ==> k in Marked(ib, INODES)
    ensures c.Some? ==> FreeInodes(sb') == FreeInodes(sb) - 1 && GroupFreeInodes(gd') == GroupFreeInodes(gd) - 1
    ensures c.Some? ==> FreeBlocks(sb') == FreeBlocks(sb) && Magic(sb') == Magic(sb)
    ensures c.Some? ==> GroupFreeBlocks(gd') == GroupFreeBlocks(gd) && UsedDirs(gd') == UsedDirs(gd)
  {
    sb', gd' := sb, gd;
    var bit;
    bit, ib' := AllocBit(ib, LOST, INODES);
    MarkedSize(ib, INODES);
    if bit.None? {
      AllMarked(ib);
      return None, sb', gd', ib';
    }
    c := Some(bit.value + 1);
    AddFreeInodesFields(sb, -1);
    AddGroupFreeInodesFields(gd, -1);
    sb' := AddFreeInodes(sb, -1);
    gd' := AddGroupFreeInodes(gd, -1);
  }

  lemma AllMarked(ib: Block)
    requires Below(LOST) <= Marked(ib, INODES) && forall k: nat :: LOST <= k < INODES ==> k in Marked(ib, INODES)
    ensures |Marked(ib, INODES)| == INODES
  {
    forall k: nat | k < INODES ensures k in Marked(ib, INODES) {
      assert k < LOST ==> k in Below(LOST);
    }
    BelowSize(INODES);
    assert Marked(ib, INODES) == Below(INODES);
  }

  /** A block for a directory: `alloc_block` and the counters. */
  method TakeOneBlock(tb: nat, sb: Block, gd: Block, bb: Block)
    returns (b: Option<nat>, sb': Block, gd': Block, bb': Block)
    requires FIRST_FREE <= tb <= 8192 && Tally(tb, sb, gd, bb) && Below(FIRST_FREE) <= Marked(bb, tb)
    ensures b.Some? <==> FreeBlocks(sb) > 0
    ensures b.Some? ==> FIRST_FREE <= b.value < tb && b.value !in Marked(bb, tb)
    ensures b.Some? ==> Marked(bb', tb) == Marked(bb, tb) + {b.value}
    ensures b.Some? ==> Tally(tb, sb', gd', bb') && SameInodeCounts(sb, gd, sb', gd')
  {
    sb', gd' := sb, gd;
    b, bb' := AllocBit(bb, FIRST_FREE, tb);
    MarkedSize(bb, tb);
    if b.Some? {
      TallyAlloc(tb, sb, gd, bb, b.value);
      MarkedSet(bb, b.value, tb);
      sb' := AddFreeBlocks(sb, -1);
      gd' := AddGroupFreeBlocks(gd, -1);
    } else {
      forall k: nat | k < tb ensures k in Marked(bb, tb) {
        assert k < FIRST_FREE ==> k in Below(FIRST_FREE);
      }
      BelowSize(tb);
      assert Marked(bb, tb) == Below(tb);
    }
  }
}
