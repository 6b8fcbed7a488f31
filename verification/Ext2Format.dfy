/**
 `chaseros_ext2_format`: a fresh volume holds the root directory and lost+found, and nothing else.
 */
module Ext2Format {
  import opened Bytes
  import opened Seqs
  import opened Path
  import opened Dirents
  import opened Bitmap
  import opened Ext2Tree
  import opened Ext2Layout
  import opened Ext2State
  import opened Ext2Alloc
  import opened Ext2Commit
  import opened Ext2Results

  const LOST_FOUND: seq<byte> := [108, 111, 115, 116, 43, 102, 111, 117, 110, 100]  // "lost+found"

  /** The superblock fields up to s_inodes_per_group. */
  function SuperCounts(tb: nat): (sb: Block)
    requires 256 <= tb <= 8192
    ensures FreeBlocks(sb) == tb - FIRST_FREE && FreeInodes(sb) == INODES - LOST
  {
    var sb := Patch(Zeros(BLK), 0, Le32(INODES));
    var sb := Patch(sb, 4, Le32(tb));
    var sb := Patch(sb, 8, Le32(8));
    var sb := Patch(sb, 12, Le32(tb - FIRST_FREE));
    var sb := Patch(sb, 16, Le32(INODES - LOST));
    var sb := Patch(sb, 20, Le32(1));
    var sb := Patch(sb, 32, Le32(tb));
    var sb := Patch(sb, 36, Le32(tb));
    var sb := Patch(sb, 40, Le32(INODES));
    Le32RoundTrip(tb - FIRST_FREE);
    Le32RoundTrip(INODES - LOST);
    sb
  }

  function Super(tb: nat): (sb: Block)
    requires 256 <= tb <= 8192
    ensures FreeBlocks(sb) == tb - FIRST_FREE && FreeInodes(sb) == INODES - LOST && Magic(sb) == MAGIC
  {
    var sb := Patch(SuperCounts(tb), 56, Le16(MAGIC));
    var sb := Patch(sb, 58, Le16(1));
    var sb := Patch(sb, 60, Le16(1));
    Le16RoundTrip(MAGIC);
    sb
  }

  function Group(tb: nat): (gd: Block)
    requires 256 <= tb <= 8192
    ensures GroupFreeBlocks(gd) == tb - FIRST_FREE && GroupFreeInodes(gd) == INODES - LOST && UsedDirs(gd) == 2
  {
    var gd := Patch(Zeros(BLK), 0, Le32(3));
    var gd := Patch(gd, 4, Le32(4));
    var gd := Patch(gd, 8, Le32(5));
    var gd := Patch(gd, 12, Le16(tb - FIRST_FREE));
    var gd := Patch(gd, 14, Le16(INODES - LOST));
    var gd := Patch(gd, 16, Le16(2));
    Le16RoundTrip(tb - FIRST_FREE);
    Le16RoundTrip(INODES - LOST);
    Le16RoundTrip(2);
    gd
  }

  /** The loops that mark the first `n` bits of a zeroed bitmap. */
  method MarkFirst(n: nat, ghost width: nat) returns (bm: Block)
    requires n <= width <= 8192
    ensures Marked(bm, width) == Below(n)
  {
    bm := Zeros(BLK);
    MarkedZeros(BLK, width);
    var b := 0;
    while b < n
      invariant b <= n && Marked(bm, width) == Below(b)
    {
      MarkedSet(bm, b, width);
      bm := SetBit(bm, b);
      b := b + 1;
    }
  }

  /** The root's inode: its links count itself, ".." and lost+found's "..". */
  function RootRaw(): Raw {
    SetLinks(StampDir(FIRST_DATA), 3)
  }

  lemma RootRawFields()
    ensures IsDirRaw(RootRaw(), FIRST_DATA, 3)
  {
    StampDirFields(FIRST_DATA);
    SetLinksFields(StampDir(FIRST_DATA), 3);
  }

  /** The blocks and inodes that formatting writes. */
  datatype Image = Image(sb: Block, gd: Block, bb: Block, ib: Block, rootRaw: Raw, lostRaw: Raw, droot: Block,
    dlf: Block)

  /** The metadata blocks and the inode table, on a zeroed volume. */
  function MetaDisk(tb: nat, m: Image): (d: Disk)
    requires 256 <= tb <= 8192
    ensures |d| == tb
  {
    var d: Disk := seq(tb, _ => Zeros(BLK));
    var d := d[1 := m.sb][2 := m.gd][3 := m.bb][4 := m.ib];
    PutInode(PutInode(d, ROOT, m.rootRaw), LOST, m.lostRaw)
  }

  /** Everything `chaseros_ext2_format` writes. */
  function FormatDisk(tb: nat, m: Image): (d: Disk)
    requires 256 <= tb <= 8192
    ensures |d| == tb
  {
    MetaDisk(tb, m)[FIRST_DATA := m.droot][FIRST_DATA + 1 := m.dlf]
  }

  function FreshNodes(): Nodes {
    seq(INODES + 1, _ => Vacant)
      [ROOT := RootNode()]
      [LOST := EmptyDir(FIRST_DATA + 1, LOST, ROOT)]
  }

  lemma FormatInode(tb: nat, m: Image, j: nat)
    requires 256 <= tb <= 8192 && 1 <= j <= INODES
    ensures InodeAt(FormatDisk(tb, m), j) ==
      if j == LOST then m.lostRaw else if j == ROOT then m.rootRaw else Zeros(128)
  {
    var d0: Disk := seq(tb, _ => Zeros(BLK));
    var d1 := d0[1 := m.sb][2 := m.gd][3 := m.bb][4 := m.ib];
    PutInodeFrame(d1, ROOT, m.rootRaw, j);
    PutInodeFrame(PutInode(d1, ROOT, m.rootRaw), LOST, m.lostRaw, j);
    ZeroInode(d1, j);
    assert FormatDisk(tb, m)[TableBlock(j)] == MetaDisk(tb, m)[TableBlock(j)];
  }

  lemma ZeroInode(d: Disk, j: nat)
    requires Sized(d) && 1 <= j <= INODES && d[TableBlock(j)] == Zeros(BLK)
    ensures InodeAt(d, j) == Zeros(128)
  {
  }

  /** The inodes and directory blocks are those of a fresh volume. */
  ghost predicate FreshImage(m: Image) {
    && IsDirRaw(m.rootRaw, FIRST_DATA, 3) && IsDirRaw(m.lostRaw, FIRST_DATA + 1, 2)
    && IsDirBlock(m.droot) && Parse(m.droot, 0) == FreshNodes()[ROOT].entries
    && IsDirBlock(m.dlf) && Parse(m.dlf, 0) == FreshNodes()[LOST].entries
  }

  lemma FormatDirs(tb: nat, m: Image)
    requires 256 <= tb <= 8192
    ensures FormatDisk(tb, m)[FIRST_DATA] == m.droot && FormatDisk(tb, m)[FIRST_DATA + 1] == m.dlf
  {
  }

  lemma FormatNode(tb: nat, m: Image, j: nat)
    requires 256 <= tb <= 8192 && 1 <= j <= INODES && FreshImage(m)
    ensures var d := FormatDisk(tb, m); InodeOk(d, j) && NodesOf(d)[j] == FreshNodes()[j]
  {
    var d := FormatDisk(tb, m);
    FormatInode(tb, m, j);
    FormatDirs(tb, m);
    FreshAt(j);
    if j == ROOT {
      DirNodeOf(d, m.rootRaw, FIRST_DATA, 3);
    } else if j == LOST {
      DirNodeOf(d, m.lostRaw, FIRST_DATA + 1, 2);
    } else {
      ZeroFields();
    }
  }

  // ---------------------------------------------------------------------------------------------
  // The fresh tree
  // ---------------------------------------------------------------------------------------------

  function RootNode(): Node {
    DirNode(FIRST_DATA, 3, [Dirent(ROOT, DOT), Dirent(ROOT, DOTDOT), Dirent(LOST, LOST_FOUND)])
  }

  lemma FreshAt(j: nat)
    requires j <= INODES
    ensures FreshNodes()[j] == if j == ROOT then RootNode()
                               else if j == LOST then EmptyDir(FIRST_DATA + 1, LOST, ROOT) else Vacant
  {
  }

  lemma LostFoundClean()
    ensures CleanName(LOST_FOUND) && LOST_FOUND != DOT && LOST_FOUND != DOTDOT
  {
    assert |LOST_FOUND| == 10;
  }

  lemma FreshEntry(d: nat, i: nat)
    requires IsEntry(FreshNodes(), d, i)
    ensures d == ROOT && i == 2 && FreshNodes()[d].entries[i] == Dirent(LOST, LOST_FOUND)
  {
    FreshAt(d);
  }

  lemma FreshTree()
    ensures TreeOk(FreshNodes())
  {
    var ns := FreshNodes();
    LostFoundClean();
    FreshAt(ROOT);
    FreshAt(LOST);
    FreshAt(0);
    forall d | 0 <= d <= INODES && ns[d].DirNode?
      ensures DotsOk(ns, d) && NamesDistinct(ns[d].entries)
    {
      FreshAt(d);
      NamesOfFresh();
    }
    forall d: nat, i: nat | IsEntry(ns, d, i)
      ensures EntryOk(ns, d, i)
    {
      FreshEntry(d, i);
    }
    assert OneName(ns) by { FreshOneName(); }
    assert OneOwner(ns) by { FreshOneOwner(); }
  }

  lemma NamesOfFresh()
    ensures NamesDistinct(RootNode().entries)
  {
    var es := RootNode().entries;
    assert |DOT| == 1 && |DOTDOT| == 2 && |LOST_FOUND| == 10;
    assert es[0].name == DOT && es[1].name == DOTDOT && es[2].name == LOST_FOUND;
  }

  lemma FreshOneName()
    ensures OneName(FreshNodes())
  {
    var ns := FreshNodes();
    forall d: nat, i: nat, d': nat, i': nat |
      IsEntry(ns, d, i) && IsEntry(ns, d', i') && ns[d].entries[i].ino == ns[d'].entries[i'].ino
      ensures d == d' && i == i'
    {
      FreshEntry(d, i);
      FreshEntry(d', i');
    }
  }

  lemma FreshOneOwner()
    ensures OneOwner(FreshNodes())
  {
    forall a, b | 0 <= a < b <= INODES
      ensures Blocks(FreshNodes()[a]) !! Blocks(FreshNodes()[b])
    {
      FreshAt(a);
      FreshAt(b);
    }
    forall a | 0 <= a <= INODES
      ensures !FreshNodes()[a].FileNode?
    {
      FreshAt(a);
    }
  }

  lemma FreshSets()
    ensures Refs(FreshNodes()) == {FIRST_DATA, FIRST_DATA + 1} && Dirs(FreshNodes()) == {ROOT, LOST}
  {
    var ns := FreshNodes();
    FreshAt(ROOT);
    FreshAt(LOST);
    forall j | 0 <= j <= INODES
      ensures Blocks(ns[j]) == (if j == ROOT then {FIRST_DATA} else if j == LOST then {FIRST_DATA + 1} else {})
      ensures ns[j].DirNode? <==> j == ROOT || j == LOST
    {
      FreshAt(j);
    }
    assert FIRST_DATA in Blocks(ns[ROOT]) && FIRST_DATA + 1 in Blocks(ns[LOST]);
  }

  lemma FreshLinks()
    ensures LinksOk(FreshNodes())
  {
    var ns := FreshNodes();
    FreshSets();
    forall d | 0 <= d <= INODES && ns[d].DirNode?
      ensures ns[d].links == 2 + |ChildDirs(ns, d)|
    {
      FreshAt(d);
      forall i: nat | i in ChildDirs(ns, d) ensures d == ROOT && i == 2 { FreshEntry(d, i); }
      if d == ROOT {
        assert 2 in ChildDirs(ns, d);
        assert ChildDirs(ns, d) == {2};
      } else {
        assert ChildDirs(ns, d) == {};
      }
    }
  }

  lemma FreshChild(d: nat, n: seq<byte>)
    requires CleanName(n)
    ensures Child(FreshNodes(), d, n) == if d == ROOT && n == LOST_FOUND then Some(LOST) else None
  {
    if d <= INODES {
      FreshAt(d);
      FindEntryAppend([], Dirent(d, DOT), n);
      FindEntryAppend([Dirent(d, DOT)], Dirent(ROOT, DOTDOT), n);
      assert [] + [Dirent(d, DOT)] == [Dirent(d, DOT)];
      var two := [Dirent(d, DOT), Dirent(ROOT, DOTDOT)];
      assert two == [Dirent(d, DOT)] + [Dirent(ROOT, DOTDOT)];
      FindEntryAppend(two, Dirent(LOST, LOST_FOUND), n);
      assert RootNode().entries == [Dirent(ROOT, DOT), Dirent(ROOT, DOTDOT)] + [Dirent(LOST, LOST_FOUND)];
    }
  }

  /** On a fresh volume only "/" and "/lost+found" exist. */
  lemma FreshLookup(q: seq<seq<byte>>)
    requires CleanPath(q)
    ensures Lookup(FreshNodes(), q) == if q == [] || q == [LOST_FOUND] then Some(Directory) else None
  {
    var ns := FreshNodes();
    FreshAt(ROOT);
    FreshAt(LOST);
    if q != [] {
      assert CleanName(q[0]);
      FreshChild(ROOT, q[0]);
      Uncons(q);
      if q[0] != LOST_FOUND {
        assert Walk(ns, ROOT, q) == None && q != [LOST_FOUND];
      } else {
        assert Walk(ns, ROOT, q) == Walk(ns, LOST, q[1..]);
        if q[1..] == [] {
          assert q == [LOST_FOUND];
        } else {
          assert CleanName(q[1..][0]);
          FreshChild(LOST, q[1..][0]);
          assert |q| > 1;
        }
      }
    }
  }

  lemma FreshLookups()
    ensures forall q :: CleanPath(q) ==>
              Lookup(FreshNodes(), q) == if q == [] || q == [LOST_FOUND] then Some(Directory) else None
  {
    forall q | CleanPath(q)
      ensures Lookup(FreshNodes(), q) == if q == [] || q == [LOST_FOUND] then Some(Directory) else None
    {
      FreshLookup(q);
    }
  }

  lemma FreshReachable()
    ensures AllReachable(FreshNodes())
  {
    var ns := FreshNodes();
    LostFoundClean();
    forall c | 0 <= c <= INODES && !ns[c].Vacant?
      ensures exists q :: LeadsTo(ns, q, c)
    {
      FreshAt(c);
      if c == ROOT {
        assert LeadsTo(ns, [], c);
      } else {
        FreshChild(ROOT, LOST_FOUND);
        assert [LOST_FOUND][1..] == [];
        assert LeadsTo(ns, [LOST_FOUND], c);
      }
    }
  }

  // ---------------------------------------------------------------------------------------------
  // The fresh volume
  // ---------------------------------------------------------------------------------------------

  lemma FormatNodes(tb: nat, m: Image)
    requires 256 <= tb <= 8192 && FreshImage(m)
    ensures NodesOf(FormatDisk(tb, m)) == FreshNodes()
    ensures forall j :: 1 <= j <= INODES ==> InodeOk(FormatDisk(tb, m), j)
  {
    var d := FormatDisk(tb, m);
    forall j | 1 <= j <= INODES
      ensures InodeOk(d, j) && NodesOf(d)[j] == FreshNodes()[j]
    {
      FormatNode(tb, m, j);
    }
    FreshAt(0);
  }

  lemma FormatHeads(tb: nat, m: Image)
    requires 256 <= tb <= 8192
    ensures var d := FormatDisk(tb, m); d[1] == m.sb && d[2] == m.gd && d[3] == m.bb && d[4] == m.ib
  {
  }

  /** The counters and bitmaps of a fresh volume. */
  ghost predicate FreshCounts(tb: nat, m: Image)
    requires 256 <= tb <= 8192
  {
    && Magic(m.sb) == MAGIC && FreeBlocks(m.sb) == GroupFreeBlocks(m.gd) == tb - FIRST_FREE
    && FreeInodes(m.sb) == GroupFreeInodes(m.gd) == INODES - LOST && UsedDirs(m.gd) == 2
    && Marked(m.bb, tb) == Below(FIRST_FREE) && Marked(m.ib, INODES) == Below(LOST)
  }

  lemma CountsOfFresh(tb: nat, m: Image)
    requires 256 <= tb <= 8192 && FreshCounts(tb, m)
    ensures BlockCounts(tb, m.sb, m.gd, m.bb, Refs(FreshNodes())) && InodeCounts(m.sb, m.gd, m.ib, FreshNodes())
  {
    FreshSets();
    FreshBlockBits(tb, m.sb, m.gd, m.bb, Refs(FreshNodes()));
    BelowSize(LOST);
    FreshInodeBits(m.ib);
  }

  lemma FreshBlockBits(tb: nat, sb: Block, gd: Block, bb: Block, refs: set<nat>)
    requires 256 <= tb <= 8192 && Marked(bb, tb) == Below(FIRST_FREE) && refs == {FIRST_DATA, FIRST_DATA + 1}
    requires FreeBlocks(sb) == GroupFreeBlocks(gd) == tb - FIRST_FREE
    ensures BlockCounts(tb, sb, gd, bb, refs)
  {
    BelowSize(FIRST_FREE);
    BelowStep(FIRST_DATA);
    BelowStep(FIRST_DATA + 1);
  }

  lemma FreshInodeBits(ib: Block)
    requires Marked(ib, INODES) == Below(LOST)
    ensures forall k: nat :: k < INODES ==> (k in Marked(ib, INODES) <==> k < LOST || !FreshNodes()[k + 1].Vacant?)
  {
    forall k: nat | k < INODES
      ensures k in Marked(ib, INODES) <==> k < LOST || !FreshNodes()[k + 1].Vacant?
    {
      FreshAt(k + 1);
    }
  }

  /** A freshly formatted volume meets the invariant and holds only the root and lost+found. */
  lemma FormatOk(tb: nat, m: Image)
    requires 256 <= tb <= 8192 && FreshImage(m) && FreshCounts(tb, m)
    ensures Formatted(FormatDisk(tb, m)) && NodesOf(FormatDisk(tb, m)) == FreshNodes()
    ensures var sb := FormatDisk(tb, m)[1]; FreeBlocks(sb) == tb - FIRST_FREE && FreeInodes(sb) == INODES - LOST
  {
    var d := FormatDisk(tb, m);
    FormatNodes(tb, m);
    FormatHeads(tb, m);
    FreshTree();
    FreshLinks();
    FreshReachable();
    CountsOfFresh(tb, m);
    assert Inv(d);
  }

  /** The buffers of `chaseros_ext2_format`. */
  method FreshBuffers(tb: nat) returns (m: Image)
    requires 256 <= tb <= 8192
    ensures FreshImage(m) && FreshCounts(tb, m)
  {
    var bb := MarkFirst(FIRST_FREE, tb);
    var ib := MarkFirst(LOST, INODES);
    var droot := NewDirBlock(ROOT, ROOT);
    LostFoundClean();
    FreshAt(ROOT);
    FreshAt(LOST);
    var lf: CStr := LOST_FOUND;
    var root := AppendEntry(droot, LOST, lf) by {
      assert EncAll([Dirent(ROOT, DOT), Dirent(ROOT, DOTDOT)]) ==
        Enc(Dirent(ROOT, DOT)) + EncAll([Dirent(ROOT, DOT), Dirent(ROOT, DOTDOT)][1..]);
    }
    var dlf := NewDirBlock(LOST, ROOT);
    RootRawFields();
    StampDirFields(FIRST_DATA + 1);
    GroupBlockFields(Group(tb));
    m := Image(Super(tb), GroupBlock(Group(tb)), bb, ib, RootRaw(), StampDir(FIRST_DATA + 1), root.value, dlf);
  }
}
