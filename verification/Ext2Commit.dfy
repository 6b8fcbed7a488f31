/**
 From the blocks an operation has written to the tree the volume then stands for: each successful
 operation keeps the invariant and changes the tree at one path.
 */
module Ext2Commit {
  import opened Bytes
  import opened Seqs
  import opened Path
  import opened Dirents
  import opened Bitmap
  import opened Ext2Tree
  import opened Ext2Layout
  import opened Ext2State
  import opened Ext2Alloc

  /** Only these inodes and these data blocks differ. */
  ghost predicate OnlyTouched(disk: Disk, disk': Disk, inodes: set<nat>, blocks: set<nat>)
    requires Sized(disk)
  {
    && |disk'| == |disk|
    && (forall j :: 1 <= j <= INODES && j !in inodes ==> InodeAt(disk', j) == InodeAt(disk, j))
    && (forall b :: FIRST_DATA <= b < |disk| && b !in blocks ==> disk'[b] == disk[b])
  }

  lemma TouchedNodes(disk: Disk, disk': Disk, p: nat, c: nat, blocks: set<nat>)
    requires Sized(disk) && (forall j :: 1 <= j <= INODES ==> InodeOk(disk, j))
    requires 1 <= p <= INODES && 1 <= c <= INODES && OnlyTouched(disk, disk', {p, c}, blocks)
    requires forall j :: 1 <= j <= INODES && j != p && j != c ==> Blocks(NodesOf(disk)[j]) !! blocks
    ensures NodesOf(disk') ==
      NodesOf(disk)[p := NodeOf(disk', InodeAt(disk', p))][c := NodeOf(disk', InodeAt(disk', c))]
    ensures forall j :: 1 <= j <= INODES && j != p && j != c ==> InodeOk(disk', j)
  {
    forall j | 1 <= j <= INODES && j != p && j != c
      ensures SameInode(disk, disk', j)
    {
      BlocksInRange(disk, j);
      assert Blocks(NodesOf(disk)[j]) !! blocks;
    }
    NodesUpdate(disk, disk', p, c);
  }

  /** Inode `c` is a file with this data in these blocks. */
  ghost predicate HoldsFile(disk: Disk, c: nat, ns: seq<nat>, data: seq<byte>)
    requires Sized(disk) && 1 <= c <= INODES
  {
    && IsFileRaw(InodeAt(disk, c), ns, |data|) && InRange(disk, ns) && Distinct(ns)
    && forall i :: 0 <= i < |ns| ==> BLK * i <= |data| && disk[ns[i]] == Chunk(data, i)
  }

  lemma ElemsAreBlocks(ns: seq<nat>, data: seq<byte>)
    ensures Blocks(FileNode(ns, data)) == Elems(ns)
  {
  }

  /** The nodes after a write to an existing inode, whatever it was before. */
  lemma OverwriteNodes(disk: Disk, disk': Disk, c: nat, ns: seq<nat>, data: seq<byte>)
    requires Sized(disk) && (forall j :: 1 <= j <= INODES ==> InodeOk(disk, j)) && OneOwner(NodesOf(disk))
    requires 1 <= c <= INODES && OnlyTouched(disk, disk', {c}, Elems(ns))
    requires HoldsFile(disk', c, ns, data) && Elems(ns) !! Refs(NodesOf(disk)) - Blocks(NodesOf(disk)[c])
    ensures NodesOf(disk') == NodesOf(disk)[c := FileNode(ns, data)]
    ensures forall j :: 1 <= j <= INODES ==> InodeOk(disk', j)
  {
    var nodes := NodesOf(disk);
    forall j | 1 <= j <= INODES && j != c
      ensures Blocks(nodes[j]) !! Elems(ns)
    {
      OthersDisjoint(nodes, c, Elems(ns), j);
    }
    TouchedNodes(disk, disk', c, c, Elems(ns));
    FileNodeOf(disk', InodeAt(disk', c), ns, data);
  }

  /** What a completed overwrite of inode `c` has done. */
  ghost predicate Overwritten(disk: Disk, disk': Disk, c: nat, ns: seq<nat>, data: seq<byte>)
    requires Sized(disk) && 1 <= c <= INODES
  {
    var nodes := NodesOf(disk);
    && OnlyTouched(disk, disk', {c}, Elems(ns)) && HoldsFile(disk', c, ns, data)
    && Elems(ns) !! Refs(nodes) - Blocks(nodes[c])
    && Magic(disk'[1]) == MAGIC && disk'[4] == disk[4] && SameInodeCounts(disk[1], disk[2], disk'[1], disk'[2])
    && Tally(|disk|, disk'[1], disk'[2], disk'[3])
    && Marked(disk'[3], |disk|) == Marked(disk[3], |disk|) - Blocks(nodes[c]) + Elems(ns)
  }

  lemma BlockCountsOverwrite(tb: nat, sb: Block, gd: Block, bb: Block, refs: set<nat>,
                             sb': Block, gd': Block, bb': Block, gone: set<nat>, came: set<nat>)
    requires tb <= 8192 && BlockCounts(tb, sb, gd, bb, refs) && Tally(tb, sb', gd', bb')
    requires Marked(bb', tb) == Marked(bb, tb) - gone + came && forall b :: b in gone ==> FIRST_FREE <= b
    ensures BlockCounts(tb, sb', gd', bb', refs - gone + came)
  {
    assert Marked(bb', tb) == Below(FIRST_DATA) + (refs - gone + came);
  }

  lemma FileBlocksHigh(disk: Disk, c: nat)
    requires Sized(disk) && 0 <= c <= INODES && NodesOf(disk)[c].FileNode?
    ensures forall b :: b in Blocks(NodesOf(disk)[c]) ==> FIRST_FREE <= b < |disk|
  {
    assert InRange(disk, NodesOf(disk)[c].ptrs);
  }

  lemma InodeCountsOverwrite(sb: Block, gd: Block, sb': Block, gd': Block, ib: Block, nodes: Nodes, c: nat, node: Node)
    requires InodeCounts(sb, gd, ib, nodes) && SameInodeCounts(sb, gd, sb', gd')
    requires c <= INODES && nodes[c].FileNode? && node.FileNode?
    ensures InodeCounts(sb', gd', ib, nodes[c := node])
  {
    var nodes' := nodes[c := node];
    assert Dirs(nodes') == Dirs(nodes);
    forall k: nat | k < INODES
      ensures k in Marked(ib, INODES) <==> k < LOST || !nodes'[k + 1].Vacant?
    {
      assert nodes'[k + 1].Vacant? <==> nodes[k + 1].Vacant?;
    }
  }

  /** Overwriting a file keeps the invariant. */
  lemma OverwriteInv(disk: Disk, disk': Disk, c: nat, ns: seq<nat>, data: seq<byte>)
    requires Inv(disk) && 1 <= c <= INODES && NodesOf(disk)[c].FileNode? && Overwritten(disk, disk', c, ns, data)
    ensures Inv(disk') && NodesOf(disk') == NodesOf(disk)[c := FileNode(ns, data)]
  {
    var nodes, node := NodesOf(disk), FileNode(ns, data);
    OverwriteNodes(disk, disk', c, ns, data);
    ElemsAreBlocks(ns, data);
    assert CanOverwrite(nodes, c, node);
    TreeOverwrite(nodes, c, node);
    ReachableOverwrite(nodes, c, node);
    InodeCountsOverwrite(disk[1], disk[2], disk'[1], disk'[2], disk[4], nodes, c, node);
    FileBlocksHigh(disk, c);
    BlockCountsOverwrite(|disk|, disk[1], disk[2], disk[3], Refs(nodes), disk'[1], disk'[2], disk'[3],
                         Blocks(nodes[c]), Elems(ns));
  }

  /**
   The code does not check what it overwrites. When the target is a directory the directory count is
   left one too high, so the invariant is lost.
   */
  lemma OverwriteDirBreaks(disk: Disk, disk': Disk, c: nat, ns: seq<nat>, data: seq<byte>)
    requires Inv(disk) && 1 <= c <= INODES && NodesOf(disk)[c].DirNode? && Overwritten(disk, disk', c, ns, data)
    ensures NodesOf(disk') == NodesOf(disk)[c := FileNode(ns, data)] && !Inv(disk')
  {
    var nodes := NodesOf(disk);
    OverwriteNodes(disk, disk', c, ns, data);
    DirsLost(nodes, c, FileNode(ns, data));
    assert UsedDirs(disk'[2]) == UsedDirs(disk[2]) == |Dirs(nodes)|;
    assert UsedDirs(disk'[2]) != |Dirs(NodesOf(disk'))|;
  }

  lemma DirsLost(nodes: Nodes, c: nat, node: Node)
    requires c <= INODES && nodes[c].DirNode? && node.FileNode?
    ensures |Dirs(nodes[c := node])| == |Dirs(nodes)| - 1
  {
    assert Dirs(nodes[c := node]) == Dirs(nodes) - {c};
  }

  // ---------------------------------------------------------------------------------------------
  // New names
  // ---------------------------------------------------------------------------------------------

  /** The directory block of `p` has one entry more. */
  ghost predicate EntryAppended(disk: Disk, disk': Disk, p: nat, name: seq<byte>, c: nat)
    requires Sized(disk) && |disk'| == |disk| && 1 <= p <= INODES
  {
    var dn := NodesOf(disk)[p];
    && dn.DirNode? && FIRST_DATA <= dn.blk < |disk|
    && IsDirBlock(disk'[dn.blk]) && Parse(disk'[dn.blk], 0) == dn.entries + [Dirent(c, name)]
  }

  /** The nodes after a new inode `c` has been written and named in directory `p`. */
  lemma AddNodes(disk: Disk, disk': Disk, p: nat, name: seq<byte>, c: nat, node: Node)
    requires Sized(disk) && (forall j :: 1 <= j <= INODES ==> InodeOk(disk, j)) && OneOwner(NodesOf(disk))
    requires 1 <= p <= INODES && CanAdd(NodesOf(disk), p, name, c, node)
    requires OnlyTouched(disk, disk', {p, c}, Blocks(node) + {NodesOf(disk)[p].blk})
    requires EntryAppended(disk, disk', p, name, c)
    requires var dn := NodesOf(disk)[p];
             IsDirRaw(InodeAt(disk', p), dn.blk, if node.DirNode? then dn.links + 1 else dn.links)
    requires InodeOk(disk', c) && NodeOf(disk', InodeAt(disk', c)) == node
    ensures NodesOf(disk') == AddChild(NodesOf(disk), p, name, c, node)
    ensures forall j :: 1 <= j <= INODES ==> InodeOk(disk', j)
  {
    var nodes := NodesOf(disk);
    var dn := nodes[p];
    forall j | 1 <= j <= INODES && j != p && j != c
      ensures Blocks(nodes[j]) !! Blocks(node) + {dn.blk}
    {
      OthersDisjoint(nodes, p, {dn.blk}, j);
      assert Blocks(nodes[j]) <= Refs(nodes);
    }
    TouchedNodes(disk, disk', p, c, Blocks(node) + {dn.blk});
    DirNodeOf(disk', InodeAt(disk', p), dn.blk, if node.DirNode? then dn.links + 1 else dn.links);
  }

  /** What the operation must have done to the counters. */
  ghost predicate CountsAdded(disk: Disk, disk': Disk, c: nat, node: Node)
    requires Sized(disk) && |disk'| == |disk| && 1 <= c <= INODES
  {
    && Magic(disk'[1]) == MAGIC
    && BlockCounts(|disk|, disk'[1], disk'[2], disk'[3], Refs(NodesOf(disk)) + Blocks(node))
    && disk'[4] == SetBit(disk[4], c - 1)
    && FreeInodes(disk'[1]) == FreeInodes(disk[1]) - 1 && GroupFreeInodes(disk'[2]) == GroupFreeInodes(disk[2]) - 1
    && UsedDirs(disk'[2]) == UsedDirs(disk[2]) + (if node.DirNode? then 1 else 0)
  }

  lemma VacantAdd(nodes: Nodes, p: nat, c: nat, g: Node, node: Node, k: nat)
    requires p <= INODES && c <= INODES && k <= INODES && !nodes[p].Vacant? && !g.Vacant? && !node.Vacant?
    ensures nodes[p := g][c := node][k].Vacant? <==> k != c && nodes[k].Vacant?
  {
  }

  lemma InodeCountsAdd(sb: Block, gd: Block, ib: Block, sb': Block, gd': Block, ib': Block,
                       nodes: Nodes, p: nat, name: seq<byte>, c: nat, node: Node)
    requires InodeCounts(sb, gd, ib, nodes) && CanAdd(nodes, p, name, c, node)
    requires FreeInodes(sb') == FreeInodes(sb) - 1 && GroupFreeInodes(gd') == GroupFreeInodes(gd) - 1
    requires ib' == SetBit(ib, c - 1) && UsedDirs(gd') == UsedDirs(gd) + (if node.DirNode? then 1 else 0)
    ensures InodeCounts(sb', gd', ib', AddChild(nodes, p, name, c, node))
  {
    var nodes', g := AddChild(nodes, p, name, c, node), Grown(nodes[p], name, c, node.DirNode?);
    InodeMarksAdd(ib, ib', nodes, p, c, g, node);
    DirSetAdd(nodes, p, c, g, node);
    OneMore(Marked(ib, INODES), c - 1);
    if node.DirNode? {
      OneMore(Dirs(nodes), c);
    }
  }

  lemma InodeMarksAdd(ib: Block, ib': Block, nodes: Nodes, p: nat, c: nat, g: Node, node: Node)
    requires forall k: nat :: k < INODES ==> (k in Marked(ib, INODES) <==> k < LOST || !nodes[k + 1].Vacant?)
    requires p <= INODES && LOST < c <= INODES && nodes[p].DirNode? && g.DirNode? && nodes[c].Vacant? && !node.Vacant?
    requires ib' == SetBit(ib, c - 1)
    ensures c - 1 !in Marked(ib, INODES) && Marked(ib', INODES) == Marked(ib, INODES) + {c - 1}
    ensures var nodes' := nodes[p := g][c := node];
            forall k: nat :: k < INODES ==> (k in Marked(ib', INODES) <==> k < LOST || !nodes'[k + 1].Vacant?)
  {
    MarkedSet(ib, c - 1, INODES);
    assert nodes[c - 1 + 1].Vacant?;
    var nodes' := nodes[p := g][c := node];
    forall k: nat | k < INODES
      ensures k in Marked(ib', INODES) <==> k < LOST || !nodes'[k + 1].Vacant?
    {
      VacantAdd(nodes, p, c, g, node, k + 1);
    }
  }

  lemma OneMore(s: set<nat>, x: nat)
    requires x !in s
    ensures |s + {x}| == |s| + 1
  {
  }

  /** Adding a file or directory keeps the invariant. */
  lemma AddInv(disk: Disk, disk': Disk, dir: seq<seq<byte>>, p: nat, name: seq<byte>, c: nat, node: Node)
    requires Inv(disk) && 1 <= p <= INODES && CanAdd(NodesOf(disk), p, name, c, node)
    requires LeadsTo(NodesOf(disk), dir, p) && |disk'| == |disk| && CountsAdded(disk, disk', c, node)
    requires NodesOf(disk') == AddChild(NodesOf(disk), p, name, c, node)
    requires forall j :: 1 <= j <= INODES ==> InodeOk(disk', j)
    ensures Inv(disk')
  {
    var nodes := NodesOf(disk);
    TreeAdd(nodes, p, name, c, node);
    ReachableAdd(nodes, dir, p, name, c, node);
    InodeCountsAdd(disk[1], disk[2], disk[4], disk'[1], disk'[2], disk'[4], nodes, p, name, c, node);
  }

  // ---------------------------------------------------------------------------------------------
  // The writes at the end of an operation
  // ---------------------------------------------------------------------------------------------

  /** `write_super`, `write_gd`, both bitmaps, and one inode. */
  function Commit(d: Disk, sb: Block, gd: Block, bb: Block, ib: Block, ino: nat, raw: Raw): (d': Disk)
    requires Sized(d) && 1 <= ino <= INODES
    ensures |d'| == |d|
  {
    PutInode(d[1 := sb][2 := GroupBlock(gd)][3 := bb][4 := ib], ino, raw)
  }

  lemma CommitHeads(d: Disk, sb: Block, gd: Block, bb: Block, ib: Block, ino: nat, raw: Raw)
    requires Sized(d) && 1 <= ino <= INODES
    ensures var d' := Commit(d, sb, gd, bb, ib, ino, raw);
            && d'[1] == sb && d'[2] == GroupBlock(gd) && d'[3] == bb && d'[4] == ib
            && forall b :: FIRST_DATA <= b < |d| ==> d'[b] == d[b]
  {
  }

  lemma CommitInode(d: Disk, sb: Block, gd: Block, bb: Block, ib: Block, ino: nat, raw: Raw, j: nat)
    requires Sized(d) && 1 <= ino <= INODES && 1 <= j <= INODES
    ensures InodeAt(Commit(d, sb, gd, bb, ib, ino, raw), j) == if j == ino then raw else InodeAt(d, j)
  {
    PutInodeFrame(d[1 := sb][2 := GroupBlock(gd)][3 := bb][4 := ib], ino, raw, j);
  }

  /** Filling data blocks leaves the inode table and the other data blocks alone. */
  lemma FillTouches(d: Disk, ns: seq<nat>, data: seq<byte>)
    requires Sized(d) && InRange(d, ns) && Covers(ns, data)
    ensures OnlyTouched(d, Fill(d, ns, data), {}, Elems(ns))
  {
    forall b | 0 <= b < |d| && b !in Elems(ns)
      ensures Fill(d, ns, data)[b] == d[b]
    {
      FillFrame(d, ns, data, b);
    }
    forall j | 1 <= j <= INODES
      ensures InodeAt(Fill(d, ns, data), j) == InodeAt(d, j)
    {
      assert TableBlock(j) !in Elems(ns);
    }
  }

  /** The state after a file has been filled in and everything written. */
  lemma FileCommitted(d: Disk, ns: seq<nat>, data: seq<byte>, sb: Block, gd: Block, bb: Block, ib: Block, c: nat,
      raw: Raw)
    requires Sized(d) && 1 <= c <= INODES && InRange(d, ns) && Distinct(ns) && Covers(ns, data)
    requires IsFileRaw(raw, ns, |data|)
    ensures var d' := Commit(Fill(d, ns, data), sb, gd, bb, ib, c, raw);
            && OnlyTouched(d, d', {c}, Elems(ns)) && HoldsFile(d', c, ns, data)
            && d'[1] == sb && d'[2] == GroupBlock(gd) && d'[3] == bb && d'[4] == ib
  {
    var f := Fill(d, ns, data);
    var d' := Commit(f, sb, gd, bb, ib, c, raw);
    CommitHeads(f, sb, gd, bb, ib, c, raw);
    FillTouches(d, ns, data);
    forall j | 1 <= j <= INODES
      ensures InodeAt(d', j) == if j == c then raw else InodeAt(d, j)
    {
      CommitInode(f, sb, gd, bb, ib, c, raw, j);
    }
    forall i | 0 <= i < |ns|
      ensures BLK * i <= |data| && d'[ns[i]] == Chunk(data, i)
    {
      FillAt(d, ns, data, i);
    }
  }

  // ---------------------------------------------------------------------------------------------
  // What the buffers say at the start of an operation
  // ---------------------------------------------------------------------------------------------

  lemma TallyOf(disk: Disk)
    requires Formatted(disk)
    ensures Tally(|disk|, disk[1], disk[2], disk[3])
    ensures Marked(disk[3], |disk|) == Below(FIRST_DATA) + Refs(NodesOf(disk))
  {
    assert Inv(disk);
  }

  lemma MagicOf(disk: Disk)
    requires Formatted(disk)
    ensures Magic(disk[1]) == MAGIC
  {
    assert Inv(disk);
  }

  /** The pointers of an inode in use are the blocks of its node, then zeros. */
  lemma NodePointers(disk: Disk, raw: Raw)
    requires Sized(disk) && !NodeOf(disk, raw).Vacant?
    ensures var f, node := FieldsOf(raw), NodeOf(disk, raw);
            && NBlocks(f.size) <= NDIRECT && Elems(f.ptrs[..NBlocks(f.size)]) == Blocks(node)
            && (forall i :: NBlocks(f.size) <= i < NPTRS ==> f.ptrs[i] == 0)
            && (node.FileNode? ==> node.ptrs == f.ptrs[..NBlocks(f.size)])
            && (node.DirNode? ==> NBlocks(f.size) == 1)
  {
    var f, node := FieldsOf(raw), NodeOf(disk, raw);
    if node.DirNode? {
      assert f.ptrs[..1] == [node.blk];
    }
  }

  /** The pointers of any inode in use can be freed. */
  lemma FreeableInode(disk: Disk, c: nat)
    requires Formatted(disk) && 1 <= c <= INODES && !NodesOf(disk)[c].Vacant?
    ensures var f := FieldsOf(InodeAt(disk, c));
            && Freeable(f, disk[3], |disk|) && Elems(f.ptrs[..NBlocks(f.size)]) == Blocks(NodesOf(disk)[c])
  {
    assert Inv(disk);
    var node := NodesOf(disk)[c];
    NodePointers(disk, InodeAt(disk, c));
    BlocksInRange(disk, c);
    TallyOf(disk);
    assert Blocks(node) <= Refs(NodesOf(disk));
    assert node.FileNode? ==> Distinct(node.ptrs);
    FreeableFields(FieldsOf(InodeAt(disk, c)), disk[3], |disk|, node);
  }

  lemma FreeableFields(f: Fields, bb: Block, tb: nat, node: Node)
    requires |f.ptrs| == NPTRS && tb <= 8192 && NBlocks(f.size) <= NDIRECT
    requires Elems(f.ptrs[..NBlocks(f.size)]) == Blocks(node) <= Marked(bb, tb) && 0 !in Blocks(node)
    requires forall i :: NBlocks(f.size) <= i < NPTRS ==> f.ptrs[i] == 0
    requires node.FileNode? ==> node.ptrs == f.ptrs[..NBlocks(f.size)] && Distinct(node.ptrs)
    requires !node.FileNode? ==> NBlocks(f.size) == 1
    ensures Freeable(f, bb, tb)
  {
    var n := NBlocks(f.size);
    forall i | 0 <= i < n
      ensures f.ptrs[i] != 0 && f.ptrs[i] in Marked(bb, tb)
    {
      assert f.ptrs[..n][i] in Elems(f.ptrs[..n]);
    }
  }

  // ---------------------------------------------------------------------------------------------
  // Overwriting, from the buffers to the result
  // ---------------------------------------------------------------------------------------------

  /** The inode of a regular file of `len` bytes, as the code fills it in. */
  function StampFile(fi: Raw, len: nat): Raw {
    SetSectors(SetLinks(SetSize(SetMode(fi, REG_MODE), len), 1), (len + 511) / 512)
  }

  lemma StampFields(fi: Raw, len: nat)
    requires len <= NDIRECT * BLK
    ensures FieldsOf(StampFile(fi, len)) == Fields(REG_MODE, len, 1, (len + 511) / 512, FieldsOf(fi).ptrs)
  {
    SetModeFields(fi, REG_MODE);
    var a := SetMode(fi, REG_MODE);
    SetSizeFields(a, len);
    var b := SetSize(a, len);
    SetLinksFields(b, 1);
    SetSectorsFields(SetLinks(b, 1), (len + 511) / 512);
  }

  /** Rewriting blocks 0 to 4 does not touch inodes or data. */
  lemma HeadsOnly(disk: Disk, d: Disk, d': Disk, inodes: set<nat>, blocks: set<nat>)
    requires Sized(disk) && |d| == |disk| && (forall b :: 5 <= b < |disk| ==> d[b] == disk[b])
    requires OnlyTouched(d, d', inodes, blocks)
    ensures OnlyTouched(disk, d', inodes, blocks)
  {
    forall j | 1 <= j <= INODES
      ensures InodeAt(d, j) == InodeAt(disk, j)
    {
    }
  }

  lemma FileRawOf(raw: Raw, f: Fields, ns: seq<nat>, len: nat)
    requires len <= NDIRECT * BLK && |ns| == NBlocks(len)
    requires FieldsOf(raw) == f.(ptrs := Padded(ns)) && f == Fields(REG_MODE, len, 1, (len + 511) / 512, f.ptrs)
    ensures IsFileRaw(raw, ns, len)
  {
  }

  /** The buffers once the old blocks of inode `c` are freed and its new fields are filled in. */
  ghost predicate Released(disk: Disk, c: nat, len: nat, sb: Block, gd: Block, bb: Block, fi: Raw)
    requires Sized(disk) && 1 <= c <= INODES
  {
    && SameInodeCounts(disk[1], disk[2], sb, gd) && Tally(|disk|, sb, gd, bb)
    && Marked(bb, |disk|) == Marked(disk[3], |disk|) - Blocks(NodesOf(disk)[c])
    && FieldsOf(fi) == Fields(REG_MODE, len, 1, (len + 511) / 512, Padded([]))
  }

  lemma OverwriteDone(disk: Disk, c: nat, ns: seq<nat>, data: seq<byte>, bb1: Block, sb1: Block, gd1: Block,
                      fi1: Raw, sb: Block, gd: Block, bb: Block, raw: Raw)
    requires Formatted(disk) && 1 <= c <= INODES && |data| <= NDIRECT * BLK
    requires Released(disk, c, |data|, sb1, gd1, bb1, fi1)
    requires Took(|disk|, sb1, gd1, bb1, FieldsOf(fi1), ns, sb, gd, bb, raw) && |ns| == NBlocks(|data|)
    requires InRange(disk, ns) && Covers(ns, data)
    ensures Overwritten(disk, Commit(Fill(disk[3 := bb1], ns, data), sb, gd, bb, disk[4], c, raw), c, ns, data)
  {
    var d := disk[3 := bb1];
    MagicOf(disk);
    TallyOf(disk);
    FileRawOf(raw, FieldsOf(fi1), ns, |data|);
    FileCommitted(d, ns, data, sb, gd, bb, disk[4], c, raw);
    HeadsOnly(disk, d, Commit(Fill(d, ns, data), sb, gd, bb, disk[4], c, raw), {c}, Elems(ns));
    GroupBlockFields(gd);
    forall b | b in Elems(ns)
      ensures b !in Refs(NodesOf(disk)) - Blocks(NodesOf(disk)[c])
    {
    }
  }

  /** Whether the new blocks fit is decided by the clear bits and the blocks given back. */
  lemma OverwriteSpace(disk: Disk, c: nat, len: nat, bb1: Block, ns: seq<nat>, bb: Block)
    requires Formatted(disk) && 1 <= c <= INODES
    requires Marked(bb1, |disk|) == Marked(disk[3], |disk|) - Blocks(NodesOf(disk)[c])
    requires Taken(|disk|, bb1, ns) && Marked(bb, |disk|) == Marked(bb1, |disk|) + Elems(ns) && |ns| <= NBlocks(len)
    requires |ns| < NBlocks(len) ==> forall k: nat :: FIRST_FREE <= k < |disk| ==> k in Marked(bb, |disk|)
    ensures |ns| == NBlocks(len) <==> NBlocks(len) <= FreeBlocks(disk[1]) + |Regained(NodesOf(disk)[c])|
  {
    NodeMarked(disk, c);
    LowMarked(disk);
    GivenBack(Marked(disk[3], |disk|), Blocks(NodesOf(disk)[c]), Below(FIRST_FREE));
    SpaceExact(|disk|, bb1, ns, NBlocks(len), bb);
    TallyOf(disk);
  }

  lemma NodeMarked(disk: Disk, c: nat)
    requires Formatted(disk) && 1 <= c <= INODES
    ensures Blocks(NodesOf(disk)[c]) <= Marked(disk[3], |disk|)
  {
    assert Inv(disk);
    assert Blocks(NodesOf(disk)[c]) <= Refs(NodesOf(disk));
  }

  lemma GivenBack(before: set<nat>, blocks: set<nat>, low: set<nat>)
    requires blocks <= before && low <= before
    ensures before - blocks + low == before - (blocks - low) && |before - blocks + low| == |before| - |blocks - low|
  {
    assert before - blocks + low == before - (blocks - low);
  }

  lemma CreateSpace(disk: Disk, len: nat, ns: seq<nat>, bb: Block)
    requires Formatted(disk) && Taken(|disk|, disk[3], ns) && Marked(bb, |disk|) == Marked(disk[3], |disk|) + Elems(ns)
    requires |ns| <= NBlocks(len)
    requires |ns| < NBlocks(len) ==> forall k: nat :: FIRST_FREE <= k < |disk| ==> k in Marked(bb, |disk|)
    ensures |ns| == NBlocks(len) <==> NBlocks(len) <= FreeBlocks(disk[1])
  {
    LowMarked(disk);
    assert Marked(disk[3], |disk|) + Below(FIRST_FREE) == Marked(disk[3], |disk|);
    SpaceExact(|disk|, disk[3], ns, NBlocks(len), bb);
    TallyOf(disk);
  }

  /** The blocks of a node that the allocator can hand out again: it never looks below block 23. */
  ghost function Regained(node: Node): set<nat> {
    Blocks(node) - Below(FIRST_FREE)
  }

  lemma RegainedFile(disk: Disk, c: nat)
    requires Sized(disk) && 1 <= c <= INODES && NodesOf(disk)[c].FileNode?
    ensures Regained(NodesOf(disk)[c]) == Blocks(NodesOf(disk)[c])
  {
    FileBlocksHigh(disk, c);
  }

  lemma LowMarked(disk: Disk)
    requires Formatted(disk)
    ensures Below(FIRST_FREE) <= Marked(disk[3], |disk|)
  {
    assert Inv(disk);
  }

  // ---------------------------------------------------------------------------------------------
  // New names, from the buffers to the result
  // ---------------------------------------------------------------------------------------------

  /** What a completed creation has done. */
  ghost predicate Added(disk: Disk, disk': Disk, p: nat, name: seq<byte>, c: nat, node: Node)
    requires Sized(disk) && 1 <= p <= INODES && 1 <= c <= INODES
  {
    var dn := NodesOf(disk)[p];
    && CanAdd(NodesOf(disk), p, name, c, node)
    && OnlyTouched(disk, disk', {p, c}, Blocks(node) + {dn.blk}) && EntryAppended(disk, disk', p, name, c)
    && IsDirRaw(InodeAt(disk', p), dn.blk, if node.DirNode? then dn.links + 1 else dn.links)
    && InodeOk(disk', c) && NodeOf(disk', InodeAt(disk', c)) == node
    && CountsAdded(disk, disk', c, node)
  }

  /** A completed creation keeps the invariant and adds one node. */
  lemma AddedInv(disk: Disk, disk': Disk, dir: seq<seq<byte>>, p: nat, name: seq<byte>, c: nat, node: Node)
    requires Inv(disk) && 1 <= p <= INODES && 1 <= c <= INODES && Added(disk, disk', p, name, c, node)
    requires LeadsTo(NodesOf(disk), dir, p)
    ensures Inv(disk') && NodesOf(disk') == AddChild(NodesOf(disk), p, name, c, node)
  {
    AddNodes(disk, disk', p, name, c, node);
    AddInv(disk, disk', dir, p, name, c, node);
  }

  lemma DirRawOf(disk: Disk, raw: Raw)
    requires NodeOf(disk, raw).DirNode?
    ensures var n := NodeOf(disk, raw);
            && IsDirRaw(raw, n.blk, n.links) && FIRST_DATA <= n.blk < |disk|
            && IsDirBlock(disk[n.blk]) && Parse(disk[n.blk], 0) == n.entries
  {
    var f := FieldsOf(raw);
    assert f.ptrs == [f.ptrs[0]] + seq(NPTRS - 1, _ => 0);
  }

  /** The buffers once an inode has been taken. */
  ghost predicate InodeTaken(disk: Disk, c: nat, sb: Block, gd: Block, ib: Block)
    requires Sized(disk)
  {
    && LOST < c <= INODES && c - 1 !in Marked(disk[4], INODES) && ib == SetBit(disk[4], c - 1)
    && FreeInodes(sb) == FreeInodes(disk[1]) - 1 && GroupFreeInodes(gd) == GroupFreeInodes(disk[2]) - 1
    && FreeBlocks(sb) == FreeBlocks(disk[1]) && Magic(sb) == Magic(disk[1])
    && GroupFreeBlocks(gd) == GroupFreeBlocks(disk[2]) && UsedDirs(gd) == UsedDirs(disk[2])
  }

  lemma LowInodesMarked(disk: Disk)
    requires Formatted(disk)
    ensures FreeInodes(disk[1]) == GroupFreeInodes(disk[2]) == INODES - |Marked(disk[4], INODES)|
    ensures Below(LOST) <= Marked(disk[4], INODES)
  {
    assert Inv(disk);
    InodesMarked(disk[1], disk[2], disk[4], NodesOf(disk));
  }

  lemma InodesMarked(sb: Block, gd: Block, ib: Block, nodes: Nodes)
    requires InodeCounts(sb, gd, ib, nodes)
    ensures FreeInodes(sb) == GroupFreeInodes(gd) == INODES - |Marked(ib, INODES)|
    ensures Below(LOST) <= Marked(ib, INODES)
  {
    assert forall k: nat :: k in Below(LOST) ==> k < INODES && k in Marked(ib, INODES);
  }

  lemma BlockCountsAdd(tb: nat, sb: Block, gd: Block, bb: Block, refs: set<nat>,
                       sb': Block, gd': Block, bb': Block, came: set<nat>)
    requires tb <= 8192 && BlockCounts(tb, sb, gd, bb, refs) && Tally(tb, sb', gd', bb')
    requires Marked(bb', tb) == Marked(bb, tb) + came
    ensures BlockCounts(tb, sb', gd', bb', refs + came)
  {
    assert Marked(bb', tb) == Below(FIRST_DATA) + (refs + came);
  }

  /** The counters after a new file. */
  lemma CountsOfNewFile(disk: Disk, disk': Disk, c: nat, ns: seq<nat>, data: seq<byte>,
                        sb1: Block, gd1: Block, ib: Block, sb: Block, gd: Block, bb: Block, f: Fields, raw: Raw)
    requires Formatted(disk) && 1 <= c <= INODES && InodeTaken(disk, c, sb1, gd1, ib)
    requires Took(|disk|, sb1, gd1, disk[3], f, ns, sb, gd, bb, raw)
    requires |disk'| == |disk| && disk'[1] == sb && disk'[2] == GroupBlock(gd) && disk'[3] == bb && disk'[4] == ib
    ensures CountsAdded(disk, disk', c, FileNode(ns, data))
  {
    assert Inv(disk);
    GroupBlockFields(gd);
    ElemsAreBlocks(ns, data);
    BlockCountsAdd(|disk|, disk[1], disk[2], disk[3], Refs(NodesOf(disk)), sb, disk'[2], bb, Elems(ns));
  }

  lemma FreshBlocks(disk: Disk, ns: seq<nat>)
    requires Formatted(disk) && Taken(|disk|, disk[3], ns)
    ensures Elems(ns) !! Refs(NodesOf(disk))
  {
    assert Inv(disk);
    TallyOf(disk);
  }

  lemma DirBlockWritten(disk: Disk, blk: nat, db: Block, d': Disk, inodes: set<nat>, blocks: set<nat>)
    requires Sized(disk) && FIRST_DATA <= blk < |disk| && blk !in blocks
    requires OnlyTouched(disk[blk := db], d', inodes, blocks)
    ensures OnlyTouched(disk, d', inodes, blocks + {blk}) && d'[blk] == db
  {
    forall j | 1 <= j <= INODES
      ensures InodeAt(disk[blk := db], j) == InodeAt(disk, j)
    {
    }
  }

  lemma NewInodeVacant(disk: Disk, c: nat, sb: Block, gd: Block, ib: Block)
    requires Formatted(disk) && InodeTaken(disk, c, sb, gd, ib)
    ensures NodesOf(disk)[c].Vacant?
  {
    assert Inv(disk);
    var nodes := NodesOf(disk);
    assert InodeCounts(disk[1], disk[2], disk[4], nodes);
  }

  lemma DirOf(disk: Disk, p: nat)
    requires Formatted(disk) && 1 <= p <= INODES && NodesOf(disk)[p].DirNode?
    ensures var dn := NodesOf(disk)[p];
            && IsDirRaw(InodeAt(disk, p), dn.blk, dn.links) && FIRST_DATA <= dn.blk < |disk|
            && IsDirBlock(disk[dn.blk]) && Parse(disk[dn.blk], 0) == dn.entries && dn.blk in Refs(NodesOf(disk))
  {
    assert Inv(disk);
    DirRawOf(disk, InodeAt(disk, p));
    assert NodesOf(disk)[p].blk in Blocks(NodesOf(disk)[p]);
  }

  /** The directory block of `p` has been rewritten to hold one entry more. */
  ghost predicate NamePut(disk: Disk, p: nat, name: seq<byte>, c: nat, db: Block)
    requires Sized(disk) && 1 <= p <= INODES
  {
    var dn := NodesOf(disk)[p];
    && dn.DirNode? && CleanName(name) && FindEntry(dn.entries, name).None?
    && IsDirBlock(db) && Parse(db, 0) == dn.entries + [Dirent(c, name)]
  }

  lemma CreateDone(disk: Disk, p: nat, name: seq<byte>, c: nat, ns: seq<nat>, data: seq<byte>, db: Block, ib: Block,
                   sb1: Block, gd1: Block, fi1: Raw, sb: Block, gd: Block, bb: Block, raw: Raw)
    requires Formatted(disk) && 1 <= p <= INODES && InodeTaken(disk, c, sb1, gd1, ib) && NamePut(disk, p, name, c, db)
    requires FieldsOf(fi1) == Fields(REG_MODE, |data|, 1, (|data| + 511) / 512, Padded([])) && |data| <= NDIRECT * BLK
    requires Took(|disk|, sb1, gd1, disk[3], FieldsOf(fi1), ns, sb, gd, bb, raw) && |ns| == NBlocks(|data|)
    requires InRange(disk, ns) && Covers(ns, data) && FIRST_DATA <= NodesOf(disk)[p].blk < |disk|
    ensures Added(disk, Commit(Fill(disk[NodesOf(disk)[p].blk := db], ns, data), sb, gd, bb, ib, c, raw),
                  p, name, c, FileNode(ns, data))
  {
    var dn, node := NodesOf(disk)[p], FileNode(ns, data);
    var d := disk[dn.blk := db];
    var d' := Commit(Fill(d, ns, data), sb, gd, bb, ib, c, raw);
    FileRawOf(raw, FieldsOf(fi1), ns, |data|);
    FileCommitted(d, ns, data, sb, gd, bb, ib, c, raw);
    CreateCan(disk, p, name, c, ns, data, db, sb1, gd1, ib);
    CountsOfNewFile(disk, d', c, ns, data, sb1, gd1, ib, sb, gd, bb, FieldsOf(fi1), raw);
    CreateView(disk, d', p, name, c, ns, data, db);
    AddedIntro(disk, d', p, name, c, node);
  }

  lemma CreateCan(disk: Disk, p: nat, name: seq<byte>, c: nat, ns: seq<nat>, data: seq<byte>, db: Block,
                  sb1: Block, gd1: Block, ib: Block)
    requires Formatted(disk) && 1 <= p <= INODES && InodeTaken(disk, c, sb1, gd1, ib) && NamePut(disk, p, name, c, db)
    requires Taken(|disk|, disk[3], ns)
    ensures CanAdd(NodesOf(disk), p, name, c, FileNode(ns, data)) && NodesOf(disk)[p].blk !in Elems(ns)
  {
    FreshBlocks(disk, ns);
    DirOf(disk, p);
    NewInodeVacant(disk, c, sb1, gd1, ib);
    ElemsAreBlocks(ns, data);
  }

  lemma AddedIntro(disk: Disk, disk': Disk, p: nat, name: seq<byte>, c: nat, node: Node)
    requires Sized(disk) && 1 <= p <= INODES && 1 <= c <= INODES && NodesOf(disk)[p].DirNode? && node.FileNode?
    requires CanAdd(NodesOf(disk), p, name, c, node)
    requires var dn := NodesOf(disk)[p];
             && OnlyTouched(disk, disk', {p, c}, Blocks(node) + {dn.blk}) && EntryAppended(disk, disk', p, name, c)
             && IsDirRaw(InodeAt(disk', p), dn.blk, dn.links)
    requires InodeOk(disk', c) && NodeOf(disk', InodeAt(disk', c)) == node && CountsAdded(disk, disk', c, node)
    ensures Added(disk, disk', p, name, c, node)
  {
  }

  lemma CreateView(disk: Disk, d': Disk, p: nat, name: seq<byte>, c: nat, ns: seq<nat>, data: seq<byte>, db: Block)
    requires Sized(disk) && 1 <= p <= INODES && 1 <= c <= INODES && c != p && NamePut(disk, p, name, c, db)
    requires FIRST_DATA <= NodesOf(disk)[p].blk < |disk| && NodesOf(disk)[p].blk !in Elems(ns)
    requires OnlyTouched(disk[NodesOf(disk)[p].blk := db], d', {c}, Elems(ns)) && HoldsFile(d', c, ns, data)
    ensures var dn := NodesOf(disk)[p];
            && OnlyTouched(disk, d', {p, c}, Blocks(FileNode(ns, data)) + {dn.blk})
            && EntryAppended(disk, d', p, name, c) && IsDirRaw(InodeAt(d', p), dn.blk, dn.links)
            && InodeOk(d', c) && NodeOf(d', InodeAt(d', c)) == FileNode(ns, data)
  {
    var dn := NodesOf(disk)[p];
    ElemsAreBlocks(ns, data);
    DirBlockWritten(disk, dn.blk, db, d', {c}, Elems(ns));
    DirRawOf(disk, InodeAt(disk, p));
    FileNodeOf(d', InodeAt(d', c), ns, data);
  }

  // ---------------------------------------------------------------------------------------------
  // New directories
  // ---------------------------------------------------------------------------------------------

  /** The inode of a fresh directory, as the code fills it in. */
  function StampDir(blk: nat): Raw {
    SetPtr(SetSectors(SetLinks(SetSize(SetMode(Zeros(128), DIR_MODE), BLK), 2), 2), 0, blk)
  }

  lemma StampDirFields(blk: nat)
    requires blk < 0x1_0000_0000
    ensures IsDirRaw(StampDir(blk), blk, 2)
  {
    ZeroFields();
    var a := SetMode(Zeros(128), DIR_MODE);
    SetModeFields(Zeros(128), DIR_MODE);
    var b := SetSize(a, BLK);
    SetSizeFields(a, BLK);
    var c := SetLinks(b, 2);
    SetLinksFields(b, 2);
    var d := SetSectors(c, 2);
    SetSectorsFields(c, 2);
    SetPtrFields(d, 0, blk);
    assert seq(NPTRS, _ => 0)[0 := blk] == [blk] + seq(NPTRS - 1, _ => 0);
  }

  lemma {:induction false} EntriesFit(es: seq<Dirent>)
    requires ValidEntries(es)
    ensures |es| <= |EncAll(es)|
  {
    if es != [] {
      EntriesFit(es[1..]);
    }
  }

  /** Link and directory counts stay far below their 16-bit fields. */
  lemma LinksSmall(disk: Disk, p: nat)
    requires Formatted(disk) && 1 <= p <= INODES && NodesOf(disk)[p].DirNode?
    ensures NodesOf(disk)[p].links <= 2 + BLK && UsedDirs(disk[2]) <= INODES + 1
  {
    assert Inv(disk);
    DirOf(disk, p);
    var nodes := NodesOf(disk);
    EntriesFit(nodes[p].entries);
    LinksBound(nodes, p);
  }

  lemma LinksBound(nodes: Nodes, p: nat)
    requires p <= INODES && nodes[p].DirNode?
    ensures |ChildDirs(nodes, p)| <= |nodes[p].entries| && |Dirs(nodes)| <= INODES + 1
  {
    BelowSize(|nodes[p].entries|);
    BelowSize(INODES + 1);
    SubsetSize(ChildDirs(nodes, p), Below(|nodes[p].entries|));
    SubsetSize(Dirs(nodes), Below(INODES + 1));
  }

  /** The buffers once a block has been taken for the directory. */
  ghost predicate BlockTaken(disk: Disk, nb: nat, sb1: Block, gd1: Block, sb: Block, gd: Block, bb: Block)
    requires Sized(disk)
  {
    && FIRST_FREE <= nb < |disk| && nb !in Marked(disk[3], |disk|)
         && Marked(bb, |disk|) == Marked(disk[3], |disk|) + {nb}
    && Tally(|disk|, sb, gd, bb) && SameInodeCounts(sb1, gd1, sb, gd)
  }

  /** Both directory blocks and both inodes written, then the counters. */
  function MkdirDisk(disk: Disk, p: nat, c: nat, nb: nat, dnew: Block, pblk: nat, db: Block,
                     sb: Block, gd: Block, bb: Block, ib: Block, praw: Raw): (d': Disk)
    requires Sized(disk) && 1 <= p <= INODES && 1 <= c <= INODES && nb < |disk| && pblk < |disk|
    ensures |d'| == |disk|
  {
    PutInode(Commit(disk[nb := dnew][pblk := db], sb, gd, bb, ib, p, praw), c, StampDir(nb))
  }

  lemma MkdirHeads(disk: Disk, p: nat, c: nat, nb: nat, dnew: Block, pblk: nat, db: Block,
                   sb: Block, gd: Block, bb: Block, ib: Block, praw: Raw)
    requires Sized(disk) && 1 <= p <= INODES && 1 <= c <= INODES
    requires FIRST_DATA <= nb < |disk| && FIRST_DATA <= pblk < |disk| && nb != pblk
    ensures var d' := MkdirDisk(disk, p, c, nb, dnew, pblk, db, sb, gd, bb, ib, praw);
            && d'[1] == sb && d'[2] == GroupBlock(gd) && d'[3] == bb && d'[4] == ib && d'[nb] == dnew && d'[pblk] == db
            && forall b :: FIRST_DATA <= b < |disk| && b != nb && b != pblk ==> d'[b] == disk[b]
  {
    CommitHeads(disk[nb := dnew][pblk := db], sb, gd, bb, ib, p, praw);
  }

  lemma MkdirInode(disk: Disk, p: nat, c: nat, nb: nat, dnew: Block, pblk: nat, db: Block,
                   sb: Block, gd: Block, bb: Block, ib: Block, praw: Raw, j: nat)
    requires Sized(disk) && 1 <= p <= INODES && 1 <= c <= INODES && p != c && 1 <= j <= INODES
    requires FIRST_DATA <= nb < |disk| && FIRST_DATA <= pblk < |disk|
    ensures InodeAt(MkdirDisk(disk, p, c, nb, dnew, pblk, db, sb, gd, bb, ib, praw), j) ==
            if j == c then StampDir(nb) else if j == p then praw else InodeAt(disk, j)
  {
    var d1 := disk[nb := dnew][pblk := db];
    CommitInode(d1, sb, gd, bb, ib, p, praw, j);
    PutInodeFrame(Commit(d1, sb, gd, bb, ib, p, praw), c, StampDir(nb), j);
  }

  lemma MkdirTouches(disk: Disk, p: nat, c: nat, nb: nat, dnew: Block, pblk: nat, db: Block,
                     sb: Block, gd: Block, bb: Block, ib: Block, praw: Raw)
    requires Sized(disk) && 1 <= p <= INODES && 1 <= c <= INODES && p != c
    requires FIRST_DATA <= nb < |disk| && FIRST_DATA <= pblk < |disk| && nb != pblk
    ensures var d' := MkdirDisk(disk, p, c, nb, dnew, pblk, db, sb, gd, bb, ib, praw);
            OnlyTouched(disk, d', {p, c}, {nb, pblk}) && InodeAt(d', p) == praw && InodeAt(d', c) == StampDir(nb)
  {
    MkdirHeads(disk, p, c, nb, dnew, pblk, db, sb, gd, bb, ib, praw);
    forall j | 1 <= j <= INODES
      ensures InodeAt(MkdirDisk(disk, p, c, nb, dnew, pblk, db, sb, gd, bb, ib, praw), j) ==
              if j == c then StampDir(nb) else if j == p then praw else InodeAt(disk, j)
    {
      MkdirInode(disk, p, c, nb, dnew, pblk, db, sb, gd, bb, ib, praw, j);
    }
  }

  /** The counters after a new directory. */
  lemma CountsOfNewDir(disk: Disk, disk': Disk, p: nat, c: nat, nb: nat, sb1: Block, gd1: Block, ib: Block,
                       sb: Block, gd: Block, bb: Block)
    requires Sized(disk) && Magic(disk[1]) == MAGIC && UsedDirs(disk[2]) <= INODES + 1
    requires BlockCounts(|disk|, disk[1], disk[2], disk[3], Refs(NodesOf(disk)))
    requires 1 <= c <= INODES && InodeTaken(disk, c, sb1, gd1, ib) && BlockTaken(disk, nb, sb1, gd1, sb, gd, bb)
    requires |disk'| == |disk| && disk'[1] == sb && disk'[2] == GroupBlock(AddUsedDirs(gd, 1))
    requires disk'[3] == bb && disk'[4] == ib
    ensures CountsAdded(disk, disk', c, EmptyDir(nb, c, p))
  {
    GroupBlockFields(AddUsedDirs(gd, 1));
    AddUsedDirsFields(gd, 1);
    BlockCountsAdd(|disk|, disk[1], disk[2], disk[3], Refs(NodesOf(disk)), sb, disk'[2], bb, {nb});
  }

  lemma MkdirDone(disk: Disk, p: nat, name: seq<byte>, c: nat, nb: nat, dnew: Block, db: Block, ib: Block,
                  sb1: Block, gd1: Block, sb: Block, gd: Block, bb: Block, praw: Raw)
    requires Formatted(disk) && 1 <= p <= INODES && InodeTaken(disk, c, sb1, gd1, ib) && NamePut(disk, p, name, c, db)
    requires BlockTaken(disk, nb, sb1, gd1, sb, gd, bb)
    requires IsDirBlock(dnew) && Parse(dnew, 0) == [Dirent(c, DOT), Dirent(p, DOTDOT)]
    requires NodesOf(disk)[p].blk < |disk| && IsDirRaw(praw, NodesOf(disk)[p].blk, NodesOf(disk)[p].links + 1)
    ensures Added(disk, MkdirDisk(disk, p, c, nb, dnew, NodesOf(disk)[p].blk, db, sb, AddUsedDirs(gd, 1), bb, ib, praw),
                  p, name, c, EmptyDir(nb, c, p))
  {
    var dn, node := NodesOf(disk)[p], EmptyDir(nb, c, p);
    var d' := MkdirDisk(disk, p, c, nb, dnew, dn.blk, db, sb, AddUsedDirs(gd, 1), bb, ib, praw);
    assert CanAdd(NodesOf(disk), p, name, c, node) && nb != dn.blk && FIRST_DATA <= dn.blk by {
      DirOf(disk, p);
      TallyOf(disk);
      NewInodeVacant(disk, c, sb1, gd1, ib);
    }
    MkdirHeads(disk, p, c, nb, dnew, dn.blk, db, sb, AddUsedDirs(gd, 1), bb, ib, praw);
    MkdirTouches(disk, p, c, nb, dnew, dn.blk, db, sb, AddUsedDirs(gd, 1), bb, ib, praw);
    assert CountsAdded(disk, d', c, node) by {
      MagicOf(disk);
      LinksSmall(disk, p);
      BlockCountsOf(disk);
      CountsOfNewDir(disk, d', p, c, nb, sb1, gd1, ib, sb, gd, bb);
    }
    MkdirView(disk, d', p, name, c, nb, dnew, db);
  }

  lemma MkdirView(disk: Disk, d': Disk, p: nat, name: seq<byte>, c: nat, nb: nat, dnew: Block, db: Block)
    requires Sized(disk) && 1 <= p <= INODES && 1 <= c <= INODES && NamePut(disk, p, name, c, db)
    requires FIRST_DATA <= NodesOf(disk)[p].blk < |disk| && FIRST_DATA <= nb < |disk|
    requires OnlyTouched(disk, d', {p, c}, {nb, NodesOf(disk)[p].blk}) && InodeAt(d', c) == StampDir(nb)
    requires d'[nb] == dnew && d'[NodesOf(disk)[p].blk] == db
    requires IsDirBlock(dnew) && Parse(dnew, 0) == [Dirent(c, DOT), Dirent(p, DOTDOT)]
    ensures var dn, node := NodesOf(disk)[p], EmptyDir(nb, c, p);
            && OnlyTouched(disk, d', {p, c}, Blocks(node) + {dn.blk}) && EntryAppended(disk, d', p, name, c)
            && InodeOk(d', c) && NodeOf(d', InodeAt(d', c)) == node
  {
    assert Blocks(EmptyDir(nb, c, p)) + {NodesOf(disk)[p].blk} == {nb, NodesOf(disk)[p].blk};
    StampDirFields(nb);
    DirNodeOf(d', InodeAt(d', c), nb, 2);
  }

  lemma BlockCountsOf(disk: Disk)
    requires Formatted(disk)
    ensures BlockCounts(|disk|, disk[1], disk[2], disk[3], Refs(NodesOf(disk)))
  {
    assert Inv(disk);
  }

  /** Writing to a block nobody refers to changes nothing that counts. */
  lemma FreeBlockWrite(disk: Disk, b: nat, x: Block)
    requires Formatted(disk) && FIRST_DATA <= b < |disk| && b !in Refs(NodesOf(disk))
    ensures Formatted(disk[b := x]) && NodesOf(disk[b := x]) == NodesOf(disk)
  {
    var d' := disk[b := x];
    forall j | 1 <= j <= INODES
      ensures InodeOk(d', j) && NodesOf(d')[j] == NodesOf(disk)[j]
    {
      assert Blocks(NodesOf(disk)[j]) <= Refs(NodesOf(disk));
      InodeOkOf(disk, j);
      NodeFrame(disk, d', j);
    }
    SameNodes(disk, d');
    SameCounts(disk, d');
  }

  lemma InodeOkOf(disk: Disk, j: nat)
    requires Formatted(disk) && 1 <= j <= INODES
    ensures InodeOk(disk, j)
  {
    assert Inv(disk);
  }

  /** Disks with the same nodes and the same counters are formatted alike. */
  lemma SameCounts(disk: Disk, d': Disk)
    requires Formatted(disk) && |d'| == |disk| && NodesOf(d') == NodesOf(disk)
    requires d'[1] == disk[1] && d'[2] == disk[2] && d'[4] == disk[4]
    requires Marked(d'[3], |disk|) == Marked(disk[3], |disk|)
    requires forall j :: 1 <= j <= INODES ==> InodeOk(d', j)
    ensures Formatted(d')
  {
    assert Inv(disk);
    assert Inv(d');
  }

  lemma SameNodes(disk: Disk, d': Disk)
    requires Sized(disk) && Sized(d') && forall j | 1 <= j <= INODES :: NodesOf(d')[j] == NodesOf(disk)[j]
    ensures NodesOf(d') == NodesOf(disk)
  {
  }
}
