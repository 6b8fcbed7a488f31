/**
 What an operation means for the tree of paths.
 */
module Ext2Results {
  import opened Bytes
  import opened Seqs
  import opened Path
  import opened Dirents
  import opened Bitmap
  import opened Ext2Tree
  import opened Ext2Layout
  import opened Ext2State
  import opened Ext2Alloc
  import opened Ext2Commit

  /** The trees differ at one path only, which now holds `e`. */
  ghost predicate Replaces(ns: Nodes, ns': Nodes, path: seq<seq<byte>>, e: Option<Entry>) {
    forall q :: CleanPath(q) ==> Lookup(ns', q) == if q == path then e else Lookup(ns, q)
  }

  /** The operation left a formatted volume whose tree differs at one path only. */
  ghost predicate Changed(disk: Disk, disk': Disk, path: seq<seq<byte>>, e: Entry) {
    Sized(disk) && Formatted(disk') && Replaces(NodesOf(disk), NodesOf(disk'), path, Some(e))
  }

  lemma OverwriteChanges(disk: Disk, disk': Disk, path: seq<seq<byte>>, c: nat, ns: seq<nat>, data: seq<byte>)
    requires Formatted(disk) && CleanPath(path) && Walk(NodesOf(disk), ROOT, path) == Some(c)
    requires 1 <= c <= INODES && NodesOf(disk)[c].FileNode? && Overwritten(disk, disk', c, ns, data)
    ensures Changed(disk, disk', path, Regular(data)) && NodesOf(disk') == NodesOf(disk)[c := FileNode(ns, data)]
  {
    assert Inv(disk);
    OverwriteInv(disk, disk', c, ns, data);
    assert Formatted(disk');
    OverwriteLookups(NodesOf(disk), path, c, FileNode(ns, data)) by {
      ElemsAreBlocks(ns, data);
    }
  }

  lemma OverwriteLookups(nodes: Nodes, path: seq<seq<byte>>, c: nat, node: Node)
    requires TreeOk(nodes) && CleanPath(path) && Walk(nodes, ROOT, path) == Some(c) && CanOverwrite(nodes, c, node)
    ensures Replaces(nodes, nodes[c := node], path, EntryOf(node))
  {
    forall q | CleanPath(q)
      ensures Lookup(nodes[c := node], q) == if q == path then EntryOf(node) else Lookup(nodes, q)
    {
      LookupOverwrite(nodes, path, c, node, q);
    }
  }

  lemma AddChanges(disk: Disk, disk': Disk, dir: seq<seq<byte>>, p: nat, name: seq<byte>, c: nat, node: Node)
    requires Formatted(disk) && 1 <= p <= INODES && 1 <= c <= INODES && Added(disk, disk', p, name, c, node)
    requires LeadsTo(NodesOf(disk), dir, p)
    ensures EntryOf(node).Some? && Changed(disk, disk', dir + [name], EntryOf(node).value)
    ensures NodesOf(disk') == AddChild(NodesOf(disk), p, name, c, node)
  {
    assert Inv(disk);
    AddedInv(disk, disk', dir, p, name, c, node);
    assert Formatted(disk');
    AddLookups(NodesOf(disk), dir, p, name, c, node);
  }

  lemma AddLookups(nodes: Nodes, dir: seq<seq<byte>>, p: nat, name: seq<byte>, c: nat, node: Node)
    requires TreeOk(nodes) && CanAdd(nodes, p, name, c, node) && LeadsTo(nodes, dir, p)
    ensures Replaces(nodes, AddChild(nodes, p, name, c, node), dir + [name], EntryOf(node))
  {
    forall q | CleanPath(q)
      ensures Lookup(AddChild(nodes, p, name, c, node), q) ==
              if q == dir + [name] then EntryOf(node) else Lookup(nodes, q)
    {
      LookupAdd(nodes, dir, p, name, c, node, q);
    }
  }

  lemma DirTargetBreaks(disk: Disk, disk': Disk, c: nat, ns: seq<nat>, data: seq<byte>)
    requires Formatted(disk) && 1 <= c <= INODES && NodesOf(disk)[c].DirNode? && Overwritten(disk, disk', c, ns, data)
    ensures !Formatted(disk')
  {
    assert Inv(disk);
    OverwriteDirBreaks(disk, disk', c, ns, data);
  }

  /** An inode is free, and the directory block can take one more record. */
  predicate HasRoom(disk: Disk, p: nat, name: seq<byte>)
    requires Sized(disk) && 1 <= p <= INODES && NodesOf(disk)[p].DirNode?
  {
    FreeInodes(disk[1]) > 0 && ValidEntries(NodesOf(disk)[p].entries)
    && |EncAll(NodesOf(disk)[p].entries)| + RecLen(|name|) <= BLK
  }

  /** The directory that a path's last name stands in. */
  function DirInode(disk: Disk, dir: seq<seq<byte>>): Option<nat>
    requires Sized(disk)
  {
    match Walk(NodesOf(disk), ROOT, dir)
    case None => None
    case Some(p) => if 1 <= p <= INODES && NodesOf(disk)[p].DirNode? then Some(p) else None
  }

  /** What a write of `len` bytes meets: no directory to write in, a directory in the way, or a verdict on space. */
  datatype Outcome = NoParent | IsDirectory | NoRoom | OutOfBlocks | Fits

  function WriteOutcome(disk: Disk, dir: seq<seq<byte>>, base: seq<byte>, len: nat): Outcome
    requires Sized(disk)
  {
    match DirInode(disk, dir)
    case None => NoParent
    case Some(p) =>
      var nodes := NodesOf(disk);
      match Child(nodes, p, base)
      case Some(c) =>
        if c > INODES || !nodes[c].FileNode? then IsDirectory
        else if NBlocks(len) <= FreeBlocks(disk[1]) + |Blocks(nodes[c])| then Fits else OutOfBlocks
      case None =>
        if !HasRoom(disk, p, base) then NoRoom
        else if NBlocks(len) <= FreeBlocks(disk[1]) then Fits else OutOfBlocks
  }

  /** Whether the data would find room, counting the blocks that the target gives back. */
  ghost predicate Enough(disk: Disk, dir: seq<seq<byte>>, base: seq<byte>, len: nat)
    requires Sized(disk)
  {
    match DirInode(disk, dir)
    case None => false
    case Some(p) =>
      match Child(NodesOf(disk), p, base)
      case Some(c) => c <= INODES && NBlocks(len) <= FreeBlocks(disk[1]) + |Regained(NodesOf(disk)[c])|
      case None => NBlocks(len) <= FreeBlocks(disk[1])
  }

  /**
   The writes after which the volume is still formatted: those that fit, those that are refused in time, and one more.
   */
  ghost predicate Harmless(disk: Disk, dir: seq<seq<byte>>, base: seq<byte>, len: nat)
    requires Sized(disk)
  {
    var w := WriteOutcome(disk, dir, base, len);
    w in {Fits, NoParent, NoRoom} || (w == OutOfBlocks && EmptyTarget(disk, dir, base))
  }

  /** Nothing stands in the way of a new directory. */
  ghost predicate MkdirFits(disk: Disk, dir: seq<seq<byte>>, base: seq<byte>)
    requires Sized(disk)
  {
    match DirInode(disk, dir)
    case None => false
    case Some(p) => Child(NodesOf(disk), p, base).None? && HasRoom(disk, p, base) && FreeBlocks(disk[1]) > 0
  }

  /** Nothing changed that a path or a later operation could see. */
  ghost predicate Unchanged(disk: Disk, disk': Disk) {
    Sized(disk) && Formatted(disk') && NodesOf(disk') == NodesOf(disk)
  }

  /** The blocks that the target of a write owns before. */
  function Owned(disk: Disk, dir: seq<seq<byte>>, base: seq<byte>): nat
    requires Sized(disk)
  {
    match DirInode(disk, dir)
    case None => 0
    case Some(p) =>
      match Child(NodesOf(disk), p, base)
      case None => 0
      case Some(c) => if c <= INODES then |Blocks(NodesOf(disk)[c])| else 0
  }

  /** The directory has one entry more, and one inode less is free. */
  ghost predicate NewName(disk: Disk, disk': Disk, dir: seq<seq<byte>>, base: seq<byte>)
    requires Sized(disk) && Sized(disk')
  {
    && DirInode(disk, dir).Some? && FreeInodes(disk'[1]) == FreeInodes(disk[1]) - 1
    && Extended(NodesOf(disk), NodesOf(disk'), DirInode(disk, dir).value, base)
  }

  ghost predicate Extended(nodes: Nodes, nodes': Nodes, p: nat, base: seq<byte>) {
    && p <= INODES && nodes[p].DirNode? && nodes'[p].DirNode?
    && exists c: nat :: nodes'[p].entries == nodes[p].entries + [Dirent(c, base)]
  }

  /** What a write that fits costs: the blocks of the data less those given back, and for a new name an inode. */
  ghost predicate Spent(disk: Disk, disk': Disk, dir: seq<seq<byte>>, base: seq<byte>, len: nat) {
    && Sized(disk) && Sized(disk') && |disk'| == |disk|
    && FreeBlocks(disk'[1]) == FreeBlocks(disk[1]) + Owned(disk, dir, base) - NBlocks(len)
    && (DirInode(disk, dir).Some? && Child(NodesOf(disk), DirInode(disk, dir).value, base).None? ==>
         NewName(disk, disk', dir, base))
  }

  lemma FileShape(disk: Disk, raw: Raw)
    requires NodeOf(disk, raw).FileNode?
    ensures |NodeOf(disk, raw).ptrs| == NBlocks(|NodeOf(disk, raw).data|)
  {
    var f := FieldsOf(raw);
    ContentLen(disk, f.ptrs[..NBlocks(f.size)]);
  }

  lemma NewSpent(disk: Disk, disk': Disk, dir: seq<seq<byte>>, p: nat, base: seq<byte>, c: nat, ns: seq<nat>,
      data: seq<byte>)
    requires Formatted(disk) && Formatted(disk') && 1 <= p <= INODES && 1 <= c <= INODES
    requires Added(disk, disk', p, base, c, FileNode(ns, data))
    requires NodesOf(disk') == AddChild(NodesOf(disk), p, base, c, FileNode(ns, data))
    requires DirInode(disk, dir) == Some(p) && FindEntry(NodesOf(disk)[p].entries, base).None?
    ensures Spent(disk, disk', dir, base, |data|)
  {
    AddSpent(disk, disk', p, base, c, ns, data);
    FileShape(disk', InodeAt(disk', c));
    AddExtends(NodesOf(disk), NodesOf(disk'), p, base, c, FileNode(ns, data));
  }

  lemma AddExtends(nodes: Nodes, nodes': Nodes, p: nat, base: seq<byte>, c: nat, node: Node)
    requires CanAdd(nodes, p, base, c, node) && nodes' == AddChild(nodes, p, base, c, node)
    ensures Extended(nodes, nodes', p, base)
  {
    assert nodes'[p].entries == nodes[p].entries + [Dirent(c, base)];
  }

  lemma OldSpent(disk: Disk, disk': Disk, dir: seq<seq<byte>>, p: nat, base: seq<byte>, c: nat, ns: seq<nat>,
      data: seq<byte>)
    requires Formatted(disk) && Formatted(disk') && 1 <= c <= INODES && NodesOf(disk)[c].FileNode?
    requires Overwritten(disk, disk', c, ns, data) && NodesOf(disk')[c] == FileNode(ns, data)
    requires DirInode(disk, dir) == Some(p) && Child(NodesOf(disk), p, base) == Some(c)
    ensures Spent(disk, disk', dir, base, |data|)
  {
    OverwriteSpent(disk, disk', c, ns, data);
    FileShape(disk', InodeAt(disk', c));
  }

  /** Some set of blocks is marked besides those that were. */
  lemma MoreMarked(low: set<nat>, refs: set<nat>, more: set<nat>)
    requires more !! refs && more !! low
    ensures |low + (refs + more)| == |low + refs| + |more|
  {
    assert low + (refs + more) == (low + refs) + more;
  }

  /** A new file takes its blocks and one inode. */
  lemma AddSpent(disk: Disk, disk': Disk, p: nat, name: seq<byte>, c: nat, ns: seq<nat>, data: seq<byte>)
    requires Formatted(disk) && 1 <= p <= INODES && 1 <= c <= INODES
    requires Added(disk, disk', p, name, c, FileNode(ns, data))
    ensures FreeBlocks(disk'[1]) == FreeBlocks(disk[1]) - |ns| && FreeInodes(disk'[1]) == FreeInodes(disk[1]) - 1
  {
    assert Inv(disk);
    var refs := Refs(NodesOf(disk));
    assert NodesOf(disk')[c] == FileNode(ns, data);
    FileBlocksHigh(disk', c);
    ElemsAreBlocks(ns, data);
    ElemsSize(ns);
    MoreMarked(Below(FIRST_DATA), refs, Elems(ns));
  }

  /** An overwritten file gives its blocks back and takes new ones. */
  lemma OverwriteSpent(disk: Disk, disk': Disk, c: nat, ns: seq<nat>, data: seq<byte>)
    requires Formatted(disk) && 1 <= c <= INODES && NodesOf(disk)[c].FileNode? && Overwritten(disk, disk', c, ns, data)
    ensures FreeBlocks(disk'[1]) == FreeBlocks(disk[1]) + |Blocks(NodesOf(disk)[c])| - |ns|
  {
    assert Inv(disk);
    OverwriteInv(disk, disk', c, ns, data);
    FileBlocksHigh(disk', c);
    ElemsAreBlocks(ns, data);
    assert OneOwner(NodesOf(disk'));
    ElemsSize(ns);
    NodeMarked(disk, c);
    Exchanged(Marked(disk[3], |disk|), Blocks(NodesOf(disk)[c]), Elems(ns));
  }

  lemma Exchanged(marked: set<nat>, back: set<nat>, more: set<nat>)
    requires back <= marked && more !! marked - back
    ensures |marked - back + more| == |marked| - |back| + |more|
  {
    assert |marked - back| == |marked| - |back|;
  }

  // ---------------------------------------------------------------------------------------------
  // Running out of blocks: `write_file` returns -1 after it has already written to the volume
  // ---------------------------------------------------------------------------------------------

  /** The new name already stands in the directory, but its inode was never written. */
  lemma StrandedName(disk: Disk, p: nat, name: seq<byte>, c: nat, ns: seq<nat>, data: seq<byte>, db: Block)
    requires Formatted(disk) && 1 <= p <= INODES && NamePut(disk, p, name, c, db)
    requires FIRST_DATA <= NodesOf(disk)[p].blk < |disk| && LOST < c <= INODES && NodesOf(disk)[c].Vacant?
    requires InRange(disk, ns) && Covers(ns, data) && Taken(|disk|, disk[3], ns)
    ensures !Formatted(Fill(disk[NodesOf(disk)[p].blk := db], ns, data))
  {
    var dn := NodesOf(disk)[p];
    var d := disk[dn.blk := db];
    var d' := Fill(d, ns, data);
    FreshBlocks(disk, ns);
    DirOf(disk, p);
    FillTouches(d, ns, data);
    DirBlockWritten(disk, dn.blk, db, d', {}, Elems(ns));
    DirNodeOf(d', InodeAt(d', p), dn.blk, dn.links);
    assert NodesOf(d')[p].entries == dn.entries + [Dirent(c, name)];
    assert NodesOf(d')[c].Vacant? by {
      VacantStays(disk, d', c);
    }
    TwoDots(disk, p);
    DanglingEntry(NodesOf(d'), p, dn.entries, name, c);
    assert !Inv(d');
  }

  lemma VacantStays(disk: Disk, d': Disk, c: nat)
    requires Formatted(disk) && |d'| == |disk| && 1 <= c <= INODES && NodesOf(disk)[c].Vacant?
    requires InodeAt(d', c) == InodeAt(disk, c)
    ensures NodesOf(d')[c].Vacant?
  {
    assert Inv(disk);
    assert InodeOk(disk, c);
    ZeroFields();
  }

  lemma TwoDots(disk: Disk, p: nat)
    requires Formatted(disk) && 1 <= p <= INODES && NodesOf(disk)[p].DirNode?
    ensures |NodesOf(disk)[p].entries| >= 2
  {
    assert Inv(disk);
    assert DotsOk(NodesOf(disk), p);
  }

  lemma DanglingEntry(nodes: Nodes, p: nat, es: seq<Dirent>, name: seq<byte>, c: nat)
    requires p <= INODES && c <= INODES && nodes[p].DirNode? && nodes[p].entries == es + [Dirent(c, name)]
    requires nodes[c].Vacant? && |es| >= 2
    ensures !EntriesOk(nodes)
  {
    assert nodes[p].entries[|es|] == Dirent(c, name);
    assert IsEntry(nodes, p, |es|);
    assert !EntryOk(nodes, p, |es|);
  }

  /** The old blocks are already marked free on the volume, while the inode still refers to them. */
  lemma StrandedBlocks(disk: Disk, c: nat, ns: seq<nat>, data: seq<byte>, bb1: Block, b: nat)
    requires Formatted(disk) && 1 <= c <= INODES && b in Blocks(NodesOf(disk)[c])
    requires Marked(bb1, |disk|) == Marked(disk[3], |disk|) - Blocks(NodesOf(disk)[c])
    requires InRange(disk, ns) && Covers(ns, data)
    ensures !Formatted(Fill(disk[3 := bb1], ns, data))
  {
    var d := disk[3 := bb1];
    var d' := Fill(d, ns, data);
    FillTouches(d, ns, data);
    HeadsOnly(disk, d, d', {}, Elems(ns));
    FillFrame(d, ns, data, 3);
    BlocksKept(disk, d', c);
    assert b !in Marked(d'[3], |d'|);
    assert InodeOk(d', c) ==> b in Refs(NodesOf(d'));
    assert !Inv(d');
  }

  /** As long as the inode is a sound one, it refers to the blocks it referred to, whatever they hold now. */
  lemma BlocksKept(disk: Disk, d': Disk, c: nat)
    requires Sized(disk) && |d'| == |disk| && 1 <= c <= INODES && !NodesOf(disk)[c].Vacant?
    requires InodeAt(d', c) == InodeAt(disk, c)
    ensures InodeOk(d', c) ==> Blocks(NodesOf(d')[c]) == Blocks(NodesOf(disk)[c])
  {
    ZeroFields();
  }

  /** Only an existing empty file survives: nothing of it was freed, and only free blocks were written. */
  lemma {:induction false} FreeBlocksWritten(disk: Disk, ns: seq<nat>, data: seq<byte>)
    requires Formatted(disk) && InRange(disk, ns) && Covers(ns, data) && Elems(ns) !! Refs(NodesOf(disk))
    ensures Unchanged(disk, Fill(disk, ns, data))
  {
    if ns != [] {
      var k := |ns| - 1;
      TakeSnoc(ns, k);
      assert ns[..k + 1] == ns;
      ElemsSnoc(ns[..k], ns[k]);
      FreeBlocksWritten(disk, ns[..k], data);
      FreeBlockWrite(Fill(disk, ns[..k], data), ns[k], Chunk(data, k));
    }
  }

  lemma SameMarks(disk: Disk, bb1: Block)
    requires Formatted(disk) && Marked(bb1, |disk|) == Marked(disk[3], |disk|)
    ensures Unchanged(disk, disk[3 := bb1])
  {
    var d := disk[3 := bb1];
    forall j | 1 <= j <= INODES
      ensures InodeOk(d, j) && NodesOf(d)[j] == NodesOf(disk)[j]
    {
      BlocksInRange(disk, j);
      InodeOkOf(disk, j);
      NodeFrame(disk, d, j);
    }
    SameNodes(disk, d);
    SameCounts(disk, d);
  }

  lemma EmptyTargetSafe(disk: Disk, c: nat, ns: seq<nat>, data: seq<byte>, bb1: Block)
    requires Formatted(disk) && 1 <= c <= INODES && Blocks(NodesOf(disk)[c]) == {}
    requires Marked(bb1, |disk|) == Marked(disk[3], |disk|) - Blocks(NodesOf(disk)[c])
    requires InRange(disk, ns) && Covers(ns, data) && Taken(|disk|, bb1, ns)
    ensures Unchanged(disk, Fill(disk[3 := bb1], ns, data))
  {
    assert Marked(bb1, |disk|) == Marked(disk[3], |disk|);
    SameMarks(disk, bb1);
    FreshBlocks(disk[3 := bb1], ns);
    FreeBlocksWritten(disk[3 := bb1], ns, data);
  }

  /** Without enough blocks only an empty target survives. */
  lemma OutOfSpace(disk: Disk, c: nat, ns: seq<nat>, data: seq<byte>, bb1: Block)
    requires Formatted(disk) && 1 <= c <= INODES
    requires Marked(bb1, |disk|) == Marked(disk[3], |disk|) - Blocks(NodesOf(disk)[c])
    requires InRange(disk, ns) && Covers(ns, data) && Taken(|disk|, bb1, ns)
    ensures Formatted(Fill(disk[3 := bb1], ns, data)) <==> Blocks(NodesOf(disk)[c]) == {}
    ensures Blocks(NodesOf(disk)[c]) == {} ==> Unchanged(disk, Fill(disk[3 := bb1], ns, data))
  {
    if Blocks(NodesOf(disk)[c]) == {} {
      EmptyTargetSafe(disk, c, ns, data, bb1);
    } else {
      var b :| b in Blocks(NodesOf(disk)[c]);
      StrandedBlocks(disk, c, ns, data, bb1, b);
    }
  }

  /** The name already exists as an empty file. */
  ghost predicate EmptyTarget(disk: Disk, dir: seq<seq<byte>>, base: seq<byte>)
    requires Sized(disk)
  {
    match DirInode(disk, dir)
    case None => false
    case Some(p) =>
      match Child(NodesOf(disk), p, base)
      case None => false
      case Some(c) => c <= INODES && Blocks(NodesOf(disk)[c]) == {}
  }

  lemma DirectoryAt(nodes: Nodes, dir: seq<seq<byte>>, base: seq<byte>)
    requires nodes[0].Vacant? && Lookup(nodes, dir) == Some(Directory) && Lookup(nodes, dir + [base]) == Some(Directory)
    ensures Walk(nodes, ROOT, dir).Some?
    ensures var p := Walk(nodes, ROOT, dir).value;
            && 1 <= p <= INODES && nodes[p].DirNode? && Child(nodes, p, base).Some?
            && Child(nodes, p, base).value <= INODES && nodes[Child(nodes, p, base).value].DirNode?
  {
    WalkSnoc(nodes, ROOT, dir, base);
  }

  /** A write to the path of a directory meets a directory. */
  lemma DirectoryMet(disk: Disk, nodes: Nodes, dir: seq<seq<byte>>, base: seq<byte>, len: nat)
    requires Sized(disk) && nodes == NodesOf(disk)
    requires Lookup(nodes, dir) == Some(Directory) && Lookup(nodes, dir + [base]) == Some(Directory)
    ensures WriteOutcome(disk, dir, base, len) == IsDirectory
  {
    DirectoryAt(nodes, dir, base);
  }

  /** What a write to an existing name meets, in terms of its inode. */
  lemma ExistingOutcome(disk: Disk, dir: seq<seq<byte>>, p: nat, base: seq<byte>, c: nat, len: nat, node: Node,
      free: nat)
    requires Sized(disk) && DirInode(disk, dir) == Some(p)
    requires Child(NodesOf(disk), p, base) == Some(c) && 1 <= c <= INODES
    requires node == NodesOf(disk)[c] && !node.Vacant? && free == FreeBlocks(disk[1])
    ensures Enough(disk, dir, base, len) <==> NBlocks(len) <= free + |Regained(node)|
    ensures EmptyTarget(disk, dir, base) <==> Blocks(node) == {}
    ensures WriteOutcome(disk, dir, base, len) ==
            if node.DirNode? then IsDirectory else if NBlocks(len) <= free + |Regained(node)| then Fits else OutOfBlocks
    ensures Harmless(disk, dir, base, len) <==>
      node.FileNode? && (NBlocks(len) <= free + |Regained(node)| || Blocks(node) == {})
  {
    if node.FileNode? {
      RegainedFile(disk, c);
    }
  }

  /** A write that meets a directory is a write to the path of a directory. */
  lemma MeetsDirectory(disk: Disk, dir: seq<seq<byte>>, base: seq<byte>, len: nat)
    requires Formatted(disk) && CleanPath(dir) && CleanName(base)
    requires WriteOutcome(disk, dir, base, len) == IsDirectory
    ensures Lookup(NodesOf(disk), dir + [base]) == Some(Directory)
  {
    WalkSnoc(NodesOf(disk), ROOT, dir, base);
    ChildLive(disk, DirInode(disk, dir).value, base);
  }

  lemma ChildLive(disk: Disk, p: nat, name: seq<byte>)
    requires Formatted(disk) && CleanName(name) && Child(NodesOf(disk), p, name).Some?
    ensures var c := Child(NodesOf(disk), p, name).value; LOST <= c <= INODES && !NodesOf(disk)[c].Vacant?
  {
    assert Inv(disk);
    var _ := ChildIsEntry(NodesOf(disk), p, name);
  }
}
