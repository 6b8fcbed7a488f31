/**
 The operations of `chaseros_ext2_vol.c` on a RAM volume.
 */
module Ext2Volume {
  import opened Bytes
  import opened Seqs
  import opened Path
  import opened Dirents
  import opened Bitmap
  import opened Ext2Tree
  import opened Ext2Layout
  import opened Ext2State
  import opened Ext2Alloc
  import opened Ext2Commit
  import opened Ext2Results
  import opened Ext2Format

  /** The file type bits of i_mode. */
  function Kind(raw: Raw): nat { Mode(raw) / 0x1000 }

  lemma KindOfNode(disk: Disk, i: nat)
    requires Formatted(disk) && 1 <= i <= INODES
    ensures var raw, n := InodeAt(disk, i), NodesOf(disk)[i];
            && (Kind(raw) == 4 <==> n.DirNode?) && (Kind(raw) == 8 <==> n.FileNode?)
            && (n.DirNode? ==> Ptr(raw, 0) == n.blk < |disk| && IsDirBlock(disk[n.blk])
                               && Parse(disk[n.blk], 0) == n.entries)
  {
    assert Inv(disk);
    assert InodeOk(disk, i);
    ZeroFields();
  }

  lemma FileInode(disk: Disk, i: nat)
    requires Formatted(disk) && 1 <= i <= INODES && NodesOf(disk)[i].FileNode?
    ensures FileFields(FieldsOf(InodeAt(disk, i)), disk) && NodesOf(disk)[i] == NodeOf(disk, InodeAt(disk, i))
  {
    assert Inv(disk);
    assert InodeOk(disk, i);
  }

  /** What is left of a rendered path once its first slash is gone. */
  function Tail(path: seq<seq<byte>>): seq<byte> {
    if path == [] then [] else path[0] + Join(path[1..])
  }

  lemma TailStep(path: seq<seq<byte>>)
    requires path != [] && CleanPath(path)
    ensures Tail(path) == path[0] + Join(path[1..]) && Tail(path) != []
    ensures path[1..] == [] ==> Join(path[1..]) == []
    ensures path[1..] != [] ==>
      Join(path[1..]) == [SLASH] + Tail(path[1..]) && Tail(path[1..]) != [] && Tail(path[1..])[0] != SLASH
  {
    assert CleanName(path[0]);
    if path[1..] != [] {
      assert CleanName(path[1..][0]);
      Assoc([SLASH], path[1..][0], Join(path[1..][1..]));
    }
  }

  /** The loop of `lookup_final` that cuts the next component off, and the slashes behind it. */
  method NextName(p: CStr, ghost path: seq<seq<byte>>) returns (comp: CStr, rest: CStr)
    requires path != [] && CleanPath(path) && p == Tail(path)
    ensures comp == path[0] && rest == Tail(path[1..])
  {
    TailStep(path);
    assert CleanName(path[0]);
    var i := 0;
    while i < |p| && p[i] != SLASH && i < NAME_MAX
      invariant i <= |path[0]| && p[..i] == path[0][..i]
    {
      assert i < |path[0]| ==> p[i] == path[0][i];
      i := i + 1;
    }
    assert i == |path[0]|;
    comp := p[..i];
    rest := p[i..];
    assert comp == path[0] && rest == Join(path[1..]);
    while rest != [] && rest[0] == SLASH
      invariant rest == Join(path[1..]) || rest == Tail(path[1..])
      decreases |rest|
    {
      rest := rest[1..];
    }
  }

  /** The bytes of `data` from `offset` up to, not including, `end`, at most `max` of them. */
  function Window(data: seq<byte>, offset: nat, end: nat, max: nat): seq<byte>
    requires end <= |data|
  {
    if end <= offset then [] else if end - offset <= max then data[offset..end] else data[offset..offset + max]
  }

  lemma {:induction false} ContentAt(disk: Disk, ptrs: seq<nat>, i: nat, j: nat)
    requires InRange(disk, ptrs) && i < |ptrs| && j < BLK
    ensures |Content(disk, ptrs)| == BLK * |ptrs| && BLK * i + j < BLK * |ptrs|
    ensures Content(disk, ptrs)[BLK * i + j] == disk[ptrs[i]][j]
  {
    ContentLen(disk, ptrs);
    if i > 0 {
      ContentAt(disk, ptrs[1..], i - 1, j);
    }
  }

  /** The file whose pointers are `ptrs` holds `data`. */
  ghost predicate Spells(disk: Disk, ptrs: seq<nat>, data: seq<byte>) {
    && InRange(disk, ptrs) && |ptrs| == NBlocks(|data|)
    && forall i, j :: 0 <= i < |ptrs| && 0 <= j < BLK && BLK * i + j < |data| ==> data[BLK * i + j] == disk[ptrs[i]][j]
  }

  lemma FileSpells(disk: Disk, raw: Raw)
    requires FileFields(FieldsOf(raw), disk)
    ensures var f := FieldsOf(raw); var n := NodeOf(disk, raw);
            && n == FileNode(f.ptrs[..NBlocks(f.size)], n.data) && |n.data| == f.size && Spells(disk, n.ptrs, n.data)
  {
    var f, n := FieldsOf(raw), NodeOf(disk, raw);
    ContentLen(disk, n.ptrs);
    forall i, j | 0 <= i < |n.ptrs| && 0 <= j < BLK && BLK * i + j < |n.data|
      ensures n.data[BLK * i + j] == disk[n.ptrs[i]][j]
    {
      ContentAt(disk, n.ptrs, i, j);
    }
  }

  /** The copy loops of `chaseros_ext2_read_file_range`. */
  method CopyOut(disk: Disk, ptrs: seq<nat>, size: nat, offset: nat, maxcopy: nat, ghost data: seq<byte>)
    returns (out: seq<byte>)
    requires Spells(disk, ptrs, data) && size == |data| && offset + maxcopy <= size
    ensures out == data[offset..offset + maxcopy]
  {
    var nblk := NBlocks(size);
    var cursor, i := 0, 0;
    out := [];
    while i < nblk && cursor < size && |out| < maxcopy
      invariant i <= nblk && cursor == (if BLK * i <= size then BLK * i else size)
      invariant out == Window(data, offset, cursor, maxcopy)
    {
      var bn := ptrs[i];
      if bn == 0 {
        break;
      }
      var len := if cursor + BLK > size then size - cursor else BLK;
      out := CopyBlock(disk[bn], cursor, len, offset, maxcopy, out, data);
      cursor := cursor + len;
      i := i + 1;
    }
  }

  method ReadRaw(disk: Disk, raw: Raw, offset: nat, bufSize: nat) returns (r: Option<seq<byte>>)
    requires FileFields(FieldsOf(raw), disk)
    ensures NodeOf(disk, raw).FileNode? && r == Some(Range(NodeOf(disk, raw).data, offset, bufSize))
  {
    FileSpells(disk, raw);
    if offset >= Size(raw) {
      return Some([]);
    }
    var maxcopy := if Size(raw) - offset > bufSize then bufSize else Size(raw) - offset;
    if NBlocks(Size(raw)) > NDIRECT {
      return None;
    }
    var out := CopyOut(disk, FieldsOf(raw).ptrs[..NBlocks(Size(raw))], Size(raw), offset, maxcopy,
      NodeOf(disk, raw).data);
    return Some(out);
  }

  /** The inner loop: the bytes of one block that lie at or behind `offset`. */
  method CopyBlock(tmp: Block, cursor: nat, len: nat, offset: nat, maxcopy: nat, sofar: seq<byte>,
                   ghost data: seq<byte>) returns (out: seq<byte>)
    requires len <= BLK && cursor + len <= |data| && offset + maxcopy <= |data|
    requires forall j :: 0 <= j < len ==> data[cursor + j] == tmp[j]
    requires sofar == Window(data, offset, cursor, maxcopy)
    ensures out == Window(data, offset, cursor + len, maxcopy)
  {
    out := sofar;
    var j := 0;
    while j < len && |out| < maxcopy
      invariant j <= len && out == Window(data, offset, cursor + j, maxcopy)
    {
      if cursor + j >= offset {
        assert data[cursor + j] == tmp[j];
        out := out + [tmp[j]];
      }
      j := j + 1;
    }
  }

  class Volume {
    var disk: Disk

    constructor (disk: Disk)
      ensures this.disk == disk
    {
      this.disk := disk;
    }

    /** `chaseros_ext2_format`: true stands for the return value 0. */
    method Format() returns (ok: bool)
      modifies this
      ensures ok <==> 256 <= |old(disk)| <= 8192
      ensures !ok ==> disk == old(disk)
      ensures ok ==> Formatted(disk) && |disk| == |old(disk)| && NodesOf(disk) == FreshNodes()
      ensures ok ==> FreeBlocks(disk[1]) == |disk| - FIRST_FREE && FreeInodes(disk[1]) == INODES - LOST
      ensures ok ==> forall q :: CleanPath(q) ==>
                Lookup(NodesOf(disk), q) == if q == [] || q == [LOST_FOUND] then Some(Directory) else None
    {
      var tb := |disk|;
      if tb < 256 || tb > 8192 || tb < FIRST_FREE {
        return false;
      }
      var m := FreshBuffers(tb);
      WriteImage(tb, m);
      FormatOk(tb, m);
      FreshLookups();
      ok := true;
    }

    /** The writes of `chaseros_ext2_format`. */
    method WriteImage(tb: nat, m: Image)
      requires 256 <= tb <= 8192
      modifies this
      ensures disk == FormatDisk(tb, m)
    {
      disk := seq(tb, _ => Zeros(BLK));
      disk := disk[1 := m.sb][2 := m.gd];
      disk := disk[3 := m.bb][4 := m.ib];
      // the inode table, blocks 5 to 20, is already zero on a RAM volume
      disk := PutInode(disk, ROOT, m.rootRaw);
      disk := PutInode(disk, LOST, m.lostRaw);
      disk := disk[FIRST_DATA := m.droot][FIRST_DATA + 1 := m.dlf];
    }

    /** One round of `lookup_final`: read the directory's inode and block, and search the name. */
    method LookupName(cur: nat, comp: CStr) returns (r: Option<nat>)
      requires Formatted(disk) && 1 <= cur <= INODES && CleanName(comp)
      ensures r == Child(NodesOf(disk), cur, comp)
      ensures r.Some? ==> LOST <= r.value <= INODES
    {
      var dirRaw := InodeAt(disk, cur);
      KindOfNode(disk, cur);
      if Kind(dirRaw) != 4 {
        return None;
      }
      r := FindInRoot(disk[Ptr(dirRaw, 0)], comp);
      if r == Some(0) {
        return None;
      }
      if r.Some? {
        ChildLive(disk, cur, comp);
      }
    }

    /** `lookup_final`: the inode a normalised path leads to, or None for -1. */
    method LookupFinal(norm: CStr, ghost path: seq<seq<byte>>) returns (r: Option<nat>)
      requires Formatted(disk) && CleanPath(path) && norm == Render(path)
      ensures r == Walk(NodesOf(disk), ROOT, path)
      ensures r.Some? ==> 2 <= r.value <= INODES
    {
      ghost var ns := NodesOf(disk);
      if norm == [SLASH] {
        RenderRoot(path);
        return Some(2);
      }
      var cur: nat, p: CStr := 2, norm[1..];
      ghost var left := path;
      RenderTail(path);
      while p != []
        invariant CleanPath(left) && p == Tail(left)
        invariant 2 <= cur <= INODES
        invariant Walk(ns, cur, left) == Walk(ns, ROOT, path)
        decreases |p|
      {
        assert CleanName(left[0]);
        var comp, rest := NextName(p, left);
        TailStep(left);
        var next := LookupName(cur, comp);
        if next.None? {
          return None;
        }
        cur, p, left := next.value, rest, left[1..];
      }
      TailEmpty(left);
      return Some(cur);
    }

    /** `chaseros_ext2_read_file_range`: None stands for -1. */
    method ReadFileRange(name: CStr, offset: nat, bufSize: nat) returns (r: Option<seq<byte>>)
      requires Formatted(disk)
      ensures r.Some? <==> bufSize > 0 && Accepted(name) && IsFile(NodesOf(disk), Segs(name))
      ensures r.Some? ==> r.value == Range(FileData(NodesOf(disk), Segs(name)), offset, bufSize)
      ensures r.Some? ==> IsPart(r.value, FileData(NodesOf(disk), Segs(name)), offset, bufSize)
    {
      if bufSize == 0 {
        return None;
      }
      var norm := Normalize(name, PATH_MAX);
      if norm.None? {
        return None;
      }
      MagicOf(disk);
      if Magic(disk[1]) != MAGIC {
        return None;
      }
      SegsClean(name);
      r := ReadAt(norm.value, Segs(name), offset, bufSize);
      if r.Some? {
        RangeIsPart(FileData(NodesOf(disk), Segs(name)), offset, bufSize);
      }
    }

    /** The lookup of `chaseros_ext2_read_file_range` and what follows it. */
    method ReadAt(norm: CStr, ghost path: seq<seq<byte>>, offset: nat, bufSize: nat) returns (r: Option<seq<byte>>)
      requires Formatted(disk) && CleanPath(path) && norm == Render(path) && bufSize > 0
      ensures r.Some? <==> IsFile(NodesOf(disk), path)
      ensures r.Some? ==> r.value == Range(FileData(NodesOf(disk), path), offset, bufSize)
    {
      var ino := LookupFinal(norm, path);
      if ino.None? {
        return None;
      }
      FileAt(NodesOf(disk), path, ino.value);
      r := ReadInodeRange(ino.value, offset, bufSize);
    }

    /** The part of `chaseros_ext2_read_file_range` behind the lookup. */
    method ReadInodeRange(ino: nat, offset: nat, bufSize: nat) returns (r: Option<seq<byte>>)
      requires Formatted(disk) && 1 <= ino <= INODES && bufSize > 0
      ensures r.Some? <==> NodesOf(disk)[ino].FileNode?
      ensures r.Some? ==> r.value == Range(NodesOf(disk)[ino].data, offset, bufSize)
    {
      var raw := InodeAt(disk, ino);
      KindOfNode(disk, ino);
      if Kind(raw) != 8 {
        return None;
      }
      FileInode(disk, ino);
      r := ReadRaw(disk, raw, offset, bufSize);
    }

    /** The allocation loop of `chaseros_ext2_write_file`: one block of data after the other. */
    method FillBlocks(data: seq<byte>, sb: Block, gd: Block, bb: Block, fi: Raw)
      returns (ok: bool, sb': Block, gd': Block, bb': Block, fi': Raw, ghost ns: seq<nat>)
      requires Sized(disk) && |data| <= NDIRECT * BLK
      requires Took(|disk|, sb, gd, bb, FieldsOf(fi), [], sb, gd, bb, fi)
      modifies this
      ensures InRange(old(disk), ns) && Covers(ns, data) && disk == Fill(old(disk), ns, data)
      ensures Took(|disk|, sb, gd, bb, FieldsOf(fi), ns, sb', gd', bb', fi')
      ensures |ns| <= NBlocks(|data|) && (ok <==> |ns| == NBlocks(|data|))
      ensures !ok ==> forall k: nat :: FIRST_FREE <= k < |disk| ==> k in Marked(bb', |disk|)
    {
      var tb := |disk|;
      var nblk := NBlocks(|data|);
      sb', gd', bb', fi', ns := sb, gd, bb, fi, [];
      var bi := 0;
      while bi < nblk
        invariant bi == |ns| <= nblk && |disk| == tb
        invariant InRange(old(disk), ns) && Covers(ns, data) && disk == Fill(old(disk), ns, data)
        invariant Took(tb, sb, gd, bb, FieldsOf(fi), ns, sb', gd', bb', fi')
      {
        var bn;
        bn, sb', gd', bb', fi' := TakeBlock(tb, sb', gd', bb', fi', bi, sb, gd, bb, FieldsOf(fi), ns);
        if bn.None? {
          return false, sb', gd', bb', fi', ns;
        }
        RangeSnoc(old(disk), ns, data, bn.value);
        FillSnoc(old(disk), ns, data, bn.value);
        disk := disk[bn.value := Chunk(data, bi)];
        ns := ns + [bn.value];
        bi := bi + 1;
      }
      ok := true;
    }

    /** The last writes of an operation. */
    method WriteBack(sb: Block, gd: Block, bb: Block, ib: Block, ino: nat, raw: Raw)
      requires Sized(disk) && 1 <= ino <= INODES
      modifies this
      ensures disk == Commit(old(disk), sb, gd, bb, ib, ino, raw)
    {
      disk := disk[1 := sb];
      disk := disk[2 := GroupBlock(gd)];
      disk := disk[3 := bb];
      disk := disk[4 := ib];
      disk := PutInode(disk, ino, raw);
    }

    /** Reads the inode to overwrite, frees its blocks and fills in its new fields. */
    method Release(c: nat, len: nat) returns (sb: Block, gd: Block, bb: Block, fi: Raw)
      requires Formatted(disk) && 1 <= c <= INODES && !NodesOf(disk)[c].Vacant? && len <= NDIRECT * BLK
      ensures Released(disk, c, len, sb, gd, bb, fi)
    {
      TallyOf(disk);
      FreeableInode(disk, c);
      sb, gd, bb, fi := FreeInodeBlocks(|disk|, disk[1], disk[2], disk[3], InodeAt(disk, c));
      StampFields(fi, len);
      fi := StampFile(fi, len);
    }

    /** `chaseros_ext2_write_file` when the name exists: free the old blocks, then fill new ones. */
    method OverwriteInode(c: nat, data: seq<byte>) returns (ok: bool, ghost ns: seq<nat>, ghost bb1: Block)
      requires Formatted(disk) && 1 <= c <= INODES && !NodesOf(disk)[c].Vacant? && |data| <= NDIRECT * BLK
      modifies this
      ensures ok ==> Overwritten(old(disk), disk, c, ns, data)
      ensures Marked(bb1, |old(disk)|) == Marked(old(disk)[3], |old(disk)|) - Blocks(NodesOf(old(disk))[c])
      ensures InRange(old(disk), ns) && Covers(ns, data) && Taken(|old(disk)|, bb1, ns)
      ensures !ok ==> disk == Fill(old(disk)[3 := bb1], ns, data)
      ensures ok <==> NBlocks(|data|) <= FreeBlocks(old(disk)[1]) + |Regained(NodesOf(old(disk))[c])|
    {
      ghost var d0 := disk;
      var ib := disk[4];
      var sb, gd, bb, fi := Release(c, |data|);
      bb1 := bb;
      ghost var sb1, gd1, fi1 := sb, gd, fi;
      disk := disk[3 := bb];
      TookNone(|disk|, sb, gd, bb, fi);
      ok, sb, gd, bb, fi, ns := FillBlocks(data, sb, gd, bb, fi);
      OverwriteSpace(d0, c, |data|, bb1, ns, bb);
      if ok {
        OverwriteDone(d0, c, ns, data, bb1, sb1, gd1, fi1, sb, gd, bb, fi);
        WriteBack(sb, gd, bb, ib, c, fi);
      }
    }

    /** `alloc_inode` on the buffers of the volume. */
    method TakeFreeInode() returns (c: Option<nat>, sb: Block, gd: Block, ib: Block)
      requires Formatted(disk)
      ensures c.Some? <==> FreeInodes(disk[1]) > 0
      ensures c.Some? ==> InodeTaken(disk, c.value, sb, gd, ib) && Tally(|disk|, sb, gd, disk[3])
    {
      LowInodesMarked(disk);
      TallyOf(disk);
      c, sb, gd, ib := TakeInode(disk[1], disk[2], disk[4]);
    }

    /** `chaseros_ext2_write_file` when the name is new: inode, directory entry, then the blocks. */
    method CreateFile(p: nat, name: CStr, data: seq<byte>)
      returns (ok: bool, ghost c: nat, ghost ns: seq<nat>, ghost db: Block)
      requires Formatted(disk) && 1 <= p <= INODES && NodesOf(disk)[p].DirNode? && |data| <= NDIRECT * BLK
      requires CleanName(name) && FindEntry(NodesOf(disk)[p].entries, name).None?
      modifies this
      ensures ok ==> 1 <= c <= INODES && Added(old(disk), disk, p, name, c, FileNode(ns, data))
      ensures ok <==> HasRoom(old(disk), p, name) && NBlocks(|data|) <= FreeBlocks(old(disk)[1])
      ensures !HasRoom(old(disk), p, name) ==> disk == old(disk)
      ensures HasRoom(old(disk), p, name) && !ok ==>
                && NamePut(old(disk), p, name, c, db) && FIRST_DATA <= NodesOf(old(disk))[p].blk < |old(disk)|
                && LOST < c <= INODES && NodesOf(old(disk))[c].Vacant?
                && InRange(old(disk), ns) && Covers(ns, data) && Taken(|old(disk)|, old(disk)[3], ns)
                && disk == Fill(old(disk)[NodesOf(old(disk))[p].blk := db], ns, data)
    {
      ghost var d0 := disk;
      var ino, sb, gd, ib := TakeFreeInode();
      if ino.None? {
        return false, 0, [], Zeros(BLK);
      }
      c := ino.value;
      DirOf(disk, p);
      var pblk := Ptr(InodeAt(disk, p), 0);
      assert pblk == FieldsOf(InodeAt(disk, p)).ptrs[0];
      var entry := AppendEntry(disk[pblk], ino.value, name);
      if entry.None? {
        return false, 0, [], Zeros(BLK);
      }
      db := entry.value;
      NewInodeVacant(disk, c, sb, gd, ib);
      disk := disk[pblk := entry.value];
      ok, ns := FinishCreate(p, name, ino.value, data, sb, gd, ib, d0, db);
    }

    /** The rest of a creation: fill the blocks, then write everything back. */
    method FinishCreate(p: nat, name: seq<byte>, c: nat, data: seq<byte>, sb1: Block, gd1: Block, ib: Block,
                        ghost d0: Disk, ghost db: Block) returns (ok: bool, ghost ns: seq<nat>)
      requires Formatted(d0) && 1 <= p <= INODES && InodeTaken(d0, c, sb1, gd1, ib) && NamePut(d0, p, name, c, db)
      requires |data| <= NDIRECT * BLK && FIRST_DATA <= NodesOf(d0)[p].blk < |d0| && Tally(|d0|, sb1, gd1, d0[3])
      requires disk == d0[NodesOf(d0)[p].blk := db]
      modifies this
      ensures ok ==> Added(d0, disk, p, name, c, FileNode(ns, data))
      ensures ok <==> NBlocks(|data|) <= FreeBlocks(d0[1])
      ensures InRange(d0, ns) && Covers(ns, data) && Taken(|d0|, d0[3], ns)
      ensures !ok ==> disk == Fill(old(disk), ns, data)
    {
      ZeroFields();
      StampFields(Zeros(128), |data|);
      var fi := StampFile(Zeros(128), |data|);
      TookNone(|disk|, sb1, gd1, disk[3], fi);
      var sb, gd, bb, raw;
      ok, sb, gd, bb, raw, ns := FillBlocks(data, sb1, gd1, disk[3], fi);
      CreateSpace(d0, |data|, ns, bb);
      if ok {
        CreateDone(d0, p, name, c, ns, data, db, ib, sb1, gd1, fi, sb, gd, bb, raw);
        WriteBack(sb, gd, bb, ib, c, raw);
      }
    }

    /** `chaseros_ext2_write_file` once the path is split: find the directory, then overwrite or create. */
    method WriteAt(parent: CStr, base: CStr, data: seq<byte>, ghost dir: seq<seq<byte>>) returns (ok: bool)
      requires Formatted(disk) && CleanPath(dir) && parent == Render(dir) && CleanName(base) && |data| <= NDIRECT * BLK
      modifies this
      ensures ok <==> var w := WriteOutcome(old(disk), dir, base, |data|);
                      w == Fits || (w == IsDirectory && Enough(old(disk), dir, base, |data|))
      ensures WriteOutcome(old(disk), dir, base, |data|) == Fits ==>
                Changed(old(disk), disk, dir + [base], Regular(data)) && Spent(old(disk), disk, dir, base, |data|)
      ensures WriteOutcome(old(disk), dir, base, |data|) == OutOfBlocks && EmptyTarget(old(disk), dir, base) ==>
                Unchanged(old(disk), disk)
      ensures WriteOutcome(old(disk), dir, base, |data|) in {NoParent, NoRoom} ==> disk == old(disk)
      ensures Formatted(disk) <==> Harmless(old(disk), dir, base, |data|)
    {
      var pi := LookupFinal(parent, dir);
      if pi.None? {
        return false;
      }
      var p := pi.value;
      KindOfNode(disk, p);
      if Kind(InodeAt(disk, p)) != 4 {
        return false;
      }
      var found := FindInRoot(disk[Ptr(InodeAt(disk, p), 0)], base);
      if found.Some? && found.value != 0 {
        ok := WriteExisting(p, base, found.value, data, dir);
      } else {
        NoZeroEntry(disk, p, base);
        ok := WriteNew(p, base, data, dir);
      }
    }

    method WriteExisting(p: nat, base: CStr, c: nat, data: seq<byte>, ghost dir: seq<seq<byte>>) returns (ok: bool)
      requires Formatted(disk) && CleanPath(dir) && CleanName(base) && |data| <= NDIRECT * BLK
      requires DirInode(disk, dir) == Some(p) && Child(NodesOf(disk), p, base) == Some(c)
      modifies this
      ensures WriteOutcome(old(disk), dir, base, |data|) in {IsDirectory, OutOfBlocks, Fits}
      ensures ok <==> Enough(old(disk), dir, base, |data|)
      ensures WriteOutcome(old(disk), dir, base, |data|) != IsDirectory ==>
                (ok <==> WriteOutcome(old(disk), dir, base, |data|) == Fits)
      ensures WriteOutcome(old(disk), dir, base, |data|) == Fits ==>
                Changed(old(disk), disk, dir + [base], Regular(data)) && Spent(old(disk), disk, dir, base, |data|)
      ensures WriteOutcome(old(disk), dir, base, |data|) == OutOfBlocks && EmptyTarget(old(disk), dir, base) ==>
                Unchanged(old(disk), disk)
      ensures Formatted(disk) <==> Harmless(old(disk), dir, base, |data|)
    {
      ghost var d0 := disk;
      WalkSnoc(NodesOf(disk), ROOT, dir, base);
      ChildLive(disk, p, base);
      ghost var ns, bb1;
      ghost var node, free := NodesOf(disk)[c], FreeBlocks(disk[1]);
      ExistingOutcome(disk, dir, p, base, c, |data|, node, free);
      ok, ns, bb1 := OverwriteInode(c, data);
      if !ok {
        OutOfSpace(d0, c, ns, data, bb1);
      } else if node.FileNode? {
        OverwriteChanges(d0, disk, dir + [base], c, ns, data);
        OldSpent(d0, disk, dir, p, base, c, ns, data);
      } else {
        DirTargetBreaks(d0, disk, c, ns, data);
      }
    }

    method WriteNew(p: nat, base: CStr, data: seq<byte>, ghost dir: seq<seq<byte>>) returns (ok: bool)
      requires Formatted(disk) && CleanPath(dir) && CleanName(base) && |data| <= NDIRECT * BLK
      requires DirInode(disk, dir) == Some(p) && FindEntry(NodesOf(disk)[p].entries, base).None?
      modifies this
      ensures ok <==> WriteOutcome(old(disk), dir, base, |data|) == Fits
      ensures ok ==> Changed(old(disk), disk, dir + [base], Regular(data)) && Spent(old(disk), disk, dir, base, |data|)
      ensures WriteOutcome(old(disk), dir, base, |data|) in {NoRoom, OutOfBlocks, Fits}
      ensures !EmptyTarget(old(disk), dir, base)
      ensures WriteOutcome(old(disk), dir, base, |data|) == NoRoom ==> disk == old(disk)
      ensures Formatted(disk) <==> Harmless(old(disk), dir, base, |data|)
    {
      ghost var d0 := disk;
      ghost var c, ns, db;
      ok, c, ns, db := CreateFile(p, base, data);
      if ok {
        AddChanges(d0, disk, dir, p, base, c, FileNode(ns, data));
        NewSpent(d0, disk, dir, p, base, c, ns, data);
      } else if HasRoom(d0, p, base) {
        StrandedName(d0, p, base, c, ns, data, db);
      }
    }

    /** The checks both writers start with: normalise the path and split off its last name. */
    method Prepare(name: CStr) returns (r: Option<(CStr, CStr)>)
      ensures r.Some? <==> Placeable(name)
      ensures r.Some? ==>
        CleanPath(DirPath(name)) && CleanName(BaseName(name)) && Segs(name) == DirPath(name) + [BaseName(name)]
      ensures r.Some? ==> r.value == (Render(DirPath(name)), BaseName(name))
    {
      var norm := Normalize(name, PATH_MAX);
      if norm.None? {
        return None;
      }
      if norm.value == [SLASH] {
        SegsClean(name);
        RenderRoot(Segs(name));
        return None;
      }
      SplitSegs(name);
      r := SplitNorm(norm.value, DirPath(name), BaseName(name));
    }

    /** `chaseros_ext2_write_file`: true stands for the return value 0. */
    method WriteFile(name: CStr, data: seq<byte>) returns (ok: bool)
      requires Formatted(disk)
      modifies this
      ensures ok ==> Placeable(name) && |data| <= NDIRECT * BLK
      ensures !(Placeable(name) && |data| <= NDIRECT * BLK) ==> disk == old(disk)
      ensures Placeable(name) && |data| <= NDIRECT * BLK ==>
                var w := WriteOutcome(old(disk), DirPath(name), BaseName(name), |data|);
                && (ok <==> w == Fits || (w == IsDirectory && Enough(old(disk), DirPath(name), BaseName(name), |data|)))
                && (w == Fits ==> Changed(old(disk), disk, Segs(name), Regular(data)))
                && (w == Fits ==> Spent(old(disk), disk, DirPath(name), BaseName(name), |data|))
                && (w == OutOfBlocks && EmptyTarget(old(disk), DirPath(name), BaseName(name)) ==>
                     Unchanged(old(disk), disk))
                && (w in {NoParent, NoRoom} ==> disk == old(disk))
                && (Formatted(disk) <==> Harmless(old(disk), DirPath(name), BaseName(name), |data|))
    {
      if |data| > NDIRECT * BLK {
        return false;
      }
      var split := Prepare(name);
      if split.None? {
        return false;
      }
      MagicOf(disk);
      if Magic(disk[1]) != MAGIC {
        return false;
      }
      ok := WriteAt(split.value.0, split.value.1, data, DirPath(name));
    }

    /** `chaseros_ext2_mkdir` behind the checks: take an inode and a block, then write everything. */
    method MakeDir(p: nat, name: CStr) returns (ok: bool, ghost c: nat, ghost nb: nat)
      requires Formatted(disk) && 1 <= p <= INODES && NodesOf(disk)[p].DirNode?
      requires CleanName(name) && FindEntry(NodesOf(disk)[p].entries, name).None?
      modifies this
      ensures ok ==> 1 <= c <= INODES && Added(old(disk), disk, p, name, c, EmptyDir(nb, c, p))
      ensures ok <==> HasRoom(old(disk), p, name) && FreeBlocks(old(disk)[1]) > 0
      ensures !ok ==> Unchanged(old(disk), disk)
    {
      var ino, sb, gd, ib := TakeFreeInode();
      if ino.None? {
        return false, 0, 0;
      }
      ghost var sb1, gd1 := sb, gd;
      LowMarked(disk);
      var blk, bb;
      blk, sb, gd, bb := TakeOneBlock(|disk|, sb, gd, disk[3]);
      if blk.None? {
        return false, 0, 0;
      }
      c, nb := ino.value, blk.value;
      ok := FinishMkdir(p, name, ino.value, blk.value, sb, gd, bb, ib, sb1, gd1);
    }

    /** The writes of `chaseros_ext2_mkdir`. */
    method FinishMkdir(p: nat, name: CStr, c: nat, nb: nat, sb: Block, gd: Block, bb: Block, ib: Block,
                       ghost sb1: Block, ghost gd1: Block) returns (ok: bool)
      requires Formatted(disk) && 1 <= p <= INODES && NodesOf(disk)[p].DirNode?
      requires CleanName(name) && FindEntry(NodesOf(disk)[p].entries, name).None?
      requires InodeTaken(disk, c, sb1, gd1, ib) && BlockTaken(disk, nb, sb1, gd1, sb, gd, bb)
      modifies this
      ensures ok ==> Added(old(disk), disk, p, name, c, EmptyDir(nb, c, p))
      ensures ok <==> HasRoom(old(disk), p, name)
      ensures !ok ==> Unchanged(old(disk), disk)
    {
      ghost var d0 := disk;
      DirOf(disk, p);
      LinksSmall(disk, p);
      TallyOf(disk);
      var praw := InodeAt(disk, p);
      var pblk := Ptr(praw, 0);
      assert pblk == FieldsOf(praw).ptrs[0];
      var dparent := disk[pblk];
      var dnew := NewDirBlock(c, p);
      FreeBlockWrite(disk, nb, dnew);
      disk := disk[nb := dnew];
      var entry := AppendEntry(dparent, c, name);
      if entry.None? {
        return false;
      }
      disk := disk[pblk := entry.value];
      SetLinksFields(praw, Links(praw) + 1);
      var praw' := SetLinks(praw, Links(praw) + 1);
      assert NamePut(d0, p, name, c, entry.value);
      MkdirDone(d0, p, name, c, nb, dnew, entry.value, ib, sb1, gd1, sb, gd, bb, praw');
      WriteBack(sb, AddUsedDirs(gd, 1), bb, ib, p, praw');
      disk := PutInode(disk, c, StampDir(nb));
      ok := true;
    }

    /** `chaseros_ext2_mkdir`: true stands for the return value 0. */
    method Mkdir(name: CStr) returns (ok: bool)
      requires Formatted(disk)
      modifies this
      ensures ok <==> Placeable(name) && MkdirFits(old(disk), DirPath(name), BaseName(name))
      ensures ok ==> Changed(old(disk), disk, Segs(name), Directory)
      ensures !ok ==> Unchanged(old(disk), disk)
    {
      var split := Prepare(name);
      if split.None? {
        return false;
      }
      MagicOf(disk);
      if Magic(disk[1]) != MAGIC {
        return false;
      }
      ok := MkdirAt(split.value.0, split.value.1, DirPath(name));
    }

    method MkdirAt(parent: CStr, base: CStr, ghost dir: seq<seq<byte>>) returns (ok: bool)
      requires Formatted(disk) && CleanPath(dir) && parent == Render(dir) && CleanName(base)
      modifies this
      ensures ok <==> MkdirFits(old(disk), dir, base)
      ensures ok ==> Changed(old(disk), disk, dir + [base], Directory)
      ensures !ok ==> Unchanged(old(disk), disk)
    {
      var pi := LookupFinal(parent, dir);
      if pi.None? {
        return false;
      }
      var p := pi.value;
      KindOfNode(disk, p);
      if Kind(InodeAt(disk, p)) != 4 {
        return false;
      }
      var found := FindInRoot(disk[Ptr(InodeAt(disk, p), 0)], base);
      if found.Some? && found.value != 0 {
        return false;
      }
      NoZeroEntry(disk, p, base);
      ok := MkdirNew(p, base, dir);
    }

    method MkdirNew(p: nat, base: CStr, ghost dir: seq<seq<byte>>) returns (ok: bool)
      requires Formatted(disk) && CleanPath(dir) && CleanName(base)
      requires DirInode(disk, dir) == Some(p) && FindEntry(NodesOf(disk)[p].entries, base).None?
      modifies this
      ensures ok <==> HasRoom(old(disk), p, base) && FreeBlocks(old(disk)[1]) > 0
      ensures ok ==> Changed(old(disk), disk, dir + [base], Directory)
      ensures !ok ==> Unchanged(old(disk), disk)
    {
      ghost var d0 := disk;
      ghost var c, nb;
      ok, c, nb := MakeDir(p, base);
      if ok {
        AddChanges(d0, disk, dir, p, base, c, EmptyDir(nb, c, p));
      }
    }
  }

  /** The path is accepted, is not the root, and its last name fits the name buffer. */
  predicate Placeable(name: CStr) {
    Accepted(name) && Segs(name) != [] && (|Segs(name)| == 1 ==> |Segs(name)[0]| < NAME_MAX)
  }

  function DirPath(name: CStr): seq<seq<byte>>
    requires name != [] && Segs(name) != []
  {
    Segs(name)[..|Segs(name)| - 1]
  }

  lemma SplitSegs(name: CStr)
    requires name != [] && Segs(name) != []
    ensures CleanPath(DirPath(name)) && CleanName(BaseName(name)) && Segs(name) == DirPath(name) + [BaseName(name)]
  {
    SegsClean(name);
    TakeSnoc(Segs(name), |Segs(name)| - 1);
    assert Segs(name)[..|Segs(name)|] == Segs(name);
  }

  /** `path_split_parent` on a normalised path other than the root. */
  method SplitNorm(norm: CStr, ghost dir: seq<seq<byte>>, ghost base: seq<byte>) returns (r: Option<(CStr, CStr)>)
    requires CleanPath(dir) && CleanName(base) && norm == Render(dir + [base]) && |norm| < PATH_MAX
    ensures r.Some? <==> (dir == [] ==> |base| < NAME_MAX)
    ensures r.Some? ==> r.value == (Render(dir), base)
  {
    SplitRender(dir, base);
    r := SplitParent(norm, PATH_MAX, 128);
  }

  function BaseName(name: CStr): seq<byte>
    requires name != [] && Segs(name) != []
  {
    Segs(name)[|Segs(name)| - 1]
  }

  /** No entry of a formatted directory names inode 0. */
  lemma NoZeroEntry(disk: Disk, p: nat, name: seq<byte>)
    requires Formatted(disk) && 1 <= p <= INODES && CleanName(name) && NodesOf(disk)[p].DirNode?
    ensures FindEntry(NodesOf(disk)[p].entries, name) != Some(0)
  {
    assert Inv(disk);
    ZeroNotNamed(NodesOf(disk), p, name);
  }

  lemma ZeroNotNamed(nodes: Nodes, p: nat, name: seq<byte>)
    requires TreeOk(nodes) && p <= INODES && CleanName(name) && nodes[p].DirNode?
    ensures FindEntry(nodes[p].entries, name) != Some(0)
  {
    if FindEntry(nodes[p].entries, name).Some? {
      var i := FindEntryIndex(nodes[p].entries, name);
      assert DotsOk(nodes, p);
      assert IsEntry(nodes, p, i);
      assert EntryOk(nodes, p, i);
    }
  }

  /** The path is absolute and its normal form fits the 256-byte buffer. */
  predicate Accepted(name: CStr) {
    name != [] && name[0] == SLASH && |Render(Segs(name))| < PATH_MAX
  }

  predicate IsFile(ns: Nodes, path: seq<seq<byte>>) {
    Lookup(ns, path).Some? && Lookup(ns, path).value.Regular?
  }

  function FileData(ns: Nodes, path: seq<seq<byte>>): seq<byte>
    requires IsFile(ns, path)
  {
    Lookup(ns, path).value.data
  }

  lemma FileAt(ns: Nodes, path: seq<seq<byte>>, i: nat)
    requires Walk(ns, ROOT, path) == Some(i) && i <= INODES
    ensures IsFile(ns, path) <==> ns[i].FileNode?
    ensures IsFile(ns, path) ==> FileData(ns, path) == ns[i].data
  {
  }

  /** The bytes offset..offset+n of a file, as far as it goes. */
  function Range(data: seq<byte>, offset: nat, n: nat): seq<byte> {
    if offset >= |data| then [] else data[offset..if offset + n <= |data| then offset + n else |data|]
  }

  /** The bytes of `data` from `offset` on: `n` of them, or as many as there are. */
  predicate IsPart(out: seq<byte>, data: seq<byte>, offset: nat, n: nat) {
    && |out| == (if offset + n <= |data| then n else if offset <= |data| then |data| - offset else 0)
    && forall k :: 0 <= k < |out| ==> out[k] == data[offset + k]
  }

  lemma RangeIsPart(data: seq<byte>, offset: nat, n: nat)
    ensures IsPart(Range(data, offset, n), data, offset, n)
  {
  }

  /** Two parts that meet are the part over both. */
  lemma PartsJoin(s: seq<byte>, t: seq<byte>, u: seq<byte>, data: seq<byte>, offset: nat, m: nat, n: nat)
    requires IsPart(s, data, offset, m) && IsPart(t, data, offset + m, n) && IsPart(u, data, offset, m + n)
    ensures s + t == u
  {
    assert |s + t| == |u|;
    forall k | 0 <= k < |u|
      ensures (s + t)[k] == u[k]
    {
      if k >= |s| {
        assert |s| == m;
        assert t[k - m] == data[offset + m + (k - m)];
      }
    }
  }

  lemma RenderRoot(path: seq<seq<byte>>)
    requires CleanPath(path)
    ensures path != [] ==> |Render(path)| >= 2
  {
    if path != [] {
      assert CleanName(path[0]);
      assert |Render(path)| == 1 + |path[0]| + |Join(path[1..])|;
    }
  }

  lemma RenderTail(path: seq<seq<byte>>)
    ensures path != [] ==> Render(path)[1..] == Tail(path)
    ensures path == [] ==> Render(path)[1..] == []
  {
  }

  lemma TailEmpty(path: seq<seq<byte>>)
    requires CleanPath(path) && Tail(path) == []
    ensures path == []
  {
    if path != [] {
      TailStep(path);
    }
  }
}
