/**
 The invariant of a formatted volume, and what each kind of update does to it.
 */
module Ext2State {
  import opened Bytes
  import opened Seqs
  import opened Path
  import opened Dirents
  import opened Bitmap
  import opened Ext2Tree
  import opened Ext2Layout

  /** The numbers below `n`. */
  function Below(n: nat): (s: set<nat>)
    ensures forall k: nat :: k in s <==> k < n
  {
    var all := seq<nat>(n, i => i);
    Counts(all);
    set k | k in all
  }

  lemma Counts(all: seq<nat>)
    requires forall i :: 0 <= i < |all| ==> all[i] == i
    ensures forall k: nat :: k in all <==> k < |all|
  {
    forall k: nat | k < |all| ensures k in all { assert all[k] == k; }
  }

  lemma BelowStep(n: nat)
    ensures Below(n + 1) == Below(n) + {n}
  {
  }

  lemma {:induction false} BelowSize(n: nat)
    ensures |Below(n)| == n
  {
    if n > 0 {
      BelowSize(n - 1);
      BelowStep(n - 1);
    }
  }

  /** Bitmaps and counters agree with the inodes. */
  ghost predicate CountsOk(disk: Disk)
    requires Sized(disk)
  {
    var ns := NodesOf(disk);
    BlockCounts(|disk|, disk[1], disk[2], disk[3], Refs(ns)) && InodeCounts(disk[1], disk[2], disk[4], ns)
  }

  /** The marked blocks are blocks 0 to 20 and the referenced ones; both free counts count the rest. */
  ghost predicate BlockCounts(tb: nat, sb: Block, gd: Block, bb: Block, refs: set<nat>)
    requires tb <= 8192
  {
    && Marked(bb, tb) == Below(FIRST_DATA) + refs
    && (forall b :: FIRST_DATA <= b < FIRST_FREE ==> b in refs)
    && FreeBlocks(sb) == GroupFreeBlocks(gd) == tb - |Marked(bb, tb)|
  }

  /** The marked inodes are 1 to 11 and those in use; the directory count counts directories. */
  ghost predicate InodeCounts(sb: Block, gd: Block, ib: Block, ns: Nodes) {
    && (forall k: nat :: k < INODES ==> (k in Marked(ib, INODES) <==> k < LOST || !ns[k + 1].Vacant?))
    && FreeInodes(sb) == GroupFreeInodes(gd) == INODES - |Marked(ib, INODES)|
    && UsedDirs(gd) == |Dirs(ns)|
  }

  /** The invariant of a formatted volume. */
  ghost predicate Inv(disk: Disk) {
    && Sized(disk) && Magic(disk[1]) == MAGIC
    && (forall i :: 1 <= i <= INODES ==> InodeOk(disk, i))
    && TreeOk(NodesOf(disk)) && LinksOk(NodesOf(disk)) && AllReachable(NodesOf(disk))
    && CountsOk(disk)
  }

  /**
   The same invariant behind a bound variable, so that a proof unfolds it only where it mentions `Inv`
   itself. The operations are specified with this name.
   */
  ghost predicate Formatted(disk: Disk) {
    Sized(disk) && forall d: Disk :: d == disk ==> Inv(d)
  }

  // ---------------------------------------------------------------------------------------------
  // Frames
  // ---------------------------------------------------------------------------------------------

  lemma {:induction false} ContentFrame(disk: Disk, disk': Disk, ptrs: seq<nat>)
    requires |disk'| == |disk| && InRange(disk, ptrs)
    requires forall i :: 0 <= i < |ptrs| ==> disk'[ptrs[i]] == disk[ptrs[i]]
    ensures InRange(disk', ptrs) && Content(disk', ptrs) == Content(disk, ptrs)
  {
    if ptrs != [] {
      assert forall i :: 0 <= i < |ptrs| - 1 ==> ptrs[1..][i] == ptrs[i + 1];
      ContentFrame(disk, disk', ptrs[1..]);
    }
  }

  /** An inode whose raw bytes and whose blocks are unchanged stands for the same node. */
  lemma NodeFrame(disk: Disk, disk': Disk, j: nat)
    requires Sized(disk) && |disk'| == |disk| && 1 <= j <= INODES && InodeOk(disk, j)
    requires InodeAt(disk', j) == InodeAt(disk, j)
    requires forall b :: b in Blocks(NodesOf(disk)[j]) && b < |disk| ==> disk'[b] == disk[b]
    ensures InodeOk(disk', j) && NodesOf(disk')[j] == NodesOf(disk)[j]
  {
    var raw := InodeAt(disk, j);
    var f := FieldsOf(raw);
    if FileFields(f, disk) {
      var ptrs := f.ptrs[..NBlocks(f.size)];
      assert NodesOf(disk)[j] == NodeOf(disk, raw);
      assert forall i :: 0 <= i < |ptrs| ==> ptrs[i] in Blocks(NodesOf(disk)[j]);
      ContentFrame(disk, disk', ptrs);
    } else if DirFields(f, disk) {
      assert f.ptrs[0] in Blocks(NodesOf(disk)[j]);
    } else {
      ZeroFields();
    }
  }

  lemma BlocksInRange(disk: Disk, j: nat)
    requires Sized(disk) && 0 <= j <= INODES
    ensures forall b :: b in Blocks(NodesOf(disk)[j]) ==> FIRST_DATA <= b < |disk|
  {
    if j > 0 {
      var f := FieldsOf(InodeAt(disk, j));
      if FileFields(f, disk) {
        assert InRange(disk, f.ptrs[..NBlocks(f.size)]);
      }
    }
  }

  // ---------------------------------------------------------------------------------------------
  // File data
  // ---------------------------------------------------------------------------------------------

  /** The i-th block of a file with this data, zero padded. */
  function Chunk(data: seq<byte>, i: nat): Block
    requires BLK * i <= |data|
  {
    if BLK * i + BLK <= |data| then data[BLK * i..BLK * i + BLK]
    else data[BLK * i..] + Zeros(BLK - |data[BLK * i..]|)
  }

  predicate Covers(ns: seq<nat>, data: seq<byte>) {
    |ns| == 0 || BLK * (|ns| - 1) < |data|
  }

  /** The data written block by block to the listed block numbers. */
  function Fill(disk: Disk, ns: seq<nat>, data: seq<byte>): (d: Disk)
    requires InRange(disk, ns) && Covers(ns, data)
    ensures |d| == |disk|
  {
    if ns == [] then disk
    else Fill(disk, ns[..|ns| - 1], data)[ns[|ns| - 1] := Chunk(data, |ns| - 1)]
  }

  lemma RangeSnoc(disk: Disk, ns: seq<nat>, data: seq<byte>, b: nat)
    requires InRange(disk, ns) && FIRST_FREE <= b < |disk| && BLK * |ns| < |data|
    ensures InRange(disk, ns + [b]) && Covers(ns + [b], data)
  {
  }

  lemma FillSnoc(disk: Disk, ns: seq<nat>, data: seq<byte>, b: nat)
    requires InRange(disk, ns) && Covers(ns, data) && InRange(disk, ns + [b]) && Covers(ns + [b], data)
    ensures BLK * |ns| <= |data| && b < |disk|
    ensures Fill(disk, ns + [b], data) == Fill(disk, ns, data)[b := Chunk(data, |ns|)]
  {
    var ms := ns + [b];
    assert ms[|ms| - 1] == b && ms[..|ms| - 1] == ns;
  }

  lemma {:induction false} FillFrame(disk: Disk, ns: seq<nat>, data: seq<byte>, b: nat)
    requires InRange(disk, ns) && Covers(ns, data) && b < |disk| && b !in ns
    ensures Fill(disk, ns, data)[b] == disk[b]
  {
    if ns != [] {
      FillFrame(disk, ns[..|ns| - 1], data, b);
    }
  }

  lemma {:induction false} FillAt(disk: Disk, ns: seq<nat>, data: seq<byte>, i: nat)
    requires InRange(disk, ns) && Covers(ns, data) && Distinct(ns) && i < |ns|
    ensures Fill(disk, ns, data)[ns[i]] == Chunk(data, i)
  {
    if i < |ns| - 1 {
      FillAt(disk, ns[..|ns| - 1], data, i);
    }
  }

  lemma {:induction false} ContentSplit(disk: Disk, ps: seq<nat>, p: nat)
    requires InRange(disk, ps + [p])
    ensures InRange(disk, ps) && FIRST_FREE <= p < |disk|
    ensures Content(disk, ps + [p]) == Content(disk, ps) + disk[p]
  {
    assert (ps + [p])[|ps|] == p;
    assert forall i :: 0 <= i < |ps| ==> (ps + [p])[i] == ps[i];
    if ps == [] {
      assert [p][1..] == [];
    } else {
      assert (ps + [p])[1..] == ps[1..] + [p];
      ContentSplit(disk, ps[1..], p);
      Assoc(disk[ps[0]], Content(disk, ps[1..]), disk[p]);
    }
  }

  /** Blocks that hold the chunks of `data` spell `data`. */
  lemma {:induction false} ContentOfChunks(disk: Disk, ns: seq<nat>, data: seq<byte>, k: nat)
    requires InRange(disk, ns) && Covers(ns, data) && k <= |ns|
    requires forall i :: 0 <= i < |ns| ==> disk[ns[i]] == Chunk(data, i)
    ensures |Content(disk, ns[..k])| == BLK * k
    ensures if BLK * k <= |data| then Content(disk, ns[..k]) == data[..BLK * k]
            else Content(disk, ns[..k])[..|data|] == data
  {
    if k > 0 {
      ContentOfChunks(disk, ns, data, k - 1);
      TakeSnoc(ns, k - 1);
      ContentSplit(disk, ns[..k - 1], ns[k - 1]);
      assert Content(disk, ns[..k - 1]) == data[..BLK * (k - 1)];
      ChunkExtends(data, k - 1);
    }
  }

  lemma ChunkExtends(data: seq<byte>, i: nat)
    requires BLK * i <= |data|
    ensures var s := data[..BLK * i] + Chunk(data, i);
            if BLK * (i + 1) <= |data| then s == data[..BLK * (i + 1)] else s[..|data|] == data
  {
  }

  // ---------------------------------------------------------------------------------------------
  // Which nodes an update changes
  // ---------------------------------------------------------------------------------------------

  /** The disks agree on inode `j` and on every block it refers to. */
  ghost predicate SameInode(disk: Disk, disk': Disk, j: nat)
    requires Sized(disk) && |disk'| == |disk| && 1 <= j <= INODES
  {
    && InodeAt(disk', j) == InodeAt(disk, j)
    && forall b :: b in Blocks(NodesOf(disk)[j]) && b < |disk| ==> disk'[b] == disk[b]
  }

  lemma NodesUpdate(disk: Disk, disk': Disk, p: nat, c: nat)
    requires Sized(disk) && |disk'| == |disk| && 1 <= p <= INODES && 1 <= c <= INODES
    requires forall j :: 1 <= j <= INODES ==> InodeOk(disk, j)
    requires forall j | 1 <= j <= INODES && j != p && j != c :: SameInode(disk, disk', j)
    ensures NodesOf(disk') ==
      NodesOf(disk)[p := NodeOf(disk', InodeAt(disk', p))][c := NodeOf(disk', InodeAt(disk', c))]
    ensures forall j :: 1 <= j <= INODES && j != p && j != c ==> InodeOk(disk', j)
  {
    forall j | 1 <= j <= INODES && j != p && j != c
      ensures InodeOk(disk', j) && NodesOf(disk')[j] == NodesOf(disk)[j]
    {
      assert SameInode(disk, disk', j);
      NodeFrame(disk, disk', j);
    }
  }

  // ---------------------------------------------------------------------------------------------
  // Raw inodes of files and directories
  // ---------------------------------------------------------------------------------------------

  /** The fields of a file inode whose blocks are `ns`. */
  predicate IsFileRaw(raw: Raw, ns: seq<nat>, len: nat) {
    && len <= NDIRECT * BLK && |ns| == NBlocks(len)
    && FieldsOf(raw) == Fields(REG_MODE, len, 1, (len + 511) / 512, ns + seq(NPTRS - |ns|, _ => 0))
  }

  lemma FileNodeOf(disk: Disk, raw: Raw, ns: seq<nat>, data: seq<byte>)
    requires IsFileRaw(raw, ns, |data|) && InRange(disk, ns)
    requires forall i :: 0 <= i < |ns| ==> BLK * i <= |data| && disk[ns[i]] == Chunk(data, i)
    ensures FileFields(FieldsOf(raw), disk) && NodeOf(disk, raw) == FileNode(ns, data)
  {
    var f := FieldsOf(raw);
    assert f.ptrs[..|ns|] == ns;
    assert Covers(ns, data);
    ContentOfChunks(disk, ns, data, |ns|);
    assert ns[..|ns|] == ns;
    assert BLK * |ns| >= |data|;
  }

  predicate IsDirRaw(raw: Raw, blk: nat, links: nat) {
    FieldsOf(raw) == Fields(DIR_MODE, BLK, links, 2, [blk] + seq(NPTRS - 1, _ => 0))
  }

  lemma DirNodeOf(disk: Disk, raw: Raw, blk: nat, links: nat)
    requires IsDirRaw(raw, blk, links) && FIRST_DATA <= blk < |disk| && IsDirBlock(disk[blk])
    ensures DirFields(FieldsOf(raw), disk) && !FileFields(FieldsOf(raw), disk)
    ensures NodeOf(disk, raw) == DirNode(blk, links, Parse(disk[blk], 0))
  {
  }
}
