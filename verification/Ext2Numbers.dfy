/**
 A formatted volume in numbers: what its blocks hold at which places, as another program that reads the volume would
 find it, and when a write succeeds.
 */
module Ext2Numbers {
  import opened Arith
  import opened Bytes
  import opened Seqs
  import opened Path
  import opened Dirents
  import opened Bitmap
  import opened Ext2Tree
  import opened Ext2Layout
  import opened Ext2State
  import opened Ext2Alloc
  import opened Ext2Commit
  import opened Ext2Format
  import opened Ext2Results

  /** Bit `k` of a bitmap, the lowest bit of each byte first. */
  predicate BitAt(bm: seq<byte>, k: nat) {
    k / 8 < |bm| && bm[k / 8] as int / Pow2(k % 8) % 2 == 1
  }

  function ClearBits(bm: seq<byte>, n: nat): set<nat> {
    set k: nat | k < n && !BitAt(bm, k)
  }

  lemma ClearCount(bm: seq<byte>, n: nat)
    requires n <= 8 * |bm|
    ensures |ClearBits(bm, n)| == n - |Marked(bm, n)|
  {
    forall k: nat | k < n
      ensures BitAt(bm, k) <==> k in Marked(bm, n)
    {
      BitOfIs(bm[k / 8], k % 8);
    }
    assert ClearBits(bm, n) == Below(n) - Marked(bm, n);
    assert Marked(bm, n) <= Below(n);
    BelowSize(n);
  }

  /** Where inode `i` is: sixteen blocks of eight, from block 5 on. */
  function InodeByte(disk: Disk, i: nat, k: nat): byte
    requires |disk| >= 21 && 1 <= i <= 128 && k < 128
  {
    disk[5 + (i - 1) / 8][(i - 1) % 8 * 128 + k]
  }

  function Inode16(disk: Disk, i: nat, k: nat): nat
    requires |disk| >= 21 && 1 <= i <= 128 && k + 2 <= 128
  {
    U16(disk[5 + (i - 1) / 8], (i - 1) % 8 * 128 + k)
  }

  function Inode32(disk: Disk, i: nat, k: nat): nat
    requires |disk| >= 21 && 1 <= i <= 128 && k + 4 <= 128
  {
    U32(disk[5 + (i - 1) / 8], (i - 1) % 8 * 128 + k)
  }

  lemma InodeFields(disk: Disk, i: nat, k: nat)
    requires Sized(disk) && 1 <= i <= 128
    ensures k + 2 <= 128 ==> Inode16(disk, i, k) == U16(InodeAt(disk, i), k)
    ensures k + 4 <= 128 ==> Inode32(disk, i, k) == U32(InodeAt(disk, i), k)
  {
  }

  /** The superblock and the group descriptor: the magic number, and counts that agree with the bitmaps. */
  lemma CountsInNumbers(disk: Disk)
    requires Formatted(disk)
    ensures 256 <= |disk| <= 8192 && U16(disk[1], 56) == 0xEF53
    ensures U32(disk[1], 12) == U16(disk[2], 12) == |ClearBits(disk[3], |disk|)|
    ensures U32(disk[1], 16) == U16(disk[2], 14) == |ClearBits(disk[4], 128)|
  {
    assert Inv(disk);
    ClearCount(disk[3], |disk|);
    ClearCount(disk[4], 128);
  }

  /** A regular file: its mode, its size, and each of its bytes in the block that the inode names for it. */
  lemma FileInNumbers(disk: Disk, i: nat, k: nat)
    requires Formatted(disk) && 1 <= i <= 128 && NodesOf(disk)[i].FileNode?
    ensures Inode16(disk, i, 0) == 0x81A4 && Inode32(disk, i, 4) == |NodesOf(disk)[i].data| <= 12 * 1024
    ensures Inode16(disk, i, 26) == 1
    ensures k < |NodesOf(disk)[i].data| ==>
      var b := Inode32(disk, i, 40 + 4 * (k / 1024));
      23 <= b < |disk| && NodesOf(disk)[i].data[k] == disk[b][k % 1024]
  {
    assert Inv(disk);
    var raw := InodeAt(disk, i);
    var f := FieldsOf(raw);
    InodeFields(disk, i, 0);
    InodeFields(disk, i, 4);
    InodeFields(disk, i, 26);
    ContentLen(disk, f.ptrs[..NBlocks(f.size)]);
    if k < f.size {
      FileByte(disk, i, raw, f, k);
    }
  }

  lemma FileByte(disk: Disk, i: nat, raw: Raw, f: Fields, k: nat)
    requires Sized(disk) && 1 <= i <= 128 && raw == InodeAt(disk, i) && f == FieldsOf(raw)
    requires FileFields(f, disk) && k < f.size
    ensures NodeOf(disk, raw).FileNode? && |NodeOf(disk, raw).data| == f.size && 40 + 4 * (k / 1024) + 4 <= 128
    ensures var b := Inode32(disk, i, 40 + 4 * (k / 1024));
            23 <= b < |disk| && NodeOf(disk, raw).data[k] == disk[b][k % 1024]
  {
    var ptrs, n := f.ptrs[..NBlocks(f.size)], k / 1024;
    assert n < |ptrs| <= 12;
    ContentLen(disk, ptrs);
    ContentByte(disk, ptrs, k);
    InodeFields(disk, i, 40 + 4 * n);
    assert ptrs[n] == Ptr(raw, n);
  }

  lemma {:induction false} ContentByte(disk: Disk, ptrs: seq<nat>, k: nat)
    requires InRange(disk, ptrs) && k < 1024 * |ptrs|
    ensures |Content(disk, ptrs)| == 1024 * |ptrs|
    ensures Content(disk, ptrs)[k] == disk[ptrs[k / 1024]][k % 1024]
  {
    ContentLen(disk, ptrs);
    if k >= 1024 {
      ContentByte(disk, ptrs[1..], k - 1024);
      assert (k - 1024) / 1024 == k / 1024 - 1 && (k - 1024) % 1024 == k % 1024;
    }
  }

  /** A directory: its mode, its size, and its entries in the one block that the inode names. */
  lemma DirectoryInNumbers(disk: Disk, i: nat)
    requires Formatted(disk) && 1 <= i <= 128 && NodesOf(disk)[i].DirNode?
    ensures Inode16(disk, i, 0) == 0x41ED && Inode32(disk, i, 4) == 1024
    ensures 21 <= Inode32(disk, i, 40) == NodesOf(disk)[i].blk < |disk|
    ensures NodesOf(disk)[i].entries == Parse(disk[Inode32(disk, i, 40)], 0)
    ensures var es := NodesOf(disk)[i].entries;
            ValidEntries(es) && |EncAll(es)| <= 1024 && disk[Inode32(disk, i, 40)] == DirBlock(es)
    ensures Inode16(disk, i, 26) == NodesOf(disk)[i].links
  {
    assert Inv(disk);
    var raw := InodeAt(disk, i);
    InodeFields(disk, i, 0);
    InodeFields(disk, i, 4);
    InodeFields(disk, i, 26);
    InodeFields(disk, i, 40);
    assert FieldsOf(raw).ptrs[0] == Ptr(raw, 0);
  }

  /** A fresh volume: the root directory is inode 2 in block 21, lost+found is inode 11 in block 22. */
  lemma FreshInNumbers(disk: Disk)
    requires Formatted(disk) && NodesOf(disk) == FreshNodes()
    ensures Inode32(disk, 2, 40) == 21 && Inode32(disk, 11, 40) == 22
    ensures Parse(disk[21], 0) ==
      [Dirent(2, [46]), Dirent(2, [46, 46]), Dirent(11, [108, 111, 115, 116, 43, 102, 111, 117, 110, 100])]
    ensures Parse(disk[22], 0) == [Dirent(11, [46]), Dirent(2, [46, 46])]
    ensures forall i :: 1 <= i <= 128 && i != 2 && i != 11 ==> NodesOf(disk)[i].Vacant?
  {
    FreshAt(2);
    FreshAt(11);
    DirectoryInNumbers(disk, 2);
    DirectoryInNumbers(disk, 11);
  }

  /** Where the j-th record of a directory block is, and what it holds. */
  lemma RecordInNumbers(es: seq<Dirent>, blk: seq<byte>, j: nat, at: nat, n: nat)
    requires ValidEntries(es) && |EncAll(es)| <= BLK && blk == DirBlock(es) && j < |es|
    requires at == Offset(es, j) && n == |es[j].name|
    ensures (j == 0 ==> at == 0) && Offset(es, j + 1) == at + (n + 11) / 4 * 4 <= |blk| == 1024
    ensures U32(blk, at) == es[j].ino && U16(blk, at + 4) == (n + 11) / 4 * 4
    ensures blk[at + 6] == n && blk[at + 7] == 0 && blk[at + 8..at + 8 + n] == es[j].name
  {
    RecLenIs(n);
    FirstOffset(es);
    EntryAt(es, j);
  }

  lemma RecLenIs(n: nat)
    ensures RecLen(n) == (n + 11) / 4 * 4
  {
  }

  lemma FirstOffset(es: seq<Dirent>)
    requires ValidEntries(es)
    ensures Offset(es, 0) == 0
  {
    assert es[..0] == [];
  }

  lemma EntriesValid(disk: Disk, p: nat)
    requires Formatted(disk) && 1 <= p <= 128 && NodesOf(disk)[p].DirNode?
    ensures ValidEntries(NodesOf(disk)[p].entries) && Used(disk, p) == |EncAll(NodesOf(disk)[p].entries)|
  {
    assert Inv(disk);
    assert InodeOk(disk, p);
    OffsetEnd(NodesOf(disk)[p].entries);
  }

  /** When a new file can be written: an inode is free, its record fits, and there are blocks for its bytes. */
  lemma NewFits(disk: Disk, dir: seq<seq<byte>>, p: nat, base: seq<byte>, len: nat)
    requires Formatted(disk) && DirInode(disk, dir) == Some(p) && Child(NodesOf(disk), p, base).None?
    ensures WriteOutcome(disk, dir, base, len) == Fits <==>
      && U32(disk[1], 16) > 0 && Used(disk, p) + (|base| + 11) / 4 * 4 <= 1024
      && (len + 1023) / 1024 <= U32(disk[1], 12)
    ensures MkdirFits(disk, dir, base) <==>
      U32(disk[1], 16) > 0 && Used(disk, p) + (|base| + 11) / 4 * 4 <= 1024 && U32(disk[1], 12) > 0
  {
    EntriesValid(disk, p);
  }

  /** When an existing file can be: there are blocks, those that it has included. */
  lemma OldFits(disk: Disk, dir: seq<seq<byte>>, p: nat, base: seq<byte>, c: nat, len: nat)
    requires Formatted(disk) && DirInode(disk, dir) == Some(p) && Child(NodesOf(disk), p, base) == Some(c)
    requires 1 <= c <= 128 && NodesOf(disk)[c].FileNode?
    ensures WriteOutcome(disk, dir, base, len) == Fits <==>
      (len + 1023) / 1024 <= U32(disk[1], 12) + (|NodesOf(disk)[c].data| + 1023) / 1024
  {
    BlockCount(disk, c);
  }

  /** A name stands in a directory if the path does and the directory has a record of that name. */
  lemma ParentIs(disk: Disk, dir: seq<seq<byte>>, p: nat)
    requires Sized(disk)
    ensures DirInode(disk, dir) == Some(p) <==>
      Walk(NodesOf(disk), 2, dir) == Some(p) && 1 <= p <= 128 && NodesOf(disk)[p].DirNode?
  {
  }

  lemma BlockCount(disk: Disk, c: nat)
    requires Formatted(disk) && 1 <= c <= 128 && NodesOf(disk)[c].FileNode?
    ensures |Blocks(NodesOf(disk)[c])| == (|NodesOf(disk)[c].data| + 1023) / 1024
  {
    assert Inv(disk);
    var n := NodesOf(disk)[c];
    FileShape(disk, InodeAt(disk, c));
    ElemsAreBlocks(n.ptrs, n.data);
    ElemsSize(n.ptrs);
  }

  /** The bytes that the records of a directory take up. */
  function Used(disk: Disk, p: nat): nat
    requires Sized(disk) && 1 <= p <= 128
  {
    var n := NodesOf(disk)[p];
    if n.DirNode? && ValidEntries(n.entries) then Offset(n.entries, |n.entries|) else 0
  }
}
