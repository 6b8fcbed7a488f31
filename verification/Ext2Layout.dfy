/**
 The bytes of the single-group ext2 volume: 1024-byte blocks, block 1 superblock, block 2 group
 descriptor, blocks 3 and 4 bitmaps, blocks 5 to 20 inode table, data from block 21 on. Field offsets
 are those of the ext2 on-disk structures.
 */
module Ext2Layout {
  import opened Bytes
  import opened Seqs
  import opened Dirents
  import opened Bitmap
  import opened Ext2Tree

  const FIRST_DATA: nat := 21
  const FIRST_FREE: nat := 23  // blocks 21 and 22 hold the root directory and lost+found
  const MAGIC: nat := 0xEF53
  const DIR_MODE: nat := 0x41ED  // directory, 0755
  const REG_MODE: nat := 0x81A4  // regular file, 0644
  const NDIRECT: nat := 12
  const NPTRS: nat := 15

  type Block = b: seq<byte> | |b| == BLK witness Zeros(BLK)
  type Disk = seq<Block>

  /** A raw 128-byte inode. */
  type Raw = r: seq<byte> | |r| == 128 witness Zeros(128)

  function Mode(r: Raw): nat { U16(r, 0) }
  function Size(r: Raw): nat { U32(r, 4) }
  function Links(r: Raw): nat { U16(r, 26) }
  function Sectors(r: Raw): nat { U32(r, 28) }
  function Ptr(r: Raw, i: nat): nat
    requires i < NPTRS
  {
    U32(r, 40 + 4 * i)
  }

  function SetMode(r: Raw, v: nat): Raw { Patch(r, 0, Le16(v)) }
  function SetSize(r: Raw, v: nat): Raw { Patch(r, 4, Le32(v)) }
  function SetLinks(r: Raw, v: nat): Raw { Patch(r, 26, Le16(v)) }
  function SetSectors(r: Raw, v: nat): Raw { Patch(r, 28, Le32(v)) }
  function SetPtr(r: Raw, i: nat, v: nat): Raw
    requires i < NPTRS
  {
    Patch(r, 40 + 4 * i, Le32(v))
  }

  /** All the fields the code uses, as one value. */
  datatype Fields = Fields(mode: nat, size: nat, links: nat, sectors: nat, ptrs: seq<nat>)

  function FieldsOf(r: Raw): (f: Fields)
    ensures |f.ptrs| == NPTRS
  {
    Fields(Mode(r), Size(r), Links(r), Sectors(r), seq(NPTRS, i requires 0 <= i < NPTRS => Ptr(r, i)))
  }

  lemma SetModeFields(r: Raw, v: nat)
    requires v < 0x1_0000
    ensures FieldsOf(SetMode(r, v)) == FieldsOf(r).(mode := v)
  {
    U16Patch(r, 0, v);
    assert FieldsOf(SetMode(r, v)).ptrs == FieldsOf(r).ptrs;
  }

  lemma SetSizeFields(r: Raw, v: nat)
    requires v < 0x1_0000_0000
    ensures FieldsOf(SetSize(r, v)) == FieldsOf(r).(size := v)
  {
    U32Patch(r, 4, v);
    assert FieldsOf(SetSize(r, v)).ptrs == FieldsOf(r).ptrs;
  }

  lemma SetLinksFields(r: Raw, v: nat)
    requires v < 0x1_0000
    ensures FieldsOf(SetLinks(r, v)) == FieldsOf(r).(links := v)
  {
    U16Patch(r, 26, v);
    assert FieldsOf(SetLinks(r, v)).ptrs == FieldsOf(r).ptrs;
  }

  lemma SetSectorsFields(r: Raw, v: nat)
    requires v < 0x1_0000_0000
    ensures FieldsOf(SetSectors(r, v)) == FieldsOf(r).(sectors := v)
  {
    U32Patch(r, 28, v);
    assert FieldsOf(SetSectors(r, v)).ptrs == FieldsOf(r).ptrs;
  }

  lemma SetPtrFields(r: Raw, i: nat, v: nat)
    requires i < NPTRS && v < 0x1_0000_0000
    ensures FieldsOf(SetPtr(r, i, v)) == FieldsOf(r).(ptrs := FieldsOf(r).ptrs[i := v])
  {
    U32Patch(r, 40 + 4 * i, v);
    assert FieldsOf(SetPtr(r, i, v)).ptrs == FieldsOf(r).ptrs[i := v];
  }

  lemma ZeroFields()
    ensures FieldsOf(Zeros(128)) == Fields(0, 0, 0, 0, seq(NPTRS, _ => 0))
  {
  }

  // ---------------------------------------------------------------------------------------------
  // Superblock and group descriptor
  // ---------------------------------------------------------------------------------------------

  function FreeBlocks(sb: Block): nat { U32(sb, 12) }
  function FreeInodes(sb: Block): nat { U32(sb, 16) }
  function Magic(sb: Block): nat { U16(sb, 56) }
  function GroupFreeBlocks(gd: Block): nat { U16(gd, 12) }
  function GroupFreeInodes(gd: Block): nat { U16(gd, 14) }
  function UsedDirs(gd: Block): nat { U16(gd, 16) }

  /** s_free_blocks_count += k, and the like, in the width of the field. */
  function AddFreeBlocks(sb: Block, k: int): Block {
    Patch(sb, 12, Le32((FreeBlocks(sb) + k) % 0x1_0000_0000))
  }

  function AddFreeInodes(sb: Block, k: int): Block {
    Patch(sb, 16, Le32((FreeInodes(sb) + k) % 0x1_0000_0000))
  }

  function AddGroupFreeBlocks(gd: Block, k: int): Block {
    Patch(gd, 12, Le16((GroupFreeBlocks(gd) + k) % 0x1_0000))
  }

  function AddGroupFreeInodes(gd: Block, k: int): Block {
    Patch(gd, 14, Le16((GroupFreeInodes(gd) + k) % 0x1_0000))
  }

  function AddUsedDirs(gd: Block, k: int): Block {
    Patch(gd, 16, Le16((UsedDirs(gd) + k) % 0x1_0000))
  }

  /** `write_gd`: the 32 bytes of the descriptor, zero behind them. */
  function GroupBlock(gd: Block): Block {
    gd[..32] + Zeros(BLK - 32)
  }

  lemma AddFreeBlocksFields(sb: Block, k: int)
    requires 0 <= FreeBlocks(sb) + k < 0x1_0000_0000
    ensures FreeBlocks(AddFreeBlocks(sb, k)) == FreeBlocks(sb) + k
    ensures FreeInodes(AddFreeBlocks(sb, k)) == FreeInodes(sb) && Magic(AddFreeBlocks(sb, k)) == Magic(sb)
  {
    U32Patch(sb, 12, FreeBlocks(sb) + k);
  }

  lemma AddFreeInodesFields(sb: Block, k: int)
    requires 0 <= FreeInodes(sb) + k < 0x1_0000_0000
    ensures FreeInodes(AddFreeInodes(sb, k)) == FreeInodes(sb) + k
    ensures FreeBlocks(AddFreeInodes(sb, k)) == FreeBlocks(sb) && Magic(AddFreeInodes(sb, k)) == Magic(sb)
  {
    U32Patch(sb, 16, FreeInodes(sb) + k);
  }

  lemma AddGroupFreeBlocksFields(gd: Block, k: int)
    requires 0 <= GroupFreeBlocks(gd) + k < 0x1_0000
    ensures var g := AddGroupFreeBlocks(gd, k);
            && GroupFreeBlocks(g) == GroupFreeBlocks(gd) + k
            && GroupFreeInodes(g) == GroupFreeInodes(gd) && UsedDirs(g) == UsedDirs(gd)
  {
    U16Patch(gd, 12, GroupFreeBlocks(gd) + k);
  }

  lemma AddGroupFreeInodesFields(gd: Block, k: int)
    requires 0 <= GroupFreeInodes(gd) + k < 0x1_0000
    ensures var g := AddGroupFreeInodes(gd, k);
            && GroupFreeInodes(g) == GroupFreeInodes(gd) + k
            && GroupFreeBlocks(g) == GroupFreeBlocks(gd) && UsedDirs(g) == UsedDirs(gd)
  {
    U16Patch(gd, 14, GroupFreeInodes(gd) + k);
  }

  lemma AddUsedDirsFields(gd: Block, k: int)
    requires 0 <= UsedDirs(gd) + k < 0x1_0000
    ensures var g := AddUsedDirs(gd, k);
            && UsedDirs(g) == UsedDirs(gd) + k
            && GroupFreeBlocks(g) == GroupFreeBlocks(gd) && GroupFreeInodes(g) == GroupFreeInodes(gd)
  {
    U16Patch(gd, 16, UsedDirs(gd) + k);
  }

  lemma GroupBlockFields(gd: Block)
    ensures var g := GroupBlock(gd);
            && GroupFreeBlocks(g) == GroupFreeBlocks(gd) && GroupFreeInodes(g) == GroupFreeInodes(gd)
            && UsedDirs(g) == UsedDirs(gd)
  {
  }

  // ---------------------------------------------------------------------------------------------
  // The inode table
  // ---------------------------------------------------------------------------------------------

  predicate Sized(disk: Disk) {
    256 <= |disk| <= 8192
  }

  function TableBlock(ino: nat): (b: nat)
    requires 1 <= ino <= INODES
    ensures 5 <= b < FIRST_DATA
  {
    5 + (ino - 1) / 8
  }

  function TableOff(ino: nat): (o: nat)
    requires 1 <= ino <= INODES
    ensures o + 128 <= BLK
  {
    (ino - 1) % 8 * 128
  }

  /** `read_inode` */
  function InodeAt(disk: Disk, ino: nat): Raw
    requires Sized(disk) && 1 <= ino <= INODES
  {
    disk[TableBlock(ino)][TableOff(ino)..TableOff(ino) + 128]
  }

  /** `write_inode` */
  function PutInode(disk: Disk, ino: nat, raw: Raw): (d: Disk)
    requires Sized(disk) && 1 <= ino <= INODES
    ensures |d| == |disk|
  {
    disk[TableBlock(ino) := Patch(disk[TableBlock(ino)], TableOff(ino), raw)]
  }

  /** Writing one inode leaves every other inode, and every block outside the table, alone. */
  lemma PutInodeFrame(disk: Disk, ino: nat, raw: Raw, j: nat)
    requires Sized(disk) && 1 <= ino <= INODES && 1 <= j <= INODES
    ensures InodeAt(PutInode(disk, ino, raw), j) == if j == ino then raw else InodeAt(disk, j)
  {
    var b, o := TableBlock(j), TableOff(j);
    var p := PutInode(disk, ino, raw);
    if j == ino {
      assert p[b][o..o + 128] == raw;
    } else if TableBlock(ino) == b {
      assert TableOff(ino) + 128 <= o || o + 128 <= TableOff(ino);
      assert p[b][o..o + 128] == disk[b][o..o + 128];
    }
  }

  // ---------------------------------------------------------------------------------------------
  // The inodes a disk holds
  // ---------------------------------------------------------------------------------------------

  /** Number of blocks for a file of `size` bytes. */
  function NBlocks(size: nat): nat {
    (size + 1023) / 1024
  }

  /** The listed blocks, one after the other. */
  function Content(disk: Disk, ptrs: seq<nat>): seq<byte>
    requires forall i :: 0 <= i < |ptrs| ==> ptrs[i] < |disk|
  {
    if ptrs == [] then [] else disk[ptrs[0]] + Content(disk, ptrs[1..])
  }

  predicate InRange(disk: Disk, ptrs: seq<nat>) {
    forall i :: 0 <= i < |ptrs| ==> FIRST_FREE <= ptrs[i] < |disk|
  }

  lemma {:induction false} ContentLen(disk: Disk, ptrs: seq<nat>)
    requires InRange(disk, ptrs)
    ensures |Content(disk, ptrs)| == BLK * |ptrs|
  {
    if ptrs != [] {
      ContentLen(disk, ptrs[1..]);
    }
  }

  predicate FileFields(f: Fields, disk: Disk)
    requires |f.ptrs| == NPTRS
  {
    && f.mode == REG_MODE && f.size <= NDIRECT * BLK && f.links == 1 && f.sectors == (f.size + 511) / 512
    && InRange(disk, f.ptrs[..NBlocks(f.size)])
    && (forall i :: NBlocks(f.size) <= i < NPTRS ==> f.ptrs[i] == 0)
  }

  predicate DirFields(f: Fields, disk: Disk)
    requires |f.ptrs| == NPTRS
  {
    && f.mode == DIR_MODE && f.size == BLK && f.sectors == 2
    && FIRST_DATA <= f.ptrs[0] < |disk| && (forall i :: 1 <= i < NPTRS ==> f.ptrs[i] == 0)
    && IsDirBlock(disk[f.ptrs[0]])
  }

  predicate InodeOk(disk: Disk, ino: nat)
    requires Sized(disk) && 1 <= ino <= INODES
  {
    var raw := InodeAt(disk, ino);
    var f := FieldsOf(raw);
    FileFields(f, disk) || DirFields(f, disk) || raw == Zeros(128)
  }

  /** What the raw inode stands for on this disk. */
  function NodeOf(disk: Disk, raw: Raw): Node {
    var f := FieldsOf(raw);
    if FileFields(f, disk) then
      var ptrs := f.ptrs[..NBlocks(f.size)];
      ContentLen(disk, ptrs);
      FileNode(ptrs, Content(disk, ptrs)[..f.size])
    else if DirFields(f, disk) then
      DirNode(f.ptrs[0], f.links, Parse(disk[f.ptrs[0]], 0))
    else Vacant
  }

  function NodesOf(disk: Disk): Nodes
    requires Sized(disk)
  {
    seq(INODES + 1, i requires 0 <= i <= INODES => if i == 0 then Vacant else NodeOf(disk, InodeAt(disk, i)))
  }
}
