# ChaserOS kernel: a Dafny model of its hard parts

The project models six parts of the ChaserOS kernel and proves what they promise, over all inputs and whole runs:

1. The single-group ext2 volume, down to the bytes of its 1024-byte blocks: format, path lookup, directory blocks,
   bitmaps, reading, writing, making directories. Runs of calls refine a map from paths to directories and bytes,
   under an invariant on all metadata, and what lies at which byte (`Path`, `Dirents`, `Bitmap`, `Ext2*`).
2. The two 64-bit bitmaps of the ext2 library: the tree of extents with its three cursors, and the flat array with
   word-wide scans, each against a plain set of bit numbers and against each other (`Extents`, `ExtentTree`,
   `ExtentRun`, `BitArray`, `Bitmaps`, `Scans`).
3. The block map of an inode, its lookup and update through up to three levels of indirect blocks, the iteration over
   the same trees, and the free-block accounting per group (`BlockTree`, `BlockMap`, `BlockIterate`, `GroupStats`).
4. Synchronous IPC, its service and clients in any interleaving, and the scheduler (`Messages`, `Tasks`, `Ipc`, `Rpc`,
   `Overtaking`, `Starving`).
5. The layer compositor, whose partial redraws have to equal a full repaint (`Layers`, `Sheets`).
6. Codecs: CRC32C (the polynomial of section 12.1 of RFC 3720), the digest encoding, and the program packages with the
   kernel's loaders (`Crc32c`, `Crc32cTable`, `Digest`, `Package`, `Image`, `ImageBytes`).

Code that changes state in place is modelled by classes, arrays and methods with loops; what it should do is stated by
functions on values, about which the lemmas speak. The disk is a sequence of blocks, the red-black tree is the ordered
list of its nodes (its balancing is not part of the model), pointers to tasks and sheets are indices, and `schedule` and
the steps between two yields are atomic. File reads of the streaming loader, addresses of buffers and the results of
opening files are parameters. Integers are unbounded except where a width is written out: on-disk fields, field widths of
the group counts, package fields, the sums of the loaders, message payloads, CRC words.

`dafny verify dfyconfig.toml` checks everything.

## Model

| member | source | states |
|---|---|---|
| `Path.Normalize` | kernel/fs/chaseros/chaseros_ext2_vol.c:378-426 | accepts exactly the absolute paths whose normal form fits the buffer, and returns that form |
| `Path.SegsClean` | kernel/fs/chaseros/chaseros_ext2_vol.c:378-426 | a normal form has at most 32 components, none empty, "." or "..", none above 127 bytes |
| `Path.SegsOfRender` | kernel/fs/chaseros/chaseros_ext2_vol.c:378-426 | normalising a path written from clean components gives those components back |
| `Path.Idempotent` | kernel/fs/chaseros/chaseros_ext2_vol.c:378-426 | normalising twice is normalising once, on every input |
| `Path.CappedIsPrefix` | kernel/fs/chaseros/chaseros_ext2_vol.c:378-426 | on every input the code computes the stack meaning of the longest prefix of the pieces whose depth stays below 32 |
| `Path.NormalizeIsMeaning` | kernel/fs/chaseros/chaseros_ext2_vol.c:378-426 | with components of at most 127 bytes and depth below 32 before the end, the result is the usual stack meaning of "." and ".." |
| `Path.DeepPathsAreCut` | kernel/fs/chaseros/chaseros_ext2_vol.c:384-406 | any path of more than 32 clean names loses exactly the names behind the 32nd |
| `Path.CappedExact` | kernel/fs/chaseros/chaseros_ext2_vol.c:378-426 | stopping at 32 names gives the stack meaning if and only if the components behind the 32nd name put back exactly the names they take off |
| `Path.NormalizeExact` | kernel/fs/chaseros/chaseros_ext2_vol.c:378-426 | with components of at most 127 bytes the result is the stack meaning under exactly that condition |
| `Path.BeyondLimits` | kernel/fs/chaseros/chaseros_ext2_vol.c:378-426 | a path whose meaning has more than 32 names, or a name above 127 bytes, is never normalised to its meaning |
| `Path.RenderExact` | kernel/fs/chaseros/chaseros_ext2_vol.c:378-426 | a path written from clean components reads back as them if and only if there are at most 32 |
| `Path.LongNamesAreSplit` | kernel/fs/chaseros/chaseros_ext2_vol.c:384-406 | any component of 128 to 254 bytes is cut at 127, and the rest is taken for a component of its own, also where it is "." or ".." |
| `Path.SplitParent` | kernel/fs/chaseros/chaseros_ext2_vol.c:428-466 | splits at the last slash, and fails exactly for the root, a relative path or a part that its buffer cannot hold |
| `Path.SplitRender` | kernel/fs/chaseros/chaseros_ext2_vol.c:428-466 | splitting the path of dir/base gives the path of dir, and base |
| `Path.DotAndDotDot` | kernel/fs/chaseros/chaseros_ext2_vol.c:384-406 | what one more component does to a normal path: nothing for "." and an empty one, one name less for "..", one more for a name |
| `Path.Resolve` | kernel/fs/vfs.c:65-101 | an absolute path is normalised as it is, any other as cwd + "/" + rel; both directions of success |
| `Path.ResolveContinuesStack` | kernel/fs/vfs.c:65-101 | resolving a relative path continues the component stack of the working directory |
| `Dirents.ParseDirBlock` | kernel/fs/chaseros/chaseros_ext2_vol.c:347-373 | scanning a block that holds any fitting list of entries gives that list back |
| `Dirents.FindInRoot` | kernel/fs/chaseros/chaseros_ext2_vol.c:347-373 | returns the inode of the first entry of the block with the name, or none |
| `Dirents.FindsFirst` | kernel/fs/chaseros/chaseros_ext2_vol.c:347-373 | what the scan finds is the first entry with the name; none exactly if no entry has it |
| `Dirents.DirentPut` | kernel/fs/chaseros/chaseros_ext2_vol.c:335-345 | writing a record behind the last one appends one entry to what the block parses to |
| `Dirents.AppendEntry` | kernel/fs/chaseros/chaseros_ext2_vol.c:910-923 | succeeds exactly if the record fits the block, and then appends exactly one entry |
| `Dirents.NewDirBlock` | kernel/fs/chaseros/chaseros_ext2_vol.c:1029-1033 | a new directory block parses to "." and ".." with the right inodes |
| `Bitmap.MarkedSet` | kernel/fs/chaseros/chaseros_ext2_vol.c:233-243 | setting a bit adds it to the marked set and changes nothing else |
| `Bitmap.MarkedClear` | kernel/fs/chaseros/chaseros_ext2_vol.c:233-243 | clearing a bit removes it from the marked set and changes nothing else |
| `Bitmap.BitOfIs` | kernel/fs/chaseros/chaseros_ext2_vol.c:233-243 | bit j of a byte is the j-th binary digit, the lowest first |
| `Bitmap.AllocBit` | kernel/fs/chaseros/chaseros_ext2_vol.c:797-817 | first fit: marks and returns the lowest clear bit of the range, or reports that none is clear |
| `Ext2Layout.PutInodeFrame` | kernel/fs/chaseros/chaseros_ext2_vol.c:308-321 | writing one inode changes that inode and no other of the table |
| `Ext2State.ContentOfChunks` | kernel/fs/chaseros/chaseros_ext2_vol.c:938-956 | blocks that hold the chunks of the data spell the data |
| `Ext2Tree.LookupOverwrite` | kernel/fs/chaseros/chaseros_ext2_vol.c:468-508 | replacing a file node changes what is found at its path, and at no other path |
| `Ext2Tree.LookupAdd` | kernel/fs/chaseros/chaseros_ext2_vol.c:468-508 | a new directory entry makes one path appear; every other path keeps its kind and bytes |
| `Ext2Alloc.FreeInodeBlocks` | kernel/fs/chaseros/chaseros_ext2_vol.c:819-837 | the blocks of the inode, and only they, become clear, both free counts follow, the pointers are zeroed |
| `Ext2Alloc.TakeBlock` | kernel/fs/chaseros/chaseros_ext2_vol.c:797-806 | takes the lowest clear block from 23 on and keeps counters and pointers in step, or fails when none is clear |
| `Ext2Alloc.TakeInode` | kernel/fs/chaseros/chaseros_ext2_vol.c:808-817 | succeeds exactly if the free count is positive, and takes the lowest clear inode above 11 with all counts in step |
| `Ext2Alloc.SpaceExact` | kernel/fs/chaseros/chaseros_ext2_vol.c:797-806 | first fit finds n blocks exactly if n blocks from 23 on are clear |
| `Ext2Commit.OverwriteInv` | kernel/fs/chaseros/chaseros_ext2_vol.c:894-966 | overwriting a file keeps the whole metadata invariant |
| `Ext2Commit.OverwriteDirBreaks` | kernel/fs/chaseros/chaseros_ext2_vol.c:894-966 | overwriting a directory breaks it: the directory count stays one too high |
| `Ext2Commit.AddedInv` | kernel/fs/chaseros/chaseros_ext2_vol.c:899-966 | a completed creation of a file or directory keeps the invariant and adds one node |
| `Ext2Format.FormatOk` | kernel/fs/chaseros/chaseros_ext2_vol.c:523-636 | the image that format writes meets the invariant and holds the root and lost+found |
| `Ext2Results.OverwriteChanges` | kernel/fs/chaseros/chaseros_ext2_vol.c:894-966 | after an overwrite exactly one path has changed, and it holds the new bytes |
| `Ext2Results.AddChanges` | kernel/fs/chaseros/chaseros_ext2_vol.c:899-966 | after a creation exactly one path has changed |
| `Ext2Results.StrandedName` | kernel/fs/chaseros/chaseros_ext2_vol.c:923-942 | a creation that runs out of blocks leaves a name whose inode was never written, so the volume is not formatted |
| `Ext2Results.StrandedBlocks` | kernel/fs/chaseros/chaseros_ext2_vol.c:894-942 | an overwrite that runs out of blocks leaves an inode, of a file or a directory, whose blocks are marked free |
| `Ext2Results.EmptyTargetSafe` | kernel/fs/chaseros/chaseros_ext2_vol.c:894-942 | the one exception: an overwrite of an empty file that runs out of blocks changes nothing that can be seen |
| `Ext2Results.OutOfSpace` | kernel/fs/chaseros/chaseros_ext2_vol.c:894-942 | without enough blocks the volume stays formatted if and only if the target owned no block |
| `Ext2Results.MeetsDirectory` | kernel/fs/chaseros/chaseros_ext2_vol.c:886-898 | a write that meets a directory is a write to the path of a directory |
| `Ext2Volume.Volume.Format` | kernel/fs/chaseros/chaseros_ext2_vol.c:523-636 | succeeds exactly for 256 to 8192 blocks, and then only "/" and "/lost+found" exist and the invariant holds |
| `Ext2Volume.Volume.LookupFinal` | kernel/fs/chaseros/chaseros_ext2_vol.c:468-508 | finds the inode that the tree of nodes leads to along the path |
| `Ext2Volume.Volume.ReadFileRange` | kernel/fs/chaseros/chaseros_ext2_vol.c:663-733 | succeeds exactly for a buffer and the path of a regular file; the answer has as many bytes as asked for or as there are, and byte k is byte offset + k of the file |
| `Ext2Volume.Volume.WriteFile` | kernel/fs/chaseros/chaseros_ext2_vol.c:839-966 | when it succeeds, what changes, what stays, how many blocks it costs and that a new name costs one inode; the volume is still formatted if and only if the write fits, is refused in time, or runs out of blocks on an empty file |
| `Ext2Volume.Volume.Mkdir` | kernel/fs/chaseros/chaseros_ext2_vol.c:968-1075 | succeeds exactly if there is a parent, no such name, an inode, a block and room for the record; otherwise nothing visible changes |
| `Ext2Run.Step` | kernel/fs/chaseros/chaseros_ext2_vol.c:839-1075 | a call succeeds exactly if it fits, and takes a volume that represents a tree to one that represents the updated tree; a refused call leaves the tree as it was if and only if it was safe to fail |
| `Ext2Run.Run` | kernel/fs/chaseros/chaseros_ext2_vol.c:523-1075 | after format and any run of calls the byte-level volume represents the tree that the calls build, under the whole metadata invariant; if the run stops, the call it stopped at did not fit, and the tree is still the one before it if and only if that call was safe to fail |
| `Ext2Run.Read` | kernel/fs/chaseros/chaseros_ext2_vol.c:663-733 | reading from the volume is reading from the tree, errors included, with length and every byte of the answer |
| `Ext2Run.ReadInPieces` | kernel/fs/chaseros/chaseros_ext2_vol.c:663-733 | two reads that meet at an offset join to the read of both |
| `Ext2Run.LastWriteWins` | kernel/fs/chaseros/chaseros_ext2_vol.c:839-966 | what was written last at a path is what is read there, whatever was done elsewhere since |
| `Ext2Numbers.CountsInNumbers` | kernel/fs/chaseros/chaseros_ext2_vol.c:523-636 | on a formatted volume the fields at fixed bytes of superblock and group descriptor count the clear bits of the bitmaps |
| `Ext2Numbers.FileInNumbers` | kernel/fs/chaseros/chaseros_ext2_vol.c:296-321 | mode, size and links of a file at their bytes of the inode table, and each byte of the file in the block that the inode names for it |
| `Ext2Numbers.DirectoryInNumbers` | kernel/fs/chaseros/chaseros_ext2_vol.c:296-321 | mode, size and block of a directory at their bytes, and its entries in that block |
| `Ext2Numbers.RecordInNumbers` | kernel/fs/chaseros/chaseros_ext2_vol.c:335-373 | where the j-th record of a directory block lies, and what it holds at which byte |
| `Ext2Numbers.FreshInNumbers` | kernel/fs/chaseros/chaseros_ext2_vol.c:523-636 | blocks, inodes and records of a volume that has just been formatted |
| `Ext2Numbers.NewFits` | kernel/fs/chaseros/chaseros_ext2_vol.c:899-942 | a new file or directory fits exactly if an inode is free, the rounded record fits the block, and there are blocks for the bytes |
| `Ext2Numbers.OldFits` | kernel/fs/chaseros/chaseros_ext2_vol.c:894-942 | an overwrite fits exactly if there are blocks for the bytes, counting those of the old file |
| `Ext2Run.WriteOntoDirectory` | kernel/fs/chaseros/chaseros_ext2_vol.c:894-898 | on every freshly formatted volume, writing /lost+found leaves a volume that is not formatted |
| `Ext2Run.RunOutOfBlocks` | kernel/fs/chaseros/chaseros_ext2_vol.c:923-942 | a volume of 256 blocks takes 19 files of 12 blocks; the write of the 20th leaves it not formatted |
| `ExtentTree.ExtentBitmap.constructor` | kernel/fs/lib/ext2fs/blkmap64_rb.c:187-208 | a new tree is empty and its cursors are null |
| `ExtentTree.ExtentBitmap.InsertExtent` | kernel/fs/lib/ext2fs/blkmap64_rb.c:397-499 | set union with the range; extents stay sorted, non-empty, apart; cursors stay coherent; reports whether the first bit was set |
| `ExtentTree.ExtentBitmap.AbsorbRight` | kernel/fs/lib/ext2fs/blkmap64_rb.c:467-497 | the merge loop swallows exactly the extents that the new one reaches |
| `ExtentTree.ExtentBitmap.RemoveExtent` | kernel/fs/lib/ext2fs/blkmap64_rb.c:501-583 | set difference with the range, same invariant; reports whether a bit of the closed range was set |
| `ExtentTree.ExtentBitmap.Split` | kernel/fs/lib/ext2fs/blkmap64_rb.c:525-536 | removing from the inside of an extent leaves its two ends |
| `ExtentTree.ExtentBitmap.TestBit` | kernel/fs/lib/ext2fs/blkmap64_rb.c:334-395 | set membership, whatever the read cursors remember, and no bit changes |
| `ExtentTree.ExtentBitmap.Truncate` | kernel/fs/lib/ext2fs/blkmap64_rb.c:291-310 | keeps exactly the bits up to the new maximum |
| `ExtentTree.ExtentBitmap.Clear` | kernel/fs/lib/ext2fs/blkmap64_rb.c:814-825 | no bit is set and no cursor dangles |
| `ExtentTree.ExtentBitmap.TestClear` | kernel/fs/lib/ext2fs/blkmap64_rb.c:647-701 | true if and only if no bit of the range is set |
| `ExtentTree.ExtentBitmap.FindFirstZero` | kernel/fs/lib/ext2fs/blkmap64_rb.c:827-861 | the answer of a bit-by-bit scan if and only if the tree is not empty or the range is invalid |
| `ExtentTree.NoZeroInEmpty` | kernel/fs/lib/ext2fs/blkmap64_rb.c:827-861 | for every range an empty tree reports no clear bit |
| `ExtentTree.ExtentBitmap.FindFirstSet` | kernel/fs/lib/ext2fs/blkmap64_rb.c:863-909 | the answer of a bit-by-bit scan |
| `Extents.Merged` | kernel/fs/lib/ext2fs/blkmap64_rb.c:397-499 | a run of extents replaced by its union with a range: sorted, and exactly the range added |
| `Extents.CutBlockAndFront` | kernel/fs/lib/ext2fs/blkmap64_rb.c:556-580 | deleting inner extents and trimming the last removes exactly the range |
| `ExtentRun.Bitmap.MarkRange` | kernel/fs/lib/ext2fs/blkmap64_rb.c:585-596 | union on bit numbers, with the start of the bitmap taken off |
| `ExtentRun.Bitmap.UnmarkRange` | kernel/fs/lib/ext2fs/blkmap64_rb.c:598-610 | difference on bit numbers; it reports a set bit of the closed range, which is right if and only if a bit of the range was set or the one behind it was not |
| `ExtentRun.Bitmap.Resize` | kernel/fs/lib/ext2fs/blkmap64_rb.c:312-332 | drops the bits beyond the smaller end and sets the padding behind the new one |
| `ExtentRun.Bitmap.Run` | kernel/fs/lib/ext2fs/blkmap64_rb.c:312-645 | every run of mark, unmark, range mark and unmark, test, clear and resize behaves, answers included, as on a plain set |
| `ExtentRun.ReportsBitBehind` | kernel/fs/lib/ext2fs/blkmap64_rb.c:564-577 | a run with a wrong report: with only bit 1 set, unmarking bit 0 answers that it was set |
| `BitArray.Bits.FindFirst` | kernel/fs/lib/ext2fs/blkmap64_ba.c:327-472 | both scans, by bits, bytes and 64-bit words, give the answer of a bit-by-bit scan for every range and pointer alignment |
| `BitArray.BlankWordBytes` | kernel/fs/lib/ext2fs/blkmap64_ba.c:365-370 | a 64-bit word is all ones, or all zeros, if and only if its eight bytes are |
| `BitArray.OnIs` | kernel/fs/lib/ext2fs/blkmap64_ba.c:165-187 | bit b of the array is digit b % 8 of byte b / 8 |
| `BitArray.Bits.TestClear` | kernel/fs/lib/ext2fs/blkmap64_ba.c:211-282 | the masked test is true if and only if no bit of the range is set |
| `BitArray.MaskedByte` | kernel/fs/lib/ext2fs/blkmap64_ba.c:241-251 | a byte and a mask have no common bit if and only if none of the masked bits is set |
| `BitArray.Bits.MarkExtent` | kernel/fs/lib/ext2fs/blkmap64_ba.c:189-198 | sets exactly the bits of the range |
| `BitArray.Bits.UnmarkExtent` | kernel/fs/lib/ext2fs/blkmap64_ba.c:200-209 | clears exactly the bits of the range |
| `Scans.FirstOfUnique` | kernel/fs/lib/ext2fs/blkmap64_ba.c:327-472 | the answer of a scan is determined by the bits, so two exact scans agree |
| `Bitmaps.ArrayBitmap.constructor` | kernel/fs/lib/ext2fs/blkmap64_ba.c:71-87 | a new array shows no bit |
| `Bitmaps.ArrayBitmap.Mark` | kernel/fs/lib/ext2fs/blkmap64_ba.c:165-171 | adds the bit and reports it as it was |
| `Bitmaps.ArrayBitmap.Unmark` | kernel/fs/lib/ext2fs/blkmap64_ba.c:173-179 | removes the bit and reports it as it was |
| `Bitmaps.ArrayBitmap.Test` | kernel/fs/lib/ext2fs/blkmap64_ba.c:181-187 | set membership |
| `Bitmaps.ArrayBitmap.Resize` | kernel/fs/lib/ext2fs/blkmap64_ba.c:124-163 | exactly which bits survive a change of size |
| `Bitmaps.ArrayResizedIs` | kernel/fs/lib/ext2fs/blkmap64_ba.c:124-163 | the same in numbers |
| `Bitmaps.ResizeRight` | kernel/fs/lib/ext2fs/blkmap64_ba.c:136-159 | array and tree show the same after a resize if and only if nothing is left over behind the allocated end |
| `Bitmaps.BitComesBack` | kernel/fs/lib/ext2fs/blkmap64_ba.c:136-159 | a bit that shrinking dropped reappears when the bitmap grows within its last byte |
| `Bitmaps.AlignedNoneBehind` | kernel/fs/lib/ext2fs/blkmap64_ba.c:136-159 | nothing is left over when the allocated end is the end of a byte |
| `Bitmaps.InsideApply` | kernel/fs/lib/ext2fs/blkmap64_rb.c:312-645 | what an operation shows depends only on the bits up to the end |
| `Bitmaps.RunBoth` | kernel/fs/lib/ext2fs/blkmap64_ba.c:124-209 | over every run the array and the tree show the same bits, and a call is answered alike if and only if it is not an unmark of a clear bit before a set one |
| `Bitmaps.FindSetBoth` | kernel/fs/lib/ext2fs/blkmap64_ba.c:401-472 | both find-first-set scans give the same answer |
| `Bitmaps.FindZeroBoth` | kernel/fs/lib/ext2fs/blkmap64_ba.c:327-398 | both find-first-zero scans give the same answer if and only if the tree is not empty |
| `Bitmaps.TestClearBoth` | kernel/fs/lib/ext2fs/blkmap64_ba.c:211-282 | both range tests give the same answer |
| `BlockMap.Inode.IndBmap` | kernel/fs/lib/ext2fs/bmap.c:36-91 | a lookup or an update one level below a pointer block |
| `BlockMap.Inode.DindBmap` | kernel/fs/lib/ext2fs/bmap.c:93-111 | the same two levels below |
| `BlockMap.Inode.TindBmap` | kernel/fs/lib/ext2fs/bmap.c:113-131 | the same three levels below |
| `BlockMap.Inode.Bmap2` | kernel/fs/lib/ext2fs/bmap.c:302-482 | which calls fail, the size check in numbers; a lookup returns what the trees map; a set changes the lookup of one logical block and keeps the trees free of sharing |
| `BlockMap.LookupDirect` | kernel/fs/lib/ext2fs/bmap.c:363-389 | direct and single indirect blocks: which pointer a lookup returns, and when it succeeds and can be set |
| `BlockMap.LookupDouble` | kernel/fs/lib/ext2fs/bmap.c:93-111 | the same for block 12 + a + q * a + r |
| `BlockMap.LookupTriple` | kernel/fs/lib/ext2fs/bmap.c:113-131 | the same for block 12 + a + a * a + (p * a + q) * a + r |
| `BlockMap.DirectSet` | kernel/fs/lib/ext2fs/bmap.c:363-369 | setting a direct block changes one lookup |
| `BlockMap.IndirectSet` | kernel/fs/lib/ext2fs/bmap.c:389-469 | setting through one, two or three indirect blocks changes the lookup of that block and of no other |
| `BlockMap.PathInjective` | kernel/fs/lib/ext2fs/bmap.c:389-469 | different logical blocks take different ways through a tree |
| `BlockTree.WalkSet` | kernel/fs/lib/ext2fs/bmap.c:36-131 | in a tree without sharing, rewriting the pointer at the end of one path changes that path only |
| `BlockTree.SharingSet` | kernel/fs/lib/ext2fs/bmap.c:36-131 | and the tree stays free of sharing |
| `BlockTree.DigitsInjective` | kernel/fs/lib/ext2fs/bmap.c:93-131 | the quotients and remainders that index the levels determine the block number |
| `BlockIterate.Context.IterateInd` | kernel/fs/lib/ext2fs/block.c:60-147 | the calls, the count and the error state of one pointer block |
| `BlockIterate.Context.IterateDind` | kernel/fs/lib/ext2fs/block.c:149-233 | the same for a doubly indirect block |
| `BlockIterate.Context.IterateTind` | kernel/fs/lib/ext2fs/block.c:235-319 | the same for a triply indirect block |
| `BlockIterate.Context.Iterate` | kernel/fs/lib/ext2fs/block.c:520-567 | with valid pointers the data calls cover the map and the code is 0; an error is reported if and only if the last tree present has a bad pointer |
| `BlockIterate.CoversExactly` | kernel/fs/lib/ext2fs/block.c:520-567 | the data calls are exactly the pairs of a logical block and its non-zero lookup, each once, in increasing order |
| `BlockIterate.LookupSucceeds` | kernel/fs/lib/ext2fs/bmap.c:36-131 | with valid indirect blocks every lookup in range succeeds, so both traversals see the same map |
| `BlockIterate.NothingRefused` | kernel/fs/lib/ext2fs/bmap.c:280-300 | with blocks of at most 4096 bytes the trees end below the limit of 2^32 - 1 blocks |
| `BlockIterate.IterateAndLookup` | kernel/fs/lib/ext2fs/block.c:520-567 | for every logical block: the calls of the iteration give it a block exactly if ext2fs_bmap2 finds that block |
| `BlockIterate.RootCall` | kernel/fs/lib/ext2fs/block.c:149-319 | the call for an indirect block comes before those under it, after them in a depth traversal, and not at all for data only |
| `BlockIterate.DataOnlyCalls` | kernel/fs/lib/ext2fs/block.c:60-319 | with data only every call is for a data block |
| `BlockIterate.RefOffExact` | kernel/fs/lib/ext2fs/block.c:149-319 | the reported offset is the pointer offset if and only if the level is the lowest or no hole came before |
| `BlockIterate.ErrorForgotten` | kernel/fs/lib/ext2fs/block.c:534-553 | for every block size there is an inode with a bad tree whose iteration reports success |
| `GroupStats.InGroup` | kernel/fs/lib/ext2fs/blknum.c:20-44 | a block lies between the first and the last block of the group computed for it |
| `GroupStats.SizeIs` | kernel/fs/lib/ext2fs/blknum.c:49-63 | the block count of a group is its last block minus its first plus one |
| `GroupStats.Stats.GetFree` | kernel/fs/lib/ext2fs/blknum.c:361-369 | reads the count from its halves |
| `GroupStats.Stats.SetFree` | kernel/fs/lib/ext2fs/blknum.c:374-383 | one count changes, cut to the width of its field |
| `GroupStats.Stats.AddTotal` | kernel/fs/lib/ext2fs/blknum.c:167-192 | the superblock count changes by n, within the width of its field |
| `GroupStats.GroupsPartition` | kernel/fs/lib/ext2fs/blknum.c:20-63 | the clear bits of the groups add up to the clear bits of the bitmap |
| `GroupStats.SumIsClear` | kernel/fs/lib/ext2fs/alloc_stats.c:110-154 | the sum of right group counts is the number of clear bits |
| `GroupStats.Stats.TakeFromGroup` | kernel/fs/lib/ext2fs/alloc_stats.c:133-149 | a pass of the loop takes a non-empty part of the range that lies in one group |
| `GroupStats.Stats.TakeRange` | kernel/fs/lib/ext2fs/alloc_stats.c:133-149 | the loop ends and gives each group exactly its share of the range |
| `GroupStats.ConservedExact` | kernel/fs/lib/ext2fs/alloc_stats.c:110-154 | after a range call the accounting is right if and only if the whole range was clear, or was set, before |
| `GroupStats.TakenAgain` | kernel/fs/lib/ext2fs/alloc_stats.c:110-154 | right counts are wrong after a set block is taken once more, for every geometry |
| `GroupStats.FullTaken` | kernel/fs/lib/ext2fs/alloc_stats.c:110-154 | so on the full bitmap of every geometry, with all counts zero: right before, wrong after |
| `GroupStats.Stats.AllocStatsRange` | kernel/fs/lib/ext2fs/alloc_stats.c:110-154 | the new bitmap and counts exactly, and that if and only if |
| `GroupStats.Stats.AllocStats` | kernel/fs/lib/ext2fs/alloc_stats.c:61-87 | after a single-block call the accounting is right if and only if the change given is the change the bitmap made |
| `GroupStats.Stats.ThereAndBack` | kernel/fs/lib/ext2fs/alloc_stats.c:110-154 | taking a range and giving it back restores the bitmap and every count |
| `GroupStats.Stats.Run` | kernel/fs/lib/ext2fs/alloc_stats.c:110-154 | over every run of ready ranges all counts stay right |
| `Messages.PackI64` | kernel/hybrid_ipc.c:19-24 | the little-endian bytes of the two's complement value |
| `Messages.UnpackI64` | kernel/hybrid_ipc.c:11-17 | the value of those bytes |
| `Messages.PackUnpack` | kernel/hybrid_ipc.c:11-24 | unpacking undoes packing for every 64-bit value |
| `Messages.FillOpen` | kernel/hybrid_ipc.c:26-38 | the request carries the path, cut to 47 bytes and terminated |
| `Messages.OpenPayloadIs` | kernel/hybrid_ipc.c:26-38 | the same, byte by byte |
| `Messages.ReadPath` | kernel/hybrid_ipc.c:62-71 | the service reads the bytes up to the terminator |
| `Messages.OpenPath` | kernel/hybrid_ipc.c:26-71 | the service opens the path that the client asked for, cut to 47 bytes |
| `Messages.OpenAnswer` | kernel/hybrid_ipc.c:62-91 | the client unpacks exactly the descriptor or error that the service packed |
| `Tasks.Schedule` | kernel/process.c:279-295 | runs the nearest ready task in cyclic order and changes no other state; without a ready task neither table nor current task changes |
| `Messages.RespondIs` | kernel/hybrid_ipc.c:62-91 | PING is answered by PONG and any other type by NOP with the same payload, an open by the descriptor in its first eight bytes |
| `Tasks.ChosenSoon` | kernel/process.c:279-295 | a task that stays ready is chosen within as many calls as it is places behind, so within 16, whatever the others do |
| `Tasks.AlwaysOneRunning` | kernel/process.c:279-295 | in every sequence of calls at most one task runs and it is the current one, if nothing else sets tasks running |
| `Ipc.Kernel.FindByPid` | kernel/process.c:65-72 | the task with the pid, or none |
| `Ipc.Kernel.CurrentTaskForIpc` | kernel/process.c:241-255 | the PCB that the caller stands for |
| `Ipc.Kernel.SenderDequeue` | kernel/ipc.c:38-50 | removes exactly the first sender that matches; the others keep their order |
| `Ipc.Kernel.Send` | kernel/ipc.c:73-104 | error, delivery or queueing, each exactly when, and the whole new table and queues |
| `Ipc.Kernel.Receive` | kernel/ipc.c:106-137 | buffered message, queued sender or blocking, each exactly when; a receive from anyone blocks only with nothing there |
| `Ipc.Kernel.Reply` | kernel/ipc.c:139-155 | succeeds exactly for a task that waits for a reply |
| `Ipc.Kernel.Consume` | kernel/ipc.c:67-71 | takes the message and nothing else |
| `Ipc.Kernel.Switch` | kernel/process.c:279-295 | scheduling keeps the queue invariant |
| `Ipc.EnqueueOk` | kernel/ipc.c:33-36 | queueing keeps all queues finite, acyclic and disjoint, with exactly the queued tasks sending |
| `Ipc.DequeueOk` | kernel/ipc.c:38-58 | so does taking a sender out |
| `Rpc.SameCaller` | kernel/process.c:241-255 | the PCB chosen before the send is the one chosen when the wait begins |
| `Rpc.NextKeeps` | kernel/ipc.c:60-155 | every atomic step keeps the protocol invariant |
| `Rpc.RunKeeps` | kernel/ipc.c:60-155 | so it holds in every state of every interleaving |
| `Rpc.ExactlyOnce` | kernel/isr.c:239-260 | each client has taken exactly the answers to its own requests, in order, with at most one call open |
| `Rpc.AnswersExact` | kernel/hybrid_ipc.c:55-91 | in every state of every run reply k of a client is, in numbers, what request k calls for |
| `Rpc.AnsweredCanRun` | kernel/ipc.c:139-155 | in every state of every run a client whose reply has come is ready or running, or is the active user program |
| `Rpc.NeverOverwritten` | kernel/ipc.c:9-27 | no unread message is overwritten in any run |
| `Rpc.WaitsOnSender` | kernel/isr.c:252-254 | a client waits on the PCB that it sent for |
| `Rpc.QueuesAlwaysOk` | kernel/ipc.c:33-58 | the queue invariant holds in every reachable state; a task in receive has no sender and no message |
| `Rpc.OneRunsAlways` | kernel/process.c:188-295 | in every state of every run at most one task runs, and it is the current one |
| `Overtaking.QueueStep` | kernel/ipc.c:33-50 | every step leaves the queue of the service alone, puts the caller at its head, or takes the head and works on its request |
| `Overtaking.WaitsExactly` | kernel/ipc.c:33-50 | in every run the client at place d of the queue waits in it exactly as long as the service has not taken more than d clients beyond those that came since |
| `Overtaking.TurnComes` | kernel/ipc.c:33-50 | with the step that passes that number the service works on the request of this client |
| `Starving.Starved` | kernel/ipc.c:33-50 | for every n there is a run in which the first caller is still queued and unanswered after a later caller has been served n times |
| `Starving.ContestExists` | kernel/ipc.c:33-50 | a start from which these runs begin |
| `Sheets.Ctl.RefreshMap` | kernel/drivers/sheet.c:52-88 | inside the rectangle the map names the topmost covering sheet from the given height on; outside nothing changes |
| `Sheets.Ctl.RefreshSub` | kernel/drivers/sheet.c:91-133 | inside the rectangle the given sheets draw exactly the pixels that the map gives them |
| `Layers.TopmostShows` | kernel/drivers/sheet.c:52-133 | the topmost covering layer owns the pixel and gives it its colour |
| `Sheets.Ctl.SeesBuffer` | kernel/drivers/sheet.c:77-128 | where a shown sheet is opaque and nothing above is, the frame buffer holds the entry of its buffer for that row and column, and the map its number |
| `Layers.ShowPixel` | kernel/drivers/sheet.c:170-179 | per pixel: redrawing the map from the new height and the sheet itself is enough |
| `Layers.HidePixel` | kernel/drivers/sheet.c:152-162 | per pixel: a hidden sheet is removed from map and screen |
| `Layers.LowerPixel` | kernel/drivers/sheet.c:143-151 | per pixel: only the sheets that were passed have to be drawn |
| `Layers.RaisePixel` | kernel/drivers/sheet.c:163-179 | per pixel: only the raised sheet has to be drawn |
| `Layers.SlidePixel` | kernel/drivers/sheet.c:189-200 | per pixel: the four partial redraws of a slide are enough |
| `Layers.BeyondPixel` | kernel/drivers/sheet.c:163-179 | per pixel: without a new map, right if and only if the sheet was topmost or does not cover |
| `Layers.PixelDetermined` | kernel/drivers/sheet.c:91-133 | a right pixel with a covering sheet has the colour of a repaint over any background |
| `Sheets.Ctl.Lower` | kernel/drivers/sheet.c:143-151 | order, heights, map and screen after lowering |
| `Sheets.Ctl.Hide` | kernel/drivers/sheet.c:152-162 | the same after hiding |
| `Sheets.Ctl.Raise` | kernel/drivers/sheet.c:163-179 | the same after raising within the stack |
| `Sheets.Ctl.Show` | kernel/drivers/sheet.c:170-179 | the same after showing |
| `Sheets.Ctl.RaiseBeyond` | kernel/drivers/sheet.c:163-169 | above the top the list is right if and only if the entry behind the stack is the sheet itself |
| `Sheets.Ctl.RaiseAbove` | kernel/drivers/sheet.c:163-179 | above the top order, map and screen are right if and only if besides no sheet above covers a pixel that it covers |
| `Sheets.Ctl.UpDown` | kernel/drivers/sheet.c:135-181 | every height: the height taken, the new stack, and the exact condition in the one case that can go wrong |
| `Sheets.RestackIs` | kernel/drivers/sheet.c:135-181 | in the new stack the sheet stands at its height and the others keep their order |
| `Sheets.RaiseOnlySheet` | kernel/drivers/sheet.c:163-168 | raising the only sheet above the top follows an entry that was never written |
| `Sheets.RaiseOverHidden` | kernel/drivers/sheet.c:163-169 | raising over a hidden sheet loses the sheet from the list |
| `Sheets.RaiseUnseen` | kernel/drivers/sheet.c:163-179 | raising with a right list can leave the screen wrong |
| `Sheets.Ctl.Slide` | kernel/drivers/sheet.c:189-200 | map and screen are right at the new place and at the old one |
| `Sheets.Ctl.constructor` | kernel/drivers/sheet.c:9-30 | an empty stack, and nothing in the list |
| `Sheets.Ctl.Alloc` | kernel/drivers/sheet.c:32-42 | the first unused sheet of the pool, or none |
| `Sheets.Ctl.SetBuf` | kernel/drivers/sheet.c:44-49 | a new buffer for a hidden sheet is not seen |
| `Sheets.Ctl.Free` | kernel/drivers/sheet.c:202-207 | a freed sheet is hidden first |
| `Sheets.Ctl.Run` | kernel/drivers/sheet.c:32-207 | after every sequence of allowed calls the stack is the one they describe, each sheet has its height, and map and screen are those of a full repaint |
| `Sheets.Ctl.ScreenIsRepaint` | kernel/drivers/sheet.c:52-133 | where a shown sheet covers, map and screen equal a bottom-to-top repaint over any background |
| `Crc32c.CrcConcat` | kernel/fs/lib/ext2fs/crc32c.c:153-190 | the sum over two pieces is the sum over the second seeded with that over the first |
| `Crc32c.BitsAtOnce` | kernel/fs/lib/ext2fs/crc32c.c:161-183 | several bits at once are the shifted rest plus a table entry |
| `Crc32c.CrcWord` | kernel/fs/lib/ext2fs/crc32c.c:120-130 | four bytes at once are 32 single-bit steps |
| `Crc32c.TabRow` | kernel/fs/lib/ext2fs/gen_crc32ctable.c:33-52 | each further table row follows from the one before, as the generator computes it |
| `Crc32c.TabSum` | kernel/fs/lib/ext2fs/gen_crc32ctable.c:33-52 | the entries of row 0 are linear, as the generator uses |
| `Crc32cTable.EntrySum` | kernel/fs/lib/ext2fs/gen_crc32ctable.c:40-44 | the entry of a power of two plus a multiple of twice that power is the sum of the two entries |
| `Crc32cTable.PowerDown` | kernel/fs/lib/ext2fs/gen_crc32ctable.c:40-41 | the entry of each power of two is one more step from that of the power above it |
| `Crc32cTable.InitTable` | kernel/fs/lib/ext2fs/gen_crc32ctable.c:33-52 | the generator, for every number of bits at a time: each entry of each row is what the one-bit definition makes of its index |
| `Crc32c.Body` | kernel/fs/lib/ext2fs/crc32c.c:83-143 | slicing by four or eight equals the one-bit definition for every polynomial, seed, buffer, length and start address |
| `Crc32c.Generic` | kernel/fs/lib/ext2fs/crc32c.c:153-190 | the 1, 2, 4 and 8 bit variants equal the one-bit definition |
| `Crc32c.Crc32cLe` | kernel/fs/lib/ext2fs/crc32c.c:192-195 | every build of the function computes CRC32C with its polynomial |
| `Crc32c.TopBitSum` | kernel/fs/lib/ext2fs/crc32c.c:153-190 | the sum over the byte 0x80 from seed 0 is the polynomial |
| `Crc32c.CheckValue` | kernel/fs/lib/ext2fs/crc32c.c:192-195 | a check value of CRC32C as a number |
| `Crc32c.InPieces` | kernel/fs/lib/ext2fs/crc32c.c:192-195 | and may be fed in pieces at any addresses |
| `Digest.TableIs` | kernel/fs/lib/ext2fs/digest_encode.c:23-24 | the character table: the ends of its four ranges, and order within each |
| `Digest.SameNumber` | kernel/fs/lib/ext2fs/digest_encode.c:32-50 | the encoding of a string of bytes is the same number in base 64, lowest digit first |
| `Digest.Encode` | kernel/fs/lib/ext2fs/digest_encode.c:32-50 | the text of the six-bit groups of the bytes |
| `Digest.Decode` | kernel/fs/lib/ext2fs/digest_encode.c:52-74 | the bytes, or an error exactly for a foreign character or non-zero bits left over |
| `Digest.EncodedLength` | kernel/fs/lib/ext2fs/digest_encode.c:32-50 | n bytes give 4n/3 characters, rounded up |
| `Digest.RoundTrip` | kernel/fs/lib/ext2fs/digest_encode.c:32-74 | decoding the six-bit numbers of an encoding gives the bytes back |
| `Digest.TextRoundTrip` | kernel/fs/lib/ext2fs/digest_encode.c:32-74 | decoding the text of an encoding gives the bytes back |
| `Digest.ReverseTrip` | kernel/fs/lib/ext2fs/digest_encode.c:32-74 | encoding decoded numbers gives them back if and only if their count is not 1 modulo 4 |
| `Digest.TextReverseTrip` | kernel/fs/lib/ext2fs/digest_encode.c:32-74 | encoding what a text decodes to gives the text back if and only if its length is not 1 modulo 4 |
| `Digest.LoneLetter` | kernel/fs/lib/ext2fs/digest_encode.c:52-74 | the text "A" is accepted and stands for no bytes |
| `Package.LocateSection` | kernel/fs/cnaf/cnaf_image.c:19-55 | for every byte string the answer of the first entry of the type, errors and wrapped sums included; a range that it returns lies in the file; it succeeds if and only if the header bytes and the first entry of the type meet conditions written out in numbers |
| `Package.PackExtract` | scripts/pack-cnpk.py:14-51 | extracting from any packed manifest and image returns both, for programs and for libraries |
| `Package.LocateExact` | kernel/fs/cnaf/cnaf_image.c:19-55 | success and range of the section search, in numbers |
| `Package.Refusals` | kernel/fs/cnaf/cnaf_validate.c:15-55 | which error a bad length, magic, version or kind gives |
| `Package.HeaderFields` | kernel/fs/cnaf/cnaf_validate.c:15-55 | the parser reads back the header fields that the packer wrote |
| `Image.Copy` | kernel/fs/cnaf/cnab_load.c:7-11 | memory is patched with the bytes and otherwise unchanged |
| `Image.LoadSegments` | kernel/fs/cnaf/cnab_load.c:51-60 | each accepted segment is placed with its zero tail, up to the first bad one |
| `Image.ApplyRelas` | kernel/fs/cnaf/cnab_load.c:13-29 | each relative relocation is applied, up to the first of another type |
| `Image.LoadFlat` | kernel/fs/cnaf/cnab_load.c:31-68 | verdict, memory and entry point exactly as the image says |
| `Image.LoadStreaming` | kernel/fs/cnaf/cnab_load.c:70-125 | when it accepts it has done what the flat loader does; with a reader that does not fail it accepts exactly what has at most 16 segments, no relocations and loads flat |
| `Image.StreamBytes` | kernel/fs/cnaf/cnab_load.c:103-113 | chunks of 2048 bytes add up to the whole segment |
| `Image.WrongPass` | kernel/fs/cnaf/cnab_load.c:46-54 | the check of a 64-bit sum passes what does not fit if and only if the sum wraps around to a small one |
| `Image.OutsidePasses` | kernel/fs/cnaf/cnab_load.c:46-54 | for every payload an image that passes the header check and the segment check although its segment lies outside it |
| `ImageBytes.LoadsExactly` | kernel/fs/cnaf/cnab_load.c:31-68 | which images load, by the numbers that they hold at fixed places, and where they are entered |
| `ImageBytes.LoadedByte` | kernel/fs/cnaf/cnab_load.c:51-60 | a byte of memory comes from the last segment over it: from the file, or zero behind its bytes |
| `ImageBytes.ByteOutside` | kernel/fs/cnaf/cnab_load.c:31-68 | a byte under no segment and no relocation is as it was |
| `ImageBytes.LoadedSite` | kernel/fs/cnaf/cnab_load.c:13-29 | a relocation leaves base plus addend at base plus offset |
| `Image.WrapLoad` | scripts/wrap-cnim.py:16-46 | a wrapped payload loads as itself at its base, nothing else changes, and the entry is base plus offset |
| `Image.PackLoad` | scripts/pack-cnpk.py:14-51 | packing, extracting and loading puts every program where it was built for |

## Findings

Where the code does not do what its interface promises, the exact condition under which it does is proved, with an input
for which it does not.

- Writing a file onto a directory is not refused (`kernel/fs/chaseros/chaseros_ext2_vol.c:894-898`). The volume is never
  formatted afterwards, whether the call succeeds or not: `Ext2Volume.Volume.WriteFile`, `Ext2Run.WriteOntoDirectory`.
- A write that runs out of blocks has already written the directory entry or the bitmap. The volume stays formatted if
  and only if the target is an existing empty file: `Ext2Volume.Volume.WriteFile`, `Ext2Results.OutOfSpace`,
  `Ext2Run.RunOutOfBlocks`.
- Paths of more than 32 names lose the rest, and components above 127 bytes are cut: `Path.DeepPathsAreCut`,
  `Path.LongNamesAreSplit`. With components of at most 127 bytes the result is the usual meaning if and only if the
  components behind the 32nd name put back what they take off: `Path.NormalizeExact`. A name above 127 bytes in the
  meaning is never there in the result: `Path.BeyondLimits`.
- `rb_find_first_zero` reports an empty tree as having no clear bit; it is right if and only if the tree is not empty:
  `ExtentTree.ExtentBitmap.FindFirstZero`, `ExtentTree.NoZeroInEmpty`, `Bitmaps.FindZeroBoth`.
- `rb_unmark_bmap` reports a clear bit as set if and only if the next bit is set: `ExtentRun.Bitmap.UnmarkRange`,
  `ExtentRun.ReportsBitBehind`, and step by step over runs `Bitmaps.RunBoth`.
- Resizing the bit array brings back a dropped bit if the allocated end lies inside a byte: `Bitmaps.ResizeRight`,
  `Bitmaps.BitComesBack`.
- An iteration forgets the error of an earlier tree, because a later tree resets it: `BlockIterate.Context.Iterate`,
  `BlockIterate.ErrorForgotten`. The byte offsets passed to the callback for upper levels skip holes:
  `BlockIterate.RefOffExact`.
- The group counts are right after a range call if and only if the whole range was clear, or set, before:
  `GroupStats.ConservedExact`, `GroupStats.TakenAgain`, `GroupStats.FullTaken`.
- Raising a shown sheet above the top reads the list behind its end. It is right if and only if the entry there is the
  sheet itself and no sheet above it covers a pixel that it covers: `Sheets.Ctl.UpDown`, with one scene for each way to
  fail, `Sheets.RaiseOnlySheet`, `Sheets.RaiseOverHidden`, `Sheets.RaiseUnseen`.
- The digest decoder accepts texts that no encoder produces, those of length 1 modulo 4: `Digest.TextReverseTrip`,
  `Digest.LoneLetter`.
- The loaders check 64-bit sums that may wrap around: `Image.WrongPass`, `Image.OutsidePasses`.
- Senders queue last in, first out, so a client can be overtaken without end: `Starving.Starved`. It waits exactly as
  long as the service has not taken more clients, beyond those that came since, than stood before it:
  `Overtaking.WaitsExactly`.

## Left out

- Disk, port and memory-mapped I/O, boot, interrupts, console, shell and user interface.
- Read and write errors of the volume backend: the volume is a RAM volume, whose block transfers do not fail.
- `chaseros_ext2_ls_at`, `chaseros_ext2_stat_file` and `chaseros_ext2_path_is_dir`: they would only add easy members beside lookup and read.
- Time stamps, the volume label and other fields of superblock and inodes that no operation reads.
- `rb_copy_bmap`, `rb_set_bmap_range`, `rb_get_bmap_range`, `ba_set_bmap_range` and `ba_get_bmap_range`.
- The balancing of the red-black tree: the search is modelled by any descent that halves an ordered list.
- 64-bit wrap-around of the ends of extents: bit numbers are unbounded.
- BMAP_ALLOC and the allocation of indirect blocks in `ext2fs_bmap2`; bigalloc, extent-mapped and inline inodes.
- Callbacks of `ext2fs_block_iterate3` that change or abort, BLOCK_FLAG_APPEND and the HURD translator block.
- BlockMap.Inode.Bmap2: what a set does to a tree in which blocks are shared is not stated, because one write then changes several lookups.
- Group descriptor checksums, the inode counts of `alloc_stats.c` and its callbacks.
- GroupStats.Stats.AllocStatsRange: a range that begins before the first data block is not modelled, because its group number is then not that of any group.
- Exit, rebinding and creation of processes while they are in a call, and IPC with a service that filters its senders within whole runs; a single receive is modelled for every filter.
- Rpc.NextKeeps: while a user program is active only the thread that hosts it calls; another kernel thread would be given the PCB of the program by `process_current_task_for_ipc` and is not modelled.
- Path.NormalizeExact: paths with a component above 127 bytes that a later ".." removes from the meaning are left out; Path.CappedIsPrefix says what the code makes of them.
- `sheet_refresh`, and `sheet_setbuf` on a sheet that is shown: the caller has to redraw.
- Sheets.Ctl.Run: raises of a shown sheet above the top are not among its calls, because Sheets.Ctl.UpDown states exactly what they do.
- The big-endian CRC, and the generated table files: Crc32cTable.InitTable is the generator.
- Image.LoadFlat: images in which a 64-bit sum of the header or of a segment wraps around, or that name addresses outside memory, are not modelled; Image.WrongPass says which pass the checks.
- Image.LoadStreaming: the same images, and memory after a failed read.
- Resolution of a package's dependencies, dynamic loading, and the older container format of the scripts.
