/**
 Directory blocks of the ext2 volume: `dirent_put`, `find_in_root` and the scan for the append
 position, related to the list of entries a block holds.
 */
module Dirents {
  import opened Bytes
  import opened Seqs

  const BLK: nat := 1024

  datatype Dirent = Dirent(ino: nat, name: seq<byte>)

  predicate ValidEntry(d: Dirent) {
    d.ino < 0x1_0000_0000 && 0 < |d.name| < 128 && 0 !in d.name
  }

  predicate ValidEntries(es: seq<Dirent>) {
    forall i :: 0 <= i < |es| ==> ValidEntry(es[i])
  }

  /** Record length: header and name, rounded up to a multiple of four. */
  function RecLen(n: nat): (r: nat)
    ensures 8 + n <= r < 12 + n
  {
    (8 + n + 3) / 4 * 4
  }

  /** The bytes of one entry. */
  function Enc(d: Dirent): (s: seq<byte>)
    requires ValidEntry(d)
    ensures |s| == RecLen(|d.name|)
  {
    Le32(d.ino) + Le16(RecLen(|d.name|)) + Le16(|d.name|) + d.name + Zeros(RecLen(|d.name|) - 8 - |d.name|)
  }

  function EncAll(es: seq<Dirent>): seq<byte>
    requires ValidEntries(es)
  {
    if es == [] then [] else Enc(es[0]) + EncAll(es[1..])
  }

  /** The block that holds `es`, zero behind the last entry. */
  function DirBlock(es: seq<Dirent>): (s: seq<byte>)
    requires ValidEntries(es) && |EncAll(es)| <= BLK
    ensures |s| == BLK
  {
    EncAll(es) + Zeros(BLK - |EncAll(es)|)
  }

  /** The entries that a scan of `blk` from `pos` on meets. */
  function Parse(blk: seq<byte>, pos: nat): seq<Dirent>
    decreases |blk| - pos
  {
    if pos + 8 > |blk| || U16(blk, pos + 4) < 8 || pos + 8 + blk[pos + 6] > |blk| then []
    else [Dirent(U32(blk, pos), blk[pos + 8..pos + 8 + blk[pos + 6]])] + Parse(blk, pos + U16(blk, pos + 4))
  }

  /** A well-formed directory block. */
  predicate IsDirBlock(blk: seq<byte>) {
    var es := Parse(blk, 0);
    ValidEntries(es) && |EncAll(es)| <= BLK && blk == DirBlock(es)
  }

  lemma {:induction false} EncAllAppend(es: seq<Dirent>, fs: seq<Dirent>)
    requires ValidEntries(es) && ValidEntries(fs)
    ensures ValidEntries(es + fs) && EncAll(es + fs) == EncAll(es) + EncAll(fs)
  {
    if es == [] {
      assert es + fs == fs;
    } else {
      assert (es + fs)[1..] == es[1..] + fs;
      EncAllAppend(es[1..], fs);
      Assoc(Enc(es[0]), EncAll(es[1..]), EncAll(fs));
    }
  }

  /** The header fields of an encoded entry read back what was put there. */
  lemma EncFields(d: Dirent)
    requires ValidEntry(d)
    ensures var s := Enc(d);
            && U32(s, 0) == d.ino && U16(s, 4) == RecLen(|d.name|)
            && s[6] == |d.name| && s[7] == 0 && s[8..8 + |d.name|] == d.name
  {
    var s := Enc(d);
    var n := |d.name|;
    Le32RoundTrip(d.ino);
    Le16RoundTrip(RecLen(n));
    assert s[..4] == Le32(d.ino) && s[4..6] == Le16(RecLen(n)) && s[6..8] == Le16(n);
    assert s[8..8 + n] == d.name;
    forall i | 0 <= i < 8 ensures s[i] ==
      if i < 4 then s[..4][i] else if i < 6 then s[4..6][i - 4] else s[6..8][i - 6] {}
  }

  /** What stands at the start of the suffix of a buffer that begins with an entry. */
  lemma FieldsAt(blk: seq<byte>, pos: nat, d: Dirent)
    requires ValidEntry(d) && pos + |Enc(d)| <= |blk| && blk[pos..pos + |Enc(d)|] == Enc(d)
    ensures U32(blk, pos) == d.ino && U16(blk, pos + 4) == RecLen(|d.name|)
    ensures blk[pos + 6] == |d.name| && blk[pos + 7] == 0
    ensures blk[pos + 8..pos + 8 + |d.name|] == d.name
  {
    EncFields(d);
    var s := blk[pos..pos + |Enc(d)|];
    forall i | 0 <= i < |s| ensures blk[pos + i] == s[i] {}
    assert s[8..8 + |d.name|] == blk[pos + 8..pos + 8 + |d.name|];
  }

  /** Where the i-th entry starts. */
  function Offset(es: seq<Dirent>, i: nat): nat
    requires ValidEntries(es) && i <= |es|
  {
    |EncAll(es[..i])|
  }

  lemma SplitAt(es: seq<Dirent>, i: nat)
    requires ValidEntries(es) && i < |es|
    ensures EncAll(es[..i + 1]) == EncAll(es[..i]) + Enc(es[i])
    ensures EncAll(es) == EncAll(es[..i + 1]) + EncAll(es[i + 1..])
  {
    TakeSnoc(es, i);
    EncAllAppend(es[..i], [es[i]]);
    EncSingle(es[i]);
    TakeDrop(es, i + 1);
    EncAllAppend(es[..i + 1], es[i + 1..]);
  }

  lemma OffsetStep(es: seq<Dirent>, i: nat)
    requires ValidEntries(es) && i < |es|
    ensures Offset(es, i + 1) == Offset(es, i) + RecLen(|es[i].name|) <= |EncAll(es)|
    ensures EncAll(es)[Offset(es, i)..Offset(es, i + 1)] == Enc(es[i])
  {
    SplitAt(es, i);
  }

  lemma OffsetEnd(es: seq<Dirent>)
    requires ValidEntries(es)
    ensures Offset(es, |es|) == |EncAll(es)|
  {
    assert es[..|es|] == es;
  }

  lemma EntryBytes(es: seq<Dirent>, i: nat, blk: seq<byte>, pos: nat, n: nat)
    requires ValidEntries(es) && |EncAll(es)| <= BLK && i < |es|
    requires blk == DirBlock(es) && pos == Offset(es, i) && n == Offset(es, i + 1)
    ensures n == pos + RecLen(|es[i].name|) <= BLK && |Enc(es[i])| == n - pos
    ensures |blk| == BLK && blk[pos..n] == Enc(es[i])
  {
    OffsetStep(es, i);
    assert blk[pos..n] == EncAll(es)[pos..n];
  }

  lemma EntryAt(es: seq<Dirent>, i: nat)
    requires ValidEntries(es) && |EncAll(es)| <= BLK && i < |es|
    ensures var blk, pos, d := DirBlock(es), Offset(es, i), es[i];
            && pos + RecLen(|d.name|) == Offset(es, i + 1) <= BLK
            && U32(blk, pos) == d.ino && U16(blk, pos + 4) == RecLen(|d.name|)
            && blk[pos + 6] == |d.name| && blk[pos + 7] == 0
            && blk[pos + 8..pos + 8 + |d.name|] == d.name
  {
    var blk, pos, n := DirBlock(es), Offset(es, i), Offset(es, i + 1);
    EntryBytes(es, i, blk, pos, n);
    FieldsAt(blk, pos, es[i]);
  }

  lemma EndAt(es: seq<Dirent>)
    requires ValidEntries(es) && |EncAll(es)| <= BLK
    ensures var pos := |EncAll(es)|; pos + 8 <= BLK ==> U16(DirBlock(es), pos + 4) == 0
  {
  }

  lemma ParseStep(blk: seq<byte>, pos: nat, d: Dirent)
    requires pos + 8 + |d.name| <= |blk|
    requires U32(blk, pos) == d.ino && U16(blk, pos + 4) == RecLen(|d.name|)
    requires blk[pos + 6] == |d.name| && blk[pos + 8..pos + 8 + |d.name|] == d.name
    ensures Parse(blk, pos) == [d] + Parse(blk, pos + RecLen(|d.name|))
  {
  }

  lemma {:induction false} ParseFrom(es: seq<Dirent>, i: nat, blk: seq<byte>)
    requires ValidEntries(es) && |EncAll(es)| <= BLK && i <= |es| && blk == DirBlock(es)
    ensures Parse(blk, Offset(es, i)) == es[i..]
    decreases |es| - i
  {
    if i == |es| {
      OffsetEnd(es);
      EndAt(es);
    } else {
      EntryAt(es, i);
      ParseStep(blk, Offset(es, i), es[i]);
      ParseFrom(es, i + 1, blk);
      UnconsAt(es, i);
    }
  }

  /** Scanning a block gives back the entries it was built from. */
  lemma ParseDirBlock(es: seq<Dirent>)
    requires ValidEntries(es) && |EncAll(es)| <= BLK
    ensures Parse(DirBlock(es), 0) == es && IsDirBlock(DirBlock(es))
  {
    assert es[..0] == [] && es[0..] == es;
    ParseFrom(es, 0, DirBlock(es));
  }

  // ---------------------------------------------------------------------------------------------
  // The code
  // ---------------------------------------------------------------------------------------------

  /** The inode of the first entry called `name`. */
  function FindEntry(es: seq<Dirent>, name: seq<byte>): Option<nat> {
    if es == [] then None
    else if es[0].name == name then Some(es[0].ino)
    else FindEntry(es[1..], name)
  }

  /** Entry `i` is the first one with the name. */
  predicate FirstNamed(es: seq<Dirent>, i: nat, name: seq<byte>) {
    i < |es| && es[i].name == name && forall j :: 0 <= j < i ==> es[j].name != name
  }

  /** The inode of the first entry with the name; none exactly if no entry has it. */
  lemma {:induction false} FindsFirst(es: seq<Dirent>, name: seq<byte>)
    ensures FindEntry(es, name).None? <==> forall i :: 0 <= i < |es| ==> es[i].name != name
    ensures forall i: nat :: FirstNamed(es, i, name) ==> FindEntry(es, name) == Some(es[i].ino)
  {
    if es != [] && es[0].name != name {
      FindsFirst(es[1..], name);
      forall i: nat | FirstNamed(es, i, name)
        ensures FindEntry(es, name) == Some(es[i].ino)
      {
        assert FirstNamed(es[1..], i - 1, name);
      }
    }
  }

  lemma FindEntryStep(es: seq<Dirent>, i: nat, name: seq<byte>)
    requires i < |es|
    ensures FindEntry(es[i..], name) ==
            if es[i].name == name then Some(es[i].ino) else FindEntry(es[i + 1..], name)
  {
    UnconsAt(es, i);
  }

  lemma RecordAt(blk: seq<byte>, pos: nat, i: nat, es: seq<Dirent>)
    requires ValidEntries(es) && |EncAll(es)| <= BLK && blk == DirBlock(es)
    requires i <= |es| && pos == Offset(es, i) && pos + 8 <= BLK
    ensures i == |es| ==> U16(blk, pos + 4) == 0
    ensures i < |es| ==>
              && U32(blk, pos) == es[i].ino && U16(blk, pos + 4) == RecLen(|es[i].name|)
              && pos + RecLen(|es[i].name|) == Offset(es, i + 1) <= BLK
              && blk[pos + 6] == |es[i].name| && blk[pos + 8..pos + 8 + |es[i].name|] == es[i].name
  {
    if i < |es| {
      EntryAt(es, i);
    } else {
      OffsetEnd(es);
      EndAt(es);
    }
  }

  /** The record at `pos`, which is the i-th entry or the zero tail of the block. */
  method ReadRecord(blk: seq<byte>, pos: nat, ghost i: nat) returns (ino: nat, rec: nat, name: seq<byte>)
    requires IsDirBlock(blk) && i <= |Parse(blk, 0)| && pos == Offset(Parse(blk, 0), i) && pos + 8 <= BLK
    ensures var es := Parse(blk, 0);
            if i < |es| then
              && rec == RecLen(|es[i].name|) && pos + rec == Offset(es, i + 1)
              && ino == es[i].ino && name == es[i].name
            else rec == 0
  {
    RecordAt(blk, pos, i, Parse(blk, 0));
    ino, rec, name := U32(blk, pos), U16(blk, pos + 4), [];
    if rec >= 8 {
      var nl := blk[pos + 6];  // the name length is masked to its low byte
      name := blk[pos + 8..pos + 8 + nl];
    }
  }

  /** No entry is left once fewer than eight bytes are. */
  lemma NoRoomNoEntry(es: seq<Dirent>, i: nat)
    requires ValidEntries(es) && |EncAll(es)| <= BLK && i <= |es| && Offset(es, i) + 8 > BLK
    ensures i == |es|
  {
    if i < |es| {
      EntryAt(es, i);
    }
  }

  /** `find_in_root`: looks a name up in a directory block. */
  method FindInRoot(blk: seq<byte>, name: CStr) returns (r: Option<nat>)
    requires IsDirBlock(blk)
    ensures r == FindEntry(Parse(blk, 0), name)
  {
    var pos := 0;
    ghost var es, i := Parse(blk, 0), 0;
    assert es[..0] == [] && es[0..] == es;
    while pos + 8 <= BLK
      invariant i <= |es| && pos == Offset(es, i)
      invariant FindEntry(es[i..], name) == FindEntry(es, name)
      decreases BLK - pos
    {
      var ino, rec, nm := ReadRecord(blk, pos, i);
      if rec < 8 {
        return None;
      }
      FindEntryStep(es, i, name);
      if nm == name {
        return Some(ino);
      }
      pos := pos + rec;
      i := i + 1;
    }
    NoRoomNoEntry(es, i);
    return None;
  }

  /** The loop before an append: the offset behind the last entry. */
  method AppendPos(blk: seq<byte>) returns (pos: nat)
    requires IsDirBlock(blk)
    ensures pos == |EncAll(Parse(blk, 0))|
  {
    pos := 0;
    ghost var es, i := Parse(blk, 0), 0;
    assert es[..0] == [];
    OffsetEnd(es);
    while pos + 8 <= BLK
      invariant i <= |es| && pos == Offset(es, i)
      decreases BLK - pos
    {
      var _, rec, _ := ReadRecord(blk, pos, i);
      if rec < 8 {
        return;
      }
      pos := pos + rec;
      i := i + 1;
    }
    NoRoomNoEntry(es, i);
  }

  lemma EncSingle(d: Dirent)
    requires ValidEntry(d)
    ensures EncAll([d]) == Enc(d)
  {
    assert EncAll([d]) == Enc(d) + EncAll([]);
  }

  lemma PatchZeros(pre: seq<byte>, n: nat, t: seq<byte>)
    requires |t| <= n
    ensures Patch(pre + Zeros(n), |pre|, t) == pre + t + Zeros(n - |t|)
  {
  }

  lemma PutIsAppend(pre: seq<byte>, blk: seq<byte>, r: seq<byte>, d: Dirent)
    requires ValidEntry(d) && |pre| + |Enc(d)| <= BLK && blk == pre + Zeros(BLK - |pre|)
    requires r == Patch(Patch(Patch(Patch(blk, |pre|, Le32(d.ino)), |pre| + 4, Le16(|Enc(d)|)),
                              |pre| + 6, Le16(|d.name|)), |pre| + 8, d.name)
    ensures r == pre + Enc(d) + Zeros(BLK - |pre + Enc(d)|)
  {
    var n := BLK - |pre|;
    var p1 := pre + Le32(d.ino);
    var p2 := p1 + Le16(|Enc(d)|);
    var p3 := p2 + Le16(|d.name|);
    PatchZeros(pre, n, Le32(d.ino));
    PatchZeros(p1, n - 4, Le16(|Enc(d)|));
    PatchZeros(p2, n - 6, Le16(|d.name|));
    PatchZeros(p3, n - 8, d.name);
    EncPads(pre, d, n);
  }

  lemma EncPads(pre: seq<byte>, d: Dirent, n: nat)
    requires ValidEntry(d) && |Enc(d)| <= n
    ensures pre + Le32(d.ino) + Le16(|Enc(d)|) + Le16(|d.name|) + d.name + Zeros(n - 8 - |d.name|) ==
            pre + Enc(d) + Zeros(n - |Enc(d)|)
  {
  }

  lemma DirBlockAppend(es: seq<Dirent>, d: Dirent, r: seq<byte>)
    requires ValidEntries(es) && ValidEntry(d) && |EncAll(es)| + |Enc(d)| <= BLK
    requires r == EncAll(es) + Enc(d) + Zeros(BLK - |EncAll(es) + Enc(d)|)
    ensures IsDirBlock(r) && Parse(r, 0) == es + [d]
    ensures ValidEntries(es + [d]) && |EncAll(es + [d])| == |EncAll(es)| + |Enc(d)|
  {
    EncAllAppend(es, [d]);
    EncSingle(d);
    assert r == DirBlock(es + [d]);
    ParseDirBlock(es + [d]);
  }

  /** `dirent_put` behind the last entry of a block: the block then holds one entry more. */
  method DirentPut(blk: seq<byte>, off: nat, ino: nat, name: CStr) returns (r: seq<byte>, off': nat)
    requires IsDirBlock(blk) && off == |EncAll(Parse(blk, 0))|
    requires 0 < |name| < 128 && ino < 0x1_0000_0000
    requires off + RecLen(|name|) <= BLK
    ensures IsDirBlock(r) && Parse(r, 0) == Parse(blk, 0) + [Dirent(ino, name)]
    ensures off' == off + RecLen(|name|) == |EncAll(Parse(r, 0))|
  {
    var rec := RecLen(|name|);
    r := Patch(blk, off, Le32(ino));
    r := Patch(r, off + 4, Le16(rec));
    r := Patch(r, off + 6, Le16(|name|));
    r := Patch(r, off + 8, name);
    off' := off + rec;
    PutIsAppend(EncAll(Parse(blk, 0)), blk, r, Dirent(ino, name));
    DirBlockAppend(Parse(blk, 0), Dirent(ino, name), r);
  }

  lemma EmptyBlock()
    ensures IsDirBlock(Zeros(BLK)) && Parse(Zeros(BLK), 0) == [] && EncAll([]) == []
  {
    assert DirBlock([]) == Zeros(BLK);
    ParseDirBlock([]);
  }

  /** The append path of both writers: None when the block has no room for the record. */
  method AppendEntry(blk: seq<byte>, ino: nat, name: CStr) returns (r: Option<seq<byte>>)
    requires IsDirBlock(blk) && 0 < |name| < 128 && ino < 0x1_0000_0000
    ensures r.Some? <==> |EncAll(Parse(blk, 0))| + RecLen(|name|) <= BLK
    ensures r.Some? ==>
      |r.value| == BLK && IsDirBlock(r.value) && Parse(r.value, 0) == Parse(blk, 0) + [Dirent(ino, name)]
  {
    var pos := AppendPos(blk);
    if pos + RecLen(|name|) > BLK {
      return None;
    }
    var b, _ := DirentPut(blk, pos, ino, name);
    return Some(b);
  }

  /** A fresh directory block: "." and ".." in a zeroed buffer. */
  method NewDirBlock(self: nat, parent: nat) returns (r: seq<byte>)
    requires self < 0x1_0000_0000 && parent < 0x1_0000_0000
    ensures |r| == BLK && IsDirBlock(r) && Parse(r, 0) == [Dirent(self, [46]), Dirent(parent, [46, 46])]
  {
    EmptyBlock();
    var off;
    r, off := DirentPut(Zeros(BLK), 0, self, [46]);
    r, off := DirentPut(r, off, parent, [46, 46]);
  }
}
