/**
 Whole runs: format, then any sequence of successful `mkdir` and `write_file` calls, refines a map from
 paths to directories and byte strings.
 */
module Ext2Run {
  import opened Bytes
  import opened Seqs
  import opened Path
  import opened Dirents
  import opened Ext2Tree
  import opened Ext2Layout
  import opened Ext2State
  import opened Ext2Commit
  import opened Ext2Results
  import opened Ext2Format
  import opened Ext2Volume

  datatype Op = Mkdir(name: CStr) | Write(name: CStr, data: seq<byte>)

  /** The abstract file system. */
  type Tree = imap<seq<seq<byte>>, Entry>

  ghost function At(t: Tree, q: seq<seq<byte>>): Option<Entry> {
    if q in t then Some(t[q]) else None
  }

  ghost function FreshFs(): Tree {
    imap[[] := Directory, [LOST_FOUND] := Directory]
  }

  /** The effect of one successful call. */
  ghost function Apply(t: Tree, op: Op): Tree {
    if op.name == [] then t
    else match op
      case Mkdir(name) => t[Segs(name) := Directory]
      case Write(name, data) => t[Segs(name) := Regular(data)]
  }

  ghost function ApplyAll(t: Tree, ops: seq<Op>): Tree {
    if ops == [] then t else Apply(ApplyAll(t, ops[..|ops| - 1]), ops[|ops| - 1])
  }

  /** No call of the run writes a file onto a directory, which the code does not check. */
  ghost predicate Legal(t: Tree, ops: seq<Op>) {
    forall i :: 0 <= i < |ops| ==> StepLegal(ApplyAll(t, ops[..i]), ops[i])
  }

  ghost predicate StepLegal(t: Tree, op: Op) {
    op.Write? && op.name != [] ==> At(t, Segs(op.name)) != Some(Directory)
  }

  ghost predicate Represents(disk: Disk, t: Tree) {
    Formatted(disk) && forall q :: CleanPath(q) ==> Lookup(NodesOf(disk), q) == At(t, q)
  }

  lemma ChangedRepresents(disk: Disk, disk': Disk, t: Tree, path: seq<seq<byte>>, e: Entry)
    requires Represents(disk, t) && Changed(disk, disk', path, e)
    ensures Represents(disk', t[path := e])
  {
  }

  /** A write whose target is not a directory in the tree does not meet a directory on the volume. */
  lemma NotADirectory(disk: Disk, t: Tree, name: CStr, len: nat)
    requires Represents(disk, t) && Placeable(name)
    ensures WriteOutcome(disk, DirPath(name), BaseName(name), len) == IsDirectory ==>
      At(t, Segs(name)) == Some(Directory)
  {
    SplitSegs(name);
    if WriteOutcome(disk, DirPath(name), BaseName(name), len) == IsDirectory {
      MeetsDirectory(disk, DirPath(name), BaseName(name), len);
    }
  }

  /** What a call takes to succeed: a place for the name, and room for what it stores. */
  ghost predicate OpFits(disk: Disk, op: Op)
    requires Sized(disk)
  {
    Placeable(op.name) &&
    match op
    case Mkdir(name) => MkdirFits(disk, DirPath(name), BaseName(name))
    case Write(name, data) =>
      |data| <= NDIRECT * BLK && WriteOutcome(disk, DirPath(name), BaseName(name), |data|) == Fits
  }

  /**
   The calls that change nothing when they fail: all but a write that runs out of blocks on a target that is not
   empty.
   */
  ghost predicate SafeToFail(disk: Disk, op: Op)
    requires Sized(disk)
  {
    op.Write? && Placeable(op.name) && |op.data| <= NDIRECT * BLK ==>
      Harmless(disk, DirPath(op.name), BaseName(op.name), |op.data|)
  }

  /**
   A call has failed on a volume that stood for `t`: it did not fit, and what it left still stands for `t` exactly if
   it was safe.
   */
  ghost predicate Refused(before: Disk, disk: Disk, t: Tree, op: Op) {
    Represents(before, t) && !OpFits(before, op) && (Represents(disk, t) <==> SafeToFail(before, op))
  }

  lemma UnchangedRepresents(disk: Disk, disk': Disk, t: Tree)
    requires Represents(disk, t) && Unchanged(disk, disk')
    ensures Represents(disk', t)
  {
  }

  /**
   One call. It succeeds exactly if it fits, and then the volume represents the updated tree. If it fails, the
   volume still represents the tree that it did, exactly if the call was safe to fail.
   */
  method Step(v: Volume, op: Op, ghost t: Tree) returns (ok: bool)
    requires Represents(v.disk, t) && StepLegal(t, op)
    modifies v
    ensures ok <==> OpFits(old(v.disk), op)
    ensures ok ==> Represents(v.disk, Apply(t, op))
    ensures !ok ==> Refused(old(v.disk), v.disk, t, op)
  {
    match op
    case Mkdir(name) => ok := StepMkdir(v, name, t);
    case Write(name, data) => ok := StepWrite(v, name, data, t);
  }

  method StepMkdir(v: Volume, name: CStr, ghost t: Tree) returns (ok: bool)
    requires Represents(v.disk, t)
    modifies v
    ensures ok <==> OpFits(old(v.disk), Mkdir(name))
    ensures Represents(v.disk, if ok then Apply(t, Mkdir(name)) else t)
  {
    ghost var d0 := v.disk;
    ok := v.Mkdir(name);
    if ok {
      ChangedRepresents(d0, v.disk, t, Segs(name), Directory);
    } else {
      UnchangedRepresents(d0, v.disk, t);
    }
  }

  method StepWrite(v: Volume, name: CStr, data: seq<byte>, ghost t: Tree) returns (ok: bool)
    requires Represents(v.disk, t) && StepLegal(t, Write(name, data))
    modifies v
    ensures ok <==> OpFits(old(v.disk), Write(name, data))
    ensures ok ==> Represents(v.disk, Apply(t, Write(name, data)))
    ensures !ok ==> (Represents(v.disk, t) <==> SafeToFail(old(v.disk), Write(name, data)))
  {
    ghost var d0 := v.disk;
    if Placeable(name) {
      NotADirectory(d0, t, name, |data|);
    }
    ok := v.WriteFile(name, data);
    if ok {
      ChangedRepresents(d0, v.disk, t, Segs(name), Regular(data));
    } else if v.disk != d0 && Formatted(v.disk) {
      UnchangedRepresents(d0, v.disk, t);
    }
  }

  lemma ApplySnoc(t: Tree, ops: seq<Op>, n: nat)
    requires n < |ops|
    ensures ApplyAll(t, ops[..n + 1]) == Apply(ApplyAll(t, ops[..n]), ops[n])
  {
    assert ops[..n + 1][..n] == ops[..n];
  }

  /**
   Formats the volume and makes the calls until one fails. When all of them succeed, the volume represents the
   tree that the calls build, and the invariant holds. Otherwise `before`, the volume as the failing call found it,
   represents the tree so far and has no room for that call.
   */
  method Run(v: Volume, ops: seq<Op>) returns (n: nat, ghost before: Disk)
    requires 256 <= |v.disk| <= 8192 && Legal(FreshFs(), ops)
    modifies v
    ensures n <= |ops|
    ensures n == |ops| ==> Represents(v.disk, ApplyAll(FreshFs(), ops))
    ensures n < |ops| ==> Refused(before, v.disk, ApplyAll(FreshFs(), ops[..n]), ops[n])
  {
    var ok := v.Format();
    n, before := RunFrom(v, ops, FreshFs());
  }

  method RunFrom(v: Volume, ops: seq<Op>, ghost t0: Tree) returns (n: nat, ghost before: Disk)
    requires Represents(v.disk, t0) && Legal(t0, ops)
    modifies v
    ensures n <= |ops|
    ensures n == |ops| ==> Represents(v.disk, ApplyAll(t0, ops))
    ensures n < |ops| ==> Refused(before, v.disk, ApplyAll(t0, ops[..n]), ops[n])
  {
    n := 0;
    before := v.disk;
    ghost var t := t0;
    while n < |ops|
      invariant n <= |ops| && t == ApplyAll(t0, ops[..n]) && Represents(v.disk, t)
    {
      assert StepLegal(ApplyAll(t0, ops[..n]), ops[n]);
      before := v.disk;
      var ok := Step(v, ops[n], t);
      if !ok {
        return;
      }
      ApplySnoc(t0, ops, n);
      t := Apply(t, ops[n]);
      n := n + 1;
    }
    assert ops[..n] == ops;
  }

  /** Reading from the volume is reading from the tree it represents. */
  method Read(v: Volume, name: CStr, offset: nat, n: nat, ghost t: Tree) returns (r: Option<seq<byte>>)
    requires Represents(v.disk, t) && n > 0
    ensures Accepted(name) ==>
              r == match At(t, Segs(name))
                   case Some(Regular(data)) => Some(Range(data, offset, n))
                   case _ => None
    ensures !Accepted(name) ==> r == None
    ensures r.Some? ==> Accepted(name) && At(t, Segs(name)).Some? && At(t, Segs(name)).value.Regular?
    ensures r.Some? ==> var data := At(t, Segs(name)).value.data;
              && |r.value| == (if offset + n <= |data| then n else if offset <= |data| then |data| - offset else 0)
              && forall k :: 0 <= k < |r.value| ==> r.value[k] == data[offset + k]
  {
    if Accepted(name) {
      SegsClean(name);
    }
    r := v.ReadFileRange(name, offset, n);
  }

  /** Reads that meet at an offset join to the read of both, as a reader in chunks relies on. */
  method ReadInPieces(v: Volume, name: CStr, offset: nat, m: nat, n: nat)
    returns (s: Option<seq<byte>>, t: Option<seq<byte>>, u: Option<seq<byte>>)
    requires Formatted(v.disk) && m > 0 && n > 0
    ensures s.Some? <==> u.Some?
    ensures t.Some? <==> u.Some?
    ensures u.Some? ==> s.value + t.value == u.value
  {
    s := v.ReadFileRange(name, offset, m);
    t := v.ReadFileRange(name, offset + m, n);
    u := v.ReadFileRange(name, offset, m + n);
    if u.Some? {
      PartsJoin(s.value, t.value, u.value, FileData(NodesOf(v.disk), Segs(name)), offset, m, n);
    }
  }

  /** What was written last at a path is what is read there. */
  lemma {:induction false} LastWriteWins(t: Tree, ops: seq<Op>, k: nat)
    requires k < |ops| && ops[k].Write? && ops[k].name != []
    requires forall j :: k < j < |ops| ==> ops[j].name != [] && Segs(ops[j].name) != Segs(ops[k].name)
    ensures At(ApplyAll(t, ops), Segs(ops[k].name)) == Some(Regular(ops[k].data))
    decreases |ops|
  {
    if k < |ops| - 1 {
      LastWriteWins(t, ops[..|ops| - 1], k);
    }
  }

  /** The path of a name in the root directory. */
  lemma RootPath(name: seq<byte>)
    requires CleanName(name) && |name| < NAME_MAX
    ensures 0 !in [SLASH] + name && Placeable([SLASH] + name)
    ensures DirPath([SLASH] + name) == [] && BaseName([SLASH] + name) == name
  {
    var path := [name];
    assert path[1..] == [] && Join(path[1..]) == [];
    assert Join(path) == [SLASH] + path[0] + Join(path[1..]);
    assert Render(path) == [SLASH] + name;
    assert CleanPath(path);
    SegsOfRender(path);
  }

  lemma MeetsLostFound(disk: Disk, len: nat)
    requires Sized(disk)
    requires forall q :: CleanPath(q) ==>
               Lookup(NodesOf(disk), q) == if q == [] || q == [LOST_FOUND] then Some(Directory) else None
    ensures WriteOutcome(disk, [], LOST_FOUND, len) == IsDirectory
  {
    LostFoundClean();
    var path := [LOST_FOUND];
    assert CleanPath([]) && CleanPath(path) && [] + [LOST_FOUND] == path;
    DirectoryMet(disk, NodesOf(disk), [], LOST_FOUND, len);
  }

  /** A write that the code should refuse: the target is a directory, and the volume is not formatted afterwards. */
  method WriteOntoDirectory(v: Volume, data: seq<byte>)
    requires 256 <= |v.disk| <= 8192 && |data| <= NDIRECT * BLK
    modifies v
    ensures !Formatted(v.disk)
  {
    var ok := v.Format();
    LostFoundClean();
    RootPath(LOST_FOUND);
    MeetsLostFound(v.disk, |data|);
    ok := v.WriteFile([SLASH] + LOST_FOUND, data);
  }

  // A run that fills the smallest volume.

  /** The names of the files: "a" to "t". */
  function Name(i: nat): seq<byte>
    requires i < 20
  {
    [97 + i]
  }

  const BIG := NDIRECT * BLK

  /**
   A formatted volume of 256 blocks with `i` files of 12 blocks in its root directory, and no others of these names.
   */
  ghost predicate Filled(disk: Disk, i: nat) {
    && Formatted(disk) && |disk| == 256 && i < 20
    && FreeBlocks(disk[1]) == 233 - 12 * i && FreeInodes(disk[1]) == 117 - i
    && NodesOf(disk)[ROOT].DirNode? && ValidEntries(NodesOf(disk)[ROOT].entries)
    && |EncAll(NodesOf(disk)[ROOT].entries)| == 44 + 12 * i
    && forall j: nat :: i <= j < 20 ==> Lookup(NodesOf(disk), [Name(j)]) == None
  }

  lemma FreshFilled(disk: Disk)
    requires Formatted(disk) && |disk| == 256 && NodesOf(disk) == FreshNodes()
    requires FreeBlocks(disk[1]) == 233 && FreeInodes(disk[1]) == 117
    ensures Filled(disk, 0)
  {
    FreshAt(ROOT);
    FreshLookups();
    forall j: nat | j < 20 ensures Lookup(NodesOf(disk), [Name(j)]) == None {
      assert CleanPath([Name(j)]) && |Name(j)| == 1 && |LOST_FOUND| == 10;
    }
    RootBytes();
  }

  lemma RootBytes()
    ensures |EncAll(RootNode().entries)| == 44
  {
    var two, one, none: seq<Dirent> := RootNode().entries[1..], RootNode().entries[2..], [];
    assert two[1..] == one && one[1..] == none;
    assert |LOST_FOUND| == 10 && |DOT| == 1 && |DOTDOT| == 2;
  }

  /** The name is clean, and its path leads to the root directory. */
  lemma NameAt(i: nat)
    requires i < 20
    ensures CleanName(Name(i)) && CleanPath([Name(i)]) && [] + [Name(i)] == [Name(i)]
    ensures 0 !in [SLASH] + Name(i) && Placeable([SLASH] + Name(i))
    ensures DirPath([SLASH] + Name(i)) == [] && BaseName([SLASH] + Name(i)) == Name(i)
  {
    RootPath(Name(i));
  }

  /** There is no such file yet, and room for it as long as there are blocks. */
  lemma FilledMeets(disk: Disk, i: nat)
    requires Filled(disk, i)
    ensures DirInode(disk, []) == Some(ROOT) && Child(NodesOf(disk), ROOT, Name(i)).None?
    ensures WriteOutcome(disk, [], Name(i), BIG) == if i < 19 then Fits else OutOfBlocks
    ensures Owned(disk, [], Name(i)) == 0 && !EmptyTarget(disk, [], Name(i))
  {
    NameAt(i);
    NoChild(disk, Name(i));
    assert NBlocks(BIG) == 12 && RecLen(1) == 12;
  }

  lemma NoChild(disk: Disk, name: seq<byte>)
    requires Formatted(disk) && CleanName(name) && Lookup(NodesOf(disk), [name]) == None
    ensures Child(NodesOf(disk), ROOT, name).None?
  {
    if Child(NodesOf(disk), ROOT, name).Some? {
      ChildLive(disk, ROOT, name);
    }
    OneStep(NodesOf(disk), name);
  }

  lemma OneStep(nodes: Nodes, name: seq<byte>)
    ensures Walk(nodes, ROOT, [name]) == Child(nodes, ROOT, name)
  {
    var path := [name];
    assert path[0] == name && path[1..] == [];
  }

  lemma FilledNext(disk: Disk, disk': Disk, i: nat, data: seq<byte>)
    requires Filled(disk, i) && i < 19 && |data| == BIG
    requires Changed(disk, disk', [Name(i)], Regular(data)) && Spent(disk, disk', [], Name(i), BIG)
    ensures Filled(disk', i + 1)
  {
    FilledMeets(disk, i);
    assert NBlocks(BIG) == 12;
    var es := NodesOf(disk)[ROOT].entries;
    var c: nat :| NodesOf(disk')[ROOT].entries == es + [Dirent(c, Name(i))];
    EntriesGrow(disk', es, c, Name(i));
    forall j: nat | i + 1 <= j < 20 ensures Lookup(NodesOf(disk'), [Name(j)]) == None {
      NameAt(j);
      assert [Name(j)][0] != [Name(i)][0];
    }
  }

  lemma EntriesGrow(disk: Disk, es: seq<Dirent>, c: nat, name: seq<byte>)
    requires Formatted(disk) && NodesOf(disk)[ROOT].DirNode? && NodesOf(disk)[ROOT].entries == es + [Dirent(c, name)]
    requires ValidEntries(es) && |name| == 1
    ensures ValidEntries(es + [Dirent(c, name)]) && |EncAll(es + [Dirent(c, name)])| == |EncAll(es)| + 12
  {
    DirOf(disk, ROOT);
    var one := [Dirent(c, name)];
    assert ValidEntries(es + one) && (es + one)[|es|] == one[0];
    assert ValidEntries(one) && one[1..] == [];
    EncAllAppend(es, one);
  }

  /**
   Nineteen files of 12 blocks fit the smallest volume. The twentieth does not, and the volume is not formatted
   afterwards.
   */
  method RunOutOfBlocks(v: Volume)
    requires |v.disk| == 256
    modifies v
    ensures !Formatted(v.disk)
  {
    var ok := v.Format();
    FreshFilled(v.disk);
    var data := seq(BIG, _ => 0);
    for i := 0 to 19
      invariant Filled(v.disk, i)
    {
      ok := WriteNext(v, i, data);
    }
    ok := WriteNext(v, 19, data);
  }

  method WriteNext(v: Volume, i: nat, data: seq<byte>) returns (ok: bool)
    requires i < 20 && Filled(v.disk, i) && |data| == BIG
    modifies v
    ensures i < 19 ==> ok && Filled(v.disk, i + 1)
    ensures i == 19 ==> !ok && !Formatted(v.disk)
  {
    ghost var d0 := v.disk;
    NameAt(i);
    FilledMeets(d0, i);
    ok := v.WriteFile([SLASH] + Name(i), data);
    if i < 19 {
      SplitSegs([SLASH] + Name(i));
      FilledNext(d0, v.disk, i, data);
    }
  }
}
