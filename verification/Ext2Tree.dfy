/**
 The volume seen as inodes: what a path leads to, and the invariant that makes the inodes a tree
 in which no block and no inode is shared.
 */
module Ext2Tree {
  import opened Bytes
  import opened Seqs
  import opened Dirents
  import opened Path

  const INODES: nat := 128
  const ROOT: nat := 2
  const LOST: nat := 11

  /** What an inode stands for. `Vacant` covers unused and reserved inodes. */
  datatype Node =
    | Vacant
    | DirNode(blk: nat, links: nat, entries: seq<Dirent>)
    | FileNode(ptrs: seq<nat>, data: seq<byte>)

  predicate Distinct(ptrs: seq<nat>) {
    forall i, j :: 0 <= i < j < |ptrs| ==> ptrs[i] != ptrs[j]
  }

  /** Indexed by inode number; number 0 is not used. */
  type Nodes = ns: seq<Node> | |ns| == INODES + 1 witness seq(INODES + 1, _ => Vacant)

  /** The blocks an inode refers to. */
  function Blocks(n: Node): set<nat> {
    match n
    case Vacant => {}
    case DirNode(blk, _, _) => {blk}
    case FileNode(ptrs, _) => set i | 0 <= i < |ptrs| :: ptrs[i]
  }

  function Refs(ns: Nodes): set<nat> {
    set i, b | 0 <= i <= INODES && b in Blocks(ns[i]) :: b
  }

  function Dirs(ns: Nodes): set<nat> {
    set i | 0 <= i <= INODES && ns[i].DirNode?
  }

  // ---------------------------------------------------------------------------------------------
  // Paths
  // ---------------------------------------------------------------------------------------------

  /** One step of `lookup_final`. */
  function Child(ns: Nodes, d: nat, name: seq<byte>): Option<nat> {
    if d <= INODES && ns[d].DirNode? then
      match FindEntry(ns[d].entries, name)
      case None => None
      case Some(c) => if c == 0 then None else Some(c)
    else None
  }

  /** The inode that `path` leads to from directory `d`. */
  function Walk(ns: Nodes, d: nat, path: seq<seq<byte>>): Option<nat>
    decreases |path|
  {
    if path == [] then Some(d)
    else match Child(ns, d, path[0])
      case None => None
      case Some(c) => Walk(ns, c, path[1..])
  }

  datatype Entry = Directory | Regular(data: seq<byte>)

  /** The abstract file system: what stands at a normalised path. */
  function Lookup(ns: Nodes, path: seq<seq<byte>>): Option<Entry> {
    match Walk(ns, ROOT, path)
    case None => None
    case Some(i) =>
      if i > INODES then None
      else EntryOf(ns[i])
  }

  // ---------------------------------------------------------------------------------------------
  // The tree invariant
  // ---------------------------------------------------------------------------------------------

  /** The i-th entry of directory `d`, "." and ".." not counted. */
  predicate IsEntry(ns: Nodes, d: nat, i: nat) {
    d <= INODES && ns[d].DirNode? && 2 <= i < |ns[d].entries|
  }

  function ChildDirs(ns: Nodes, d: nat): set<nat>
    requires d <= INODES && ns[d].DirNode?
  {
    set i: nat | i < |ns[d].entries| && IsEntry(ns, d, i) && ns[d].entries[i].ino in Dirs(ns)
  }

  /** "." names the directory itself. */
  predicate DotsOk(ns: Nodes, d: nat)
    requires d <= INODES && ns[d].DirNode?
  {
    var es := ns[d].entries;
    && |es| >= 2
    && es[0] == Dirent(d, DOT)
    && es[1].name == DOTDOT
  }

  predicate EntryOk(ns: Nodes, d: nat, i: nat)
    requires IsEntry(ns, d, i)
  {
    var e := ns[d].entries[i];
    && CleanName(e.name)
    && LOST <= e.ino <= INODES
    && !ns[e.ino].Vacant?
    && (ns[e.ino].DirNode? ==> |ns[e.ino].entries| >= 2 && ns[e.ino].entries[1].ino == d)
  }

  predicate NamesDistinct(es: seq<Dirent>) {
    forall i, j :: 0 <= i < j < |es| ==> es[i].name != es[j].name
  }

  ghost predicate TreeOk(ns: Nodes) {
    DirsOk(ns) && EntriesOk(ns) && OneName(ns) && OneOwner(ns)
  }

  ghost predicate DirsOk(ns: Nodes) {
    && ns[0].Vacant? && ns[ROOT].DirNode?
    && (forall d | 0 <= d <= INODES && ns[d].DirNode? :: DotsOk(ns, d) && NamesDistinct(ns[d].entries))
    && |ns[ROOT].entries| >= 2 && ns[ROOT].entries[1].ino == ROOT
  }

  ghost predicate EntriesOk(ns: Nodes) {
    forall d: nat, i: nat | IsEntry(ns, d, i) :: EntryOk(ns, d, i)
  }

  /** No inode has two names. */
  ghost predicate OneName(ns: Nodes) {
    forall d: nat, i: nat, d': nat, i': nat | IsEntry(ns, d, i) && IsEntry(ns, d', i')
      :: ns[d].entries[i].ino == ns[d'].entries[i'].ino ==> d == d' && i == i'
  }

  /** No block has two owners, nor two places in one file. */
  ghost predicate OneOwner(ns: Nodes) {
    && (forall a, b | 0 <= a < b <= INODES :: Blocks(ns[a]) !! Blocks(ns[b]))
    && (forall a | 0 <= a <= INODES && ns[a].FileNode? :: Distinct(ns[a].ptrs))
  }

  /** Every directory's link count is two and one more for each child directory. */
  ghost predicate LinksOk(ns: Nodes) {
    forall d | 0 <= d <= INODES && ns[d].DirNode? :: ns[d].links == 2 + |ChildDirs(ns, d)|
  }

  // ---------------------------------------------------------------------------------------------
  // No two paths lead to the same inode
  // ---------------------------------------------------------------------------------------------

  lemma {:induction false} WalkSnoc(ns: Nodes, d: nat, path: seq<seq<byte>>, name: seq<byte>)
    ensures Walk(ns, d, path + [name]) ==
            match Walk(ns, d, path) case None => None case Some(c) => Child(ns, c, name)
    decreases |path|
  {
    if path == [] {
      assert [name][1..] == [];
    } else {
      assert (path + [name])[1..] == path[1..] + [name];
      match Child(ns, d, path[0])
      case None =>
      case Some(c) => WalkSnoc(ns, c, path[1..], name);
    }
  }

  lemma {:induction false} FindEntryIndex(es: seq<Dirent>, name: seq<byte>) returns (i: nat)
    ensures FindEntry(es, name).Some? ==> i < |es| && es[i].name == name && es[i].ino == FindEntry(es, name).value
    ensures FindEntry(es, name).None? ==> forall j :: 0 <= j < |es| ==> es[j].name != name
  {
    i := 0;
    if es != [] && es[0].name != name {
      i := FindEntryIndex(es[1..], name);
      assert forall j :: 0 < j < |es| ==> es[j] == es[1..][j - 1];
      i := i + 1;
    }
  }

  /** A child reached by a clean name is an entry proper. */
  lemma ChildIsEntry(ns: Nodes, d: nat, name: seq<byte>) returns (i: nat)
    requires TreeOk(ns) && CleanName(name) && Child(ns, d, name).Some?
    ensures IsEntry(ns, d, i) && ns[d].entries[i] == Dirent(Child(ns, d, name).value, name)
    ensures LOST <= Child(ns, d, name).value <= INODES && !ns[Child(ns, d, name).value].Vacant?
  {
    i := FindEntryIndex(ns[d].entries, name);
    assert DotsOk(ns, d);
    assert IsEntry(ns, d, i);
    assert EntryOk(ns, d, i);
  }

  lemma {:induction false} WalkTarget(ns: Nodes, path: seq<seq<byte>>)
    requires TreeOk(ns) && CleanPath(path) && Walk(ns, ROOT, path).Some?
    ensures var c := Walk(ns, ROOT, path).value;
            c <= INODES && !ns[c].Vacant? && (path != [] ==> c >= LOST)
  {
    if path != [] {
      var k := |path| - 1;
      assert path == path[..k] + [path[k]];
      WalkSnoc(ns, ROOT, path[..k], path[k]);
      var _ := ChildIsEntry(ns, Walk(ns, ROOT, path[..k]).value, path[k]);
    }
  }

  lemma {:induction false} WalkInjective(ns: Nodes, p: seq<seq<byte>>, q: seq<seq<byte>>)
    requires TreeOk(ns) && CleanPath(p) && CleanPath(q)
    requires Walk(ns, ROOT, p).Some? && Walk(ns, ROOT, p) == Walk(ns, ROOT, q)
    ensures p == q
    decreases |p|
  {
    WalkTarget(ns, p);
    WalkTarget(ns, q);
    if p != [] && q != [] {
      var p', n, q', m := p[..|p| - 1], p[|p| - 1], q[..|q| - 1], q[|q| - 1];
      assert p == p' + [n] && q == q' + [m];
      WalkSnoc(ns, ROOT, p', n);
      WalkSnoc(ns, ROOT, q', m);
      var d, e := Walk(ns, ROOT, p').value, Walk(ns, ROOT, q').value;
      var i := ChildIsEntry(ns, d, n);
      var j := ChildIsEntry(ns, e, m);
      assert d == e && i == j;
      WalkInjective(ns, p', q');
    }
  }

  // ---------------------------------------------------------------------------------------------
  // Overwriting a file
  // ---------------------------------------------------------------------------------------------

  ghost predicate CanOverwrite(ns: Nodes, c: nat, node: Node) {
    && c <= INODES && ns[c].FileNode? && node.FileNode? && Distinct(node.ptrs)
    && Blocks(node) !! Refs(ns) - Blocks(ns[c])
  }

  lemma {:induction false} WalkOverwrite(ns: Nodes, c: nat, node: Node, d: nat, q: seq<seq<byte>>)
    requires CanOverwrite(ns, c, node)
    ensures Walk(ns[c := node], d, q) == Walk(ns, d, q)
    decreases |q|
  {
    if q != [] {
      match Child(ns, d, q[0])
      case None =>
      case Some(e) => WalkOverwrite(ns, c, node, e, q[1..]);
    }
  }

  /** A write to an existing file changes what is at its path, and nothing at any other path. */
  lemma LookupOverwrite(ns: Nodes, p: seq<seq<byte>>, c: nat, node: Node, q: seq<seq<byte>>)
    requires TreeOk(ns) && CanOverwrite(ns, c, node)
    requires CleanPath(p) && Walk(ns, ROOT, p) == Some(c) && CleanPath(q)
    ensures Lookup(ns[c := node], q) == if q == p then Some(Regular(node.data)) else Lookup(ns, q)
  {
    WalkOverwrite(ns, c, node, ROOT, q);
    if Walk(ns, ROOT, q) == Some(c) {
      WalkInjective(ns, p, q);
    }
  }

  lemma TreeOverwrite(ns: Nodes, c: nat, node: Node)
    requires TreeOk(ns) && LinksOk(ns) && CanOverwrite(ns, c, node)
    ensures TreeOk(ns[c := node]) && LinksOk(ns[c := node])
    ensures Dirs(ns[c := node]) == Dirs(ns)
    ensures Refs(ns[c := node]) == Refs(ns) - Blocks(ns[c]) + Blocks(node)
  {
    var ns' := ns[c := node];
    assert DirsOk(ns') && EntriesOk(ns') && LinksOk(ns') && Dirs(ns') == Dirs(ns) by { DirsOverwrite(ns, c, node); }
    assert OneOwner(ns') by { OneOwnerOverwrite(ns, c, node); }
    assert OneName(ns') by { OneNameOverwrite(ns, c, node); }
    RefsOverwrite(ns, c, node);
  }

  lemma OneNameOverwrite(ns: Nodes, c: nat, node: Node)
    requires OneName(ns) && c <= INODES && !ns[c].DirNode? && !node.DirNode?
    ensures OneName(ns[c := node])
  {
    var ns' := ns[c := node];
    forall d: nat, i: nat, d': nat, i': nat |
      IsEntry(ns', d, i) && IsEntry(ns', d', i') && ns'[d].entries[i].ino == ns'[d'].entries[i'].ino
      ensures d == d' && i == i'
    {
      assert IsEntry(ns, d, i) && IsEntry(ns, d', i');
    }
  }

  lemma DirsOverwrite(ns: Nodes, c: nat, node: Node)
    requires DirsOk(ns) && EntriesOk(ns) && LinksOk(ns) && CanOverwrite(ns, c, node)
    ensures DirsOk(ns[c := node]) && EntriesOk(ns[c := node]) && LinksOk(ns[c := node])
    ensures Dirs(ns[c := node]) == Dirs(ns)
  {
    var ns' := ns[c := node];
    assert Dirs(ns') == Dirs(ns);
    forall d: nat, i: nat | IsEntry(ns', d, i)
      ensures EntryOk(ns', d, i)
    {
      assert EntryOk(ns, d, i);
    }
    forall d | 0 <= d <= INODES && ns'[d].DirNode?
      ensures DotsOk(ns', d) && ns'[d].links == 2 + |ChildDirs(ns', d)|
    {
      assert DotsOk(ns, d);
      assert ChildDirs(ns', d) == ChildDirs(ns, d);
    }
  }

  lemma OneOwnerOverwrite(ns: Nodes, c: nat, node: Node)
    requires OneOwner(ns) && c <= INODES && Blocks(node) !! Refs(ns) - Blocks(ns[c])
    requires node.FileNode? ==> Distinct(node.ptrs)
    ensures OneOwner(ns[c := node])
  {
    var ns' := ns[c := node];
    forall a, b | 0 <= a < b <= INODES
      ensures Blocks(ns'[a]) !! Blocks(ns'[b])
    {
      assert Blocks(ns[a]) !! Blocks(ns[b]);
      assert Blocks(ns[a]) <= Refs(ns) && Blocks(ns[b]) <= Refs(ns);
    }
  }

  lemma OthersDisjoint(ns: Nodes, c: nat, blocks: set<nat>, j: nat)
    requires OneOwner(ns) && c <= INODES && j <= INODES && j != c && blocks !! Refs(ns) - Blocks(ns[c])
    ensures Blocks(ns[j]) !! blocks
  {
    assert Blocks(ns[j]) <= Refs(ns);
    assert if j < c then Blocks(ns[j]) !! Blocks(ns[c]) else Blocks(ns[c]) !! Blocks(ns[j]);
  }

  lemma RefsOverwrite(ns: Nodes, c: nat, node: Node)
    requires c <= INODES && OneOwner(ns)
    ensures Refs(ns[c := node]) == Refs(ns) - Blocks(ns[c]) + Blocks(node)
  {
    var ns' := ns[c := node];
    forall b | b in Refs(ns')
      ensures b in Refs(ns) - Blocks(ns[c]) + Blocks(node)
    {
      var i :| 0 <= i <= INODES && b in Blocks(ns'[i]);
      if i != c {
        assert b in Blocks(ns[i]);
      }
    }
    forall b | b in Refs(ns) - Blocks(ns[c]) + Blocks(node)
      ensures b in Refs(ns')
    {
      if b in Blocks(node) {
        assert b in Blocks(ns'[c]);
      } else {
        var i :| 0 <= i <= INODES && b in Blocks(ns[i]);
        assert b in Blocks(ns'[i]);
      }
    }
  }

  // ---------------------------------------------------------------------------------------------
  // Adding a name to a directory
  // ---------------------------------------------------------------------------------------------

  /** The directory with one more entry; a child directory adds a link. */
  function Grown(dn: Node, name: seq<byte>, c: nat, isDir: bool): Node
    requires dn.DirNode?
  {
    DirNode(dn.blk, if isDir then dn.links + 1 else dn.links, dn.entries + [Dirent(c, name)])
  }

  function AddChild(ns: Nodes, p: nat, name: seq<byte>, c: nat, node: Node): Nodes
    requires p <= INODES && ns[p].DirNode? && c <= INODES
  {
    ns[p := Grown(ns[p], name, c, node.DirNode?)][c := node]
  }

  function EmptyDir(blk: nat, c: nat, p: nat): Node {
    DirNode(blk, 2, [Dirent(c, DOT), Dirent(p, DOTDOT)])
  }

  ghost predicate CanAdd(ns: Nodes, p: nat, name: seq<byte>, c: nat, node: Node) {
    && p <= INODES && ns[p].DirNode? && LOST < c <= INODES && ns[c].Vacant?
    && CleanName(name) && FindEntry(ns[p].entries, name).None?
    && Blocks(node) !! Refs(ns)
    && match node
       case Vacant => false
       case DirNode(blk, _, _) => node == EmptyDir(blk, c, p)
       case FileNode(ptrs, _) => Distinct(ptrs)
  }

  lemma TreeAdd(ns: Nodes, p: nat, name: seq<byte>, c: nat, node: Node)
    requires TreeOk(ns) && LinksOk(ns) && CanAdd(ns, p, name, c, node)
    ensures var ns' := AddChild(ns, p, name, c, node);
            && TreeOk(ns') && LinksOk(ns')
            && Dirs(ns') == Dirs(ns) + (if node.DirNode? then {c} else {})
            && Refs(ns') == Refs(ns) + Blocks(node)
  {
    var g := Grown(ns[p], name, c, node.DirNode?);
    DirsAdd(ns, p, name, c, node);
    EntriesAdd(ns, p, name, c, node);
    OneNameAdd(ns, p, name, c, node);
    assert OneOwner(AddChild(ns, p, name, c, node))
      && Refs(AddChild(ns, p, name, c, node)) == Refs(ns) + Blocks(node) by {
      OwnersAdd(ns, p, c, g, node);
    }
    LinksAdd(ns, p, name, c, node);
  }

  lemma DirSetAdd(ns: Nodes, p: nat, c: nat, g: Node, node: Node)
    requires p <= INODES && c <= INODES && ns[p].DirNode? && g.DirNode? && !ns[c].DirNode?
    ensures Dirs(ns[p := g][c := node]) == Dirs(ns) + (if node.DirNode? then {c} else {})
  {
  }

  lemma OwnersAdd(ns: Nodes, p: nat, c: nat, g: Node, node: Node)
    requires OneOwner(ns) && p <= INODES && c <= INODES && ns[c].Vacant?
    requires ns[p].DirNode? && g.DirNode? && g.blk == ns[p].blk
    requires Blocks(node) !! Refs(ns) && (node.FileNode? ==> Distinct(node.ptrs))
    ensures OneOwner(ns[p := g][c := node]) && Refs(ns[p := g][c := node]) == Refs(ns) + Blocks(node)
  {
    var ns1 := ns[p := g];
    assert Blocks(g) == Blocks(ns[p]) <= Refs(ns);
    OneOwnerOverwrite(ns, p, g);
    RefsOverwrite(ns, p, g);
    assert Refs(ns1) == Refs(ns);
    OneOwnerOverwrite(ns1, c, node);
    RefsOverwrite(ns1, c, node);
  }

  lemma DirsAdd(ns: Nodes, p: nat, name: seq<byte>, c: nat, node: Node)
    requires DirsOk(ns) && CanAdd(ns, p, name, c, node)
    ensures DirsOk(AddChild(ns, p, name, c, node))
    ensures Dirs(AddChild(ns, p, name, c, node)) == Dirs(ns) + (if node.DirNode? then {c} else {})
  {
    var ns' := AddChild(ns, p, name, c, node);
    DirSetAdd(ns, p, c, Grown(ns[p], name, c, node.DirNode?), node);
    assert DotsOk(ns, p) && NamesDistinct(ns[p].entries);
    var _ := FindEntryIndex(ns[p].entries, name);
    forall d | 0 <= d <= INODES && ns'[d].DirNode?
      ensures DotsOk(ns', d) && NamesDistinct(ns'[d].entries)
    {
      if d != c && d != p {
        assert DotsOk(ns, d) && NamesDistinct(ns[d].entries);
      }
    }
  }

  lemma EntriesAdd(ns: Nodes, p: nat, name: seq<byte>, c: nat, node: Node)
    requires DirsOk(ns) && EntriesOk(ns) && CanAdd(ns, p, name, c, node)
    ensures EntriesOk(AddChild(ns, p, name, c, node))
  {
    var ns' := AddChild(ns, p, name, c, node);
    assert DotsOk(ns, p);
    forall d: nat, i: nat | IsEntry(ns', d, i)
      ensures EntryOk(ns', d, i)
    {
      if d != p || i < |ns[p].entries| {
        assert IsEntry(ns, d, i) && EntryOk(ns, d, i);
        var e := ns[d].entries[i].ino;
        assert e != c && ns'[d].entries[i] == ns[d].entries[i];
        assert ns[e].DirNode? ==> DotsOk(ns, e);
      }
    }
  }

  lemma OneNameAdd(ns: Nodes, p: nat, name: seq<byte>, c: nat, node: Node)
    requires DirsOk(ns) && EntriesOk(ns) && OneName(ns) && CanAdd(ns, p, name, c, node)
    ensures OneName(AddChild(ns, p, name, c, node))
  {
    var ns' := AddChild(ns, p, name, c, node);
    assert DotsOk(ns, p);
    forall d: nat, i: nat, d': nat, i': nat |
      IsEntry(ns', d, i) && IsEntry(ns', d', i') && ns'[d].entries[i].ino == ns'[d'].entries[i'].ino
      ensures d == d' && i == i'
    {
      OldOrNew(ns, p, name, c, node, d, i);
      OldOrNew(ns, p, name, c, node, d', i');
    }
  }

  /** Every entry of the grown tree is an old one, or the one that was added. */
  lemma OldOrNew(ns: Nodes, p: nat, name: seq<byte>, c: nat, node: Node, d: nat, i: nat)
    requires DirsOk(ns) && EntriesOk(ns) && CanAdd(ns, p, name, c, node)
    requires IsEntry(AddChild(ns, p, name, c, node), d, i)
    ensures var e := AddChild(ns, p, name, c, node)[d].entries[i];
            if d == p && i == |ns[p].entries| then e == Dirent(c, name)
            else IsEntry(ns, d, i) && ns[d].entries[i] == e && e.ino != c
  {
    if !(d == p && i == |ns[p].entries|) {
      assert IsEntry(ns, d, i);
      assert EntryOk(ns, d, i);
    }
  }

  lemma LinksAdd(ns: Nodes, p: nat, name: seq<byte>, c: nat, node: Node)
    requires DirsOk(ns) && EntriesOk(ns) && LinksOk(ns) && CanAdd(ns, p, name, c, node)
    requires Dirs(AddChild(ns, p, name, c, node)) == Dirs(ns) + (if node.DirNode? then {c} else {})
    ensures LinksOk(AddChild(ns, p, name, c, node))
  {
    var ns' := AddChild(ns, p, name, c, node);
    forall d | 0 <= d <= INODES && ns'[d].DirNode?
      ensures ns'[d].links == 2 + |ChildDirs(ns', d)|
    {
      if d == c {
        assert ChildDirs(ns', d) == {};
      } else {
        ChildDirsAdd(ns, p, name, c, node, d);
      }
    }
  }

  lemma ChildDirsAdd(ns: Nodes, p: nat, name: seq<byte>, c: nat, node: Node, d: nat)
    requires DirsOk(ns) && EntriesOk(ns) && CanAdd(ns, p, name, c, node)
    requires Dirs(AddChild(ns, p, name, c, node)) == Dirs(ns) + (if node.DirNode? then {c} else {})
    requires d <= INODES && ns[d].DirNode?
    ensures var n := |ns[p].entries|;
            && n !in ChildDirs(ns, p)
            && ChildDirs(AddChild(ns, p, name, c, node), d) ==
               ChildDirs(ns, d) + (if d == p && node.DirNode? then {n} else {})
  {
    var ns' := AddChild(ns, p, name, c, node);
    assert DotsOk(ns, d) && DotsOk(ns, p);
    forall i: nat | i < |ns'[d].entries|
      ensures i in ChildDirs(ns', d) <==>
              i in ChildDirs(ns, d) + (if d == p && node.DirNode? then {|ns[p].entries|} else {})
    {
      if IsEntry(ns', d, i) {
        OldOrNew(ns, p, name, c, node, d, i);
      }
    }
  }

  lemma {:induction false} FindEntryAppend(es: seq<Dirent>, e: Dirent, n: seq<byte>)
    ensures FindEntry(es + [e], n) ==
            if FindEntry(es, n).Some? then FindEntry(es, n) else if e.name == n then Some(e.ino) else None
  {
    if es == [] {
      assert [e][1..] == [];
    } else {
      assert (es + [e])[1..] == es[1..] + [e];
      FindEntryAppend(es[1..], e, n);
    }
  }

  lemma ChildAdd(ns: Nodes, p: nat, name: seq<byte>, c: nat, node: Node, d: nat, n: seq<byte>)
    requires CanAdd(ns, p, name, c, node) && CleanName(n)
    ensures Child(AddChild(ns, p, name, c, node), d, n) ==
            if d == p && n == name then Some(c) else Child(ns, d, n)
  {
    if d == p {
      FindEntryAppend(ns[p].entries, Dirent(c, name), n);
    } else if d == c && node.DirNode? {
      FindEntryAppend([], Dirent(c, DOT), n);
      FindEntryAppend([Dirent(c, DOT)], Dirent(p, DOTDOT), n);
      assert node.entries == [Dirent(c, DOT)] + [Dirent(p, DOTDOT)] && [Dirent(c, DOT)] == [] + [Dirent(c, DOT)];
    }
  }

  lemma {:induction false} WalkAdd(ns: Nodes, dir: seq<seq<byte>>, p: nat, name: seq<byte>, c: nat, node: Node,
                                   q: seq<seq<byte>>)
    requires TreeOk(ns) && CanAdd(ns, p, name, c, node)
    requires CleanPath(dir) && Walk(ns, ROOT, dir) == Some(p) && CleanPath(q)
    ensures Walk(AddChild(ns, p, name, c, node), ROOT, q) ==
            if q == dir + [name] then Some(c) else Walk(ns, ROOT, q)
    decreases |q|
  {
    var ns' := AddChild(ns, p, name, c, node);
    if q != [] {
      var q', n := q[..|q| - 1], q[|q| - 1];
      assert q == q' + [n];
      WalkSnoc(ns', ROOT, q', n);
      WalkSnoc(ns, ROOT, q', n);
      WalkAdd(ns, dir, p, name, c, node, q');
      if q' == dir + [name] {
        WalkSnoc(ns, ROOT, dir, name);
        ChildAdd(ns, p, name, c, node, c, n);
        assert q != dir + [name];
      } else if Walk(ns, ROOT, q').Some? {
        WalkTarget(ns, q');
        ChildAdd(ns, p, name, c, node, Walk(ns, ROOT, q').value, n);
        if Walk(ns, ROOT, q') == Some(p) {
          WalkInjective(ns, dir, q');
        }
        assert q == dir + [name] ==> q' == dir;
      } else {
        assert q == dir + [name] ==> q' == dir;
      }
    }
  }

  function EntryOf(node: Node): Option<Entry> {
    match node
    case Vacant => None
    case DirNode(_, _, _) => Some(Directory)
    case FileNode(_, data) => Some(Regular(data))
  }

  /** A new name appears at exactly one path; every other path keeps its kind and bytes. */
  lemma LookupAdd(ns: Nodes, dir: seq<seq<byte>>, p: nat, name: seq<byte>, c: nat, node: Node, q: seq<seq<byte>>)
    requires TreeOk(ns) && CanAdd(ns, p, name, c, node)
    requires CleanPath(dir) && Walk(ns, ROOT, dir) == Some(p) && CleanPath(q)
    ensures Lookup(AddChild(ns, p, name, c, node), q) ==
            if q == dir + [name] then EntryOf(node) else Lookup(ns, q)
  {
    WalkAdd(ns, dir, p, name, c, node, q);
    if q != dir + [name] && Walk(ns, ROOT, q).Some? {
      WalkTarget(ns, q);
    }
  }

  // ---------------------------------------------------------------------------------------------
  // Nothing is lost: every inode in use can be reached from the root
  // ---------------------------------------------------------------------------------------------

  ghost predicate LeadsTo(ns: Nodes, q: seq<seq<byte>>, c: nat) {
    CleanPath(q) && Walk(ns, ROOT, q) == Some(c)
  }

  ghost predicate AllReachable(ns: Nodes) {
    forall c | 0 <= c <= INODES && !ns[c].Vacant? :: exists q :: LeadsTo(ns, q, c)
  }

  lemma ReachableOverwrite(ns: Nodes, c: nat, node: Node)
    requires AllReachable(ns) && CanOverwrite(ns, c, node)
    ensures AllReachable(ns[c := node])
  {
    var ns' := ns[c := node];
    forall e | 0 <= e <= INODES && !ns'[e].Vacant?
      ensures exists q :: LeadsTo(ns', q, e)
    {
      var q :| LeadsTo(ns, q, e);
      WalkOverwrite(ns, c, node, ROOT, q);
      assert LeadsTo(ns', q, e);
    }
  }

  lemma ReachableAdd(ns: Nodes, dir: seq<seq<byte>>, p: nat, name: seq<byte>, c: nat, node: Node)
    requires AllReachable(ns) && TreeOk(ns) && CanAdd(ns, p, name, c, node) && LeadsTo(ns, dir, p)
    ensures AllReachable(AddChild(ns, p, name, c, node))
  {
    var ns' := AddChild(ns, p, name, c, node);
    forall e | 0 <= e <= INODES && !ns'[e].Vacant?
      ensures exists q :: LeadsTo(ns', q, e)
    {
      if e == c {
        WalkAdd(ns, dir, p, name, c, node, dir + [name]);
        assert LeadsTo(ns', dir + [name], c);
      } else {
        var q :| LeadsTo(ns, q, e);
        WalkAdd(ns, dir, p, name, c, node, q);
        WalkSnoc(ns, ROOT, dir, name);
        assert LeadsTo(ns', q, e);
      }
    }
  }
}
