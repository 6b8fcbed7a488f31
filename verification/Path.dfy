/**
 Path names: `chaseros_path_normalize`, `path_split_parent` and `vfs_resolve_path`.

 A path is cut into pieces at '/' and after every 127 bytes; the pieces drive a stack on which "."
 and empty pieces do nothing and ".." pops; the scan stops once the stack holds 32 names.
 */
module Path {
  import opened Arith
  import opened Bytes
  import opened Seqs

  const SLASH: byte := 47
  const DOT: seq<byte> := [46]
  const DOTDOT: seq<byte> := [46, 46]
  const PATH_MAX: nat := 256
  const SEG_MAX: nat := 32
  const NAME_MAX: nat := 127

  /** The first 127 bytes of `p`, or fewer when a '/' or the end comes first. */
  function Piece(p: seq<byte>, n: nat := NAME_MAX): (k: nat)
    ensures k <= |p| && k <= n
    ensures forall i :: 0 <= i < k ==> p[i] != SLASH
    ensures k < n && k < |p| ==> p[k] == SLASH
  {
    if p == [] || p[0] == SLASH || n == 0 then 0
    else 1 + Piece(p[1..], n - 1)
  }

  /** What is left to scan after the first piece and one '/' behind it. */
  function Rest(p: seq<byte>): (r: seq<byte>)
    requires p != []
    ensures |r| < |p|
  {
    var k := Piece(p);
    if k < |p| && p[k] == SLASH then p[k + 1..] else p[k..]
  }

  function Pieces(p: seq<byte>): seq<seq<byte>> {
    if p == [] then [] else [p[..Piece(p)]] + Pieces(Rest(p))
  }

  function Push(stack: seq<seq<byte>>, c: seq<byte>): seq<seq<byte>> {
    if c == [] || c == DOT then stack
    else if c == DOTDOT then (if stack == [] then [] else stack[..|stack| - 1])
    else stack + [c]
  }

  /** The stack meaning of a list of components, with no bound on its depth. */
  function Meaning(stack: seq<seq<byte>>, cs: seq<seq<byte>>): seq<seq<byte>>
    decreases |cs|
  {
    if cs == [] then stack else Meaning(Push(stack, cs[0]), cs[1..])
  }

  /** The same scan as the code does it: it gives up as soon as 32 names are stacked. */
  function Capped(stack: seq<seq<byte>>, cs: seq<seq<byte>>): seq<seq<byte>>
    decreases |cs|
  {
    if cs == [] || |stack| >= SEG_MAX then stack else Capped(Push(stack, cs[0]), cs[1..])
  }

  function Segs(path: seq<byte>): seq<seq<byte>>
    requires path != []
  {
    Capped([], Pieces(path[1..]))
  }

  function Join(segs: seq<seq<byte>>): seq<byte> {
    if segs == [] then [] else [SLASH] + segs[0] + Join(segs[1..])
  }

  function Render(segs: seq<seq<byte>>): seq<byte> {
    if segs == [] then [SLASH] else Join(segs)
  }

  /** A name that can stand in a normalised path. */
  predicate CleanName(c: seq<byte>) {
    0 < |c| <= NAME_MAX && SLASH !in c && 0 !in c && c != DOT && c != DOTDOT
  }

  predicate CleanPath(segs: seq<seq<byte>>) {
    forall c :: c in segs ==> CleanName(c)
  }

  // ---------------------------------------------------------------------------------------------
  // The code
  // ---------------------------------------------------------------------------------------------

  /** `chaseros_path_normalize`: None stands for the return value -1. */
  method Normalize(path: CStr, outsz: nat) returns (r: Option<CStr>)
    ensures r.Some? <==> path != [] && path[0] == SLASH && 2 <= outsz && |Render(Segs(path))| < outsz
    ensures r.Some? ==> r.value == Render(Segs(path))
  {
    if path == [] || path[0] != SLASH || outsz < 2 {
      return None;
    }
    var segs := Scan(path[1..]);
    if segs == [] {
      return Some([SLASH]);
    }
    r := Print(segs, outsz);
  }

  /** The scanning loop of `chaseros_path_normalize`. */
  method Scan(path: CStr) returns (segs: seq<seq<byte>>)
    ensures segs == Capped([], Pieces(path)) && CleanPath(segs)
  {
    segs := [];
    var p: CStr := path;
    while p != [] && |segs| < SEG_MAX
      invariant CleanPath(segs)
      invariant Capped(segs, Pieces(p)) == Capped([], Pieces(path))
      decreases |p|
    {
      var seg, rest := Cut(p);
      assert Pieces(p)[0] == seg && Pieces(p)[1..] == Pieces(rest);
      p := rest;
      if seg == [] || seg == DOT {
        continue;
      }
      if seg == DOTDOT {
        if |segs| > 0 {
          segs := segs[..|segs| - 1];
        }
        continue;
      }
      segs := segs + [seg];
    }
  }

  /** The inner copying loop: one piece, and the '/' behind it skipped. */
  method Cut(p: CStr) returns (seg: seq<byte>, rest: CStr)
    requires p != []
    ensures seg == p[..Piece(p)] && rest == Rest(p)
    ensures 0 !in seg && SLASH !in seg && |seg| <= NAME_MAX
  {
    var i := 0;
    while i < |p| && p[i] != SLASH && i < NAME_MAX
      invariant i <= Piece(p)
    {
      i := i + 1;
    }
    seg := p[..i];
    rest := if i < |p| && p[i] == SLASH then p[i + 1..] else p[i..];
  }

  /** The output loop of `chaseros_path_normalize`. */
  method Print(segs: seq<seq<byte>>, outsz: nat) returns (r: Option<CStr>)
    requires segs != [] && CleanPath(segs)
    ensures r.Some? <==> |Join(segs)| < outsz
    ensures r.Some? ==> r.value == Join(segs)
  {
    var out: CStr := [];
    var s := 0;
    while s < |segs|
      invariant s <= |segs|
      invariant out == Join(segs[..s])
      invariant s > 0 ==> |out| < outsz
    {
      JoinSplit(segs, s + 1);
      JoinAppend(segs[..s], segs[s]);
      assert segs[..s + 1] == segs[..s] + [segs[s]];
      assert CleanName(segs[s]);
      if |out| + 1 + |segs[s]| >= outsz {
        return None;
      }
      out := out + [SLASH] + segs[s];
      s := s + 1;
    }
    assert segs[..s] == segs;
    return Some(out);
  }

  lemma {:induction false} JoinAppend(segs: seq<seq<byte>>, c: seq<byte>)
    ensures Join(segs + [c]) == Join(segs) + [SLASH] + c
  {
    if segs == [] {
      assert ([c])[1..] == [];
    } else {
      assert (segs + [c])[1..] == segs[1..] + [c];
      JoinAppend(segs[1..], c);
    }
  }

  lemma {:induction false} JoinSplit(segs: seq<seq<byte>>, k: nat)
    requires k <= |segs|
    ensures Join(segs) == Join(segs[..k]) + Join(segs[k..])
  {
    if k == 0 {
      assert segs[0..] == segs;
    } else {
      JoinSplit(segs[1..], k - 1);
      assert segs[..k][1..] == segs[1..][..k - 1];
      assert segs[1..][k - 1..] == segs[k..];
    }
  }

  /** `path_split_parent`: parent directory and last name; None stands for the return value -1. */
  method SplitParent(norm: CStr, psz: nat, bsz: nat) returns (r: Option<(CStr, CStr)>)
    ensures r.Some? <==>
              && 1 < |norm| && norm[0] == SLASH
              && var k := LastSlash(norm);
                 if k == 0 then 2 <= psz && |norm| < bsz
                 else k < psz && 0 < |norm| - k - 1 < bsz
    ensures r.Some? ==>
              var k := LastSlash(norm);
              r.value == (if k == 0 then [SLASH] else norm[..k], norm[k + 1..])
  {
    if norm == [] || norm[0] != SLASH || |norm| <= 1 {
      return None;
    }
    var last, q := 0, 1;
    while q < |norm|
      invariant 1 <= q <= |norm| && last == LastSlash(norm[..q])
    {
      assert norm[..q + 1][..q] == norm[..q];
      if norm[q] == SLASH {
        last := q;
      }
      q := q + 1;
    }
    assert norm[..q] == norm;
    if last == 0 {
      if psz < 2 || |norm| >= bsz {
        return None;
      }
      return Some(([SLASH], norm[1..]));
    }
    if last >= psz || |norm| - last - 1 == 0 || |norm| - last - 1 >= bsz {
      return None;
    }
    return Some((norm[..last], norm[last + 1..]));
  }

  /** Index of the last '/' of a path. */
  function LastSlash(p: seq<byte>): (k: nat)
    requires p != [] && p[0] == SLASH
    ensures k < |p| && p[k] == SLASH && SLASH !in p[k + 1..]
  {
    if p[|p| - 1] == SLASH then |p| - 1
    else
      var k := LastSlash(p[..|p| - 1]);
      assert p[k + 1..] == p[..|p| - 1][k + 1..] + [p[|p| - 1]];
      k
  }

  /** `vfs_resolve_path`: `rel` seen from the working directory `cwd`. */
  method Resolve(cwd: CStr, rel: CStr, outsz: nat) returns (r: Option<CStr>)
    ensures rel != [] && rel[0] == SLASH ==>
              (r.Some? <==> 2 <= outsz && |Render(Segs(rel))| < outsz)
    ensures rel != [] && rel[0] == SLASH && r.Some? ==> r.value == Render(Segs(rel))
    ensures !(rel != [] && rel[0] == SLASH) ==>
              (r.Some? <==> cwd + [SLASH] + rel != [] && (cwd + [SLASH] + rel)[0] == SLASH
                            && |cwd| + |rel| + 3 <= 512
                            && 2 <= outsz && |Render(Segs(cwd + [SLASH] + rel))| < outsz)
    ensures !(rel != [] && rel[0] == SLASH) && r.Some? ==> r.value == Render(Segs(cwd + [SLASH] + rel))
  {
    if outsz < 2 {
      return None;
    }
    if rel != [] && rel[0] == SLASH {
      r := Normalize(rel, outsz);
      return;
    }
    if |cwd| + 1 + |rel| + 2 > 512 {
      return None;
    }
    if |cwd| == 1 && cwd[0] == SLASH {
      DoubledSlash(rel);
      assert cwd == [SLASH];
      r := Normalize([SLASH] + rel, outsz);
    } else {
      r := Normalize(cwd + [SLASH] + rel, outsz);
    }
  }

  // ---------------------------------------------------------------------------------------------
  // What the scan means
  // ---------------------------------------------------------------------------------------------

  lemma {:induction false} CappedClean(stack: seq<seq<byte>>, p: seq<byte>)
    requires CleanPath(stack) && |stack| <= SEG_MAX && 0 !in p
    ensures CleanPath(Capped(stack, Pieces(p))) && |Capped(stack, Pieces(p))| <= SEG_MAX
    decreases |p|
  {
    if p != [] && |stack| < SEG_MAX {
      assert Pieces(p)[0] == p[..Piece(p)] && Pieces(p)[1..] == Pieces(Rest(p));
      CappedClean(Push(stack, p[..Piece(p)]), Rest(p));
    }
  }

  /** No component of a normalised path is empty, "." or "..", or longer than 127 bytes. */
  lemma SegsClean(path: CStr)
    requires path != []
    ensures CleanPath(Segs(path)) && |Segs(path)| <= SEG_MAX
  {
    CappedClean([], path[1..]);
  }

  lemma {:induction false} PieceOfName(c: seq<byte>, t: seq<byte>, n: nat)
    requires SLASH !in c && |c| <= n && (t == [] || t[0] == SLASH)
    ensures Piece(c + t, n) == |c|
  {
    if c == [] {
      assert c + t == t;
    } else {
      assert (c + t)[1..] == c[1..] + t;
      PieceOfName(c[1..], t, n - 1);
    }
  }

  lemma PiecesCut(c: seq<byte>, t: seq<byte>)
    requires SLASH !in c && |c| <= NAME_MAX && (t == [] || t[0] == SLASH) && c + t != []
    ensures Pieces(c + t) == [c] + (if t == [] then [] else Pieces(t[1..]))
  {
    PieceOfName(c, t, NAME_MAX);
    assert (c + t)[..|c|] == c;
    assert Rest(c + t) == if t == [] then [] else t[1..];
  }

  lemma JoinHead(segs: seq<seq<byte>>)
    requires segs != []
    ensures Join(segs) == [SLASH] + (segs[0] + Join(segs[1..]))
  {
    Assoc([SLASH], segs[0], Join(segs[1..]));
  }

  lemma {:induction false} JoinRest(segs: seq<seq<byte>>)
    requires segs != []
    ensures Join(segs)[1..] == segs[0] + Join(segs[1..])
    ensures |segs| > 1 ==> Join(segs[1..]) != [] && Join(segs[1..])[0] == SLASH
  {
    JoinHead(segs);
    if |segs| > 1 {
      JoinHead(segs[1..]);
    }
  }

  lemma {:induction false} PiecesOfJoin(segs: seq<seq<byte>>)
    requires segs != [] && CleanPath(segs)
    ensures Pieces(Join(segs)[1..]) == segs
  {
    var u := Join(segs[1..]);
    assert CleanName(segs[0]);
    JoinRest(segs);
    PiecesCut(segs[0], u);
    Uncons(segs);
    if |segs| > 1 {
      PiecesOfJoin(segs[1..]);
    }
  }

  lemma {:induction false} CappedOfClean(stack: seq<seq<byte>>, cs: seq<seq<byte>>)
    requires CleanPath(cs) && |stack| + |cs| <= SEG_MAX
    ensures Capped(stack, cs) == stack + cs
    decreases |cs|
  {
    if cs != [] {
      assert CleanName(cs[0]);
      CappedOfClean(stack + [cs[0]], cs[1..]);
      assert stack + [cs[0]] + cs[1..] == stack + cs;
    }
  }

  /** Reading a rendered path gives its components back. */
  lemma SegsOfRender(segs: seq<seq<byte>>)
    requires CleanPath(segs) && |segs| <= SEG_MAX
    ensures Segs(Render(segs)) == segs
  {
    if segs != [] {
      PiecesOfJoin(segs);
    }
    CappedOfClean([], segs);
  }

  /** Normalising a second time changes nothing, on every input the code accepts. */
  lemma Idempotent(path: CStr)
    requires path != []
    ensures Segs(Render(Segs(path))) == Segs(path)
    ensures Render(Segs(Render(Segs(path)))) == Render(Segs(path))
  {
    SegsClean(path);
    SegsOfRender(Segs(path));
  }

  /** Where the scan stops: behind the component that stacks the 32nd name, or at the end. */
  function Full(stack: seq<seq<byte>>, cs: seq<seq<byte>>): (k: nat)
    ensures k <= |cs|
    decreases |cs|
  {
    if cs == [] || |stack| >= SEG_MAX then 0 else 1 + Full(Push(stack, cs[0]), cs[1..])
  }

  /**
   For every input: the code computes the stack meaning of a prefix of the pieces, namely the longest
   one whose depth stays below 32 until its end.
   */
  lemma {:induction false} CappedIsPrefix(stack: seq<seq<byte>>, cs: seq<seq<byte>>)
    ensures var k := Full(stack, cs);
            && Capped(stack, cs) == Meaning(stack, cs[..k])
            && (forall j :: 0 <= j < k ==> |Meaning(stack, cs[..j])| < SEG_MAX)
            && (k < |cs| ==> |Meaning(stack, cs[..k])| >= SEG_MAX)
    decreases |cs|
  {
    if cs != [] && |stack| < SEG_MAX {
      CappedIsPrefix(Push(stack, cs[0]), cs[1..]);
      var k := Full(stack, cs);
      MeaningStep(stack, cs, k);
      forall j | 0 < j < k
        ensures |Meaning(stack, cs[..j])| < SEG_MAX
      {
        MeaningStep(stack, cs, j);
      }
    }
  }

  lemma MeaningStep(stack: seq<seq<byte>>, cs: seq<seq<byte>>, k: nat)
    requires 0 < k <= |cs|
    ensures Meaning(stack, cs[..k]) == Meaning(Push(stack, cs[0]), cs[1..][..k - 1])
  {
    assert cs[..k][1..] == cs[1..][..k - 1];
  }

  /** The components of a path in the usual sense: what stands between slashes, of any length. */
  function Components(p: seq<byte>): seq<seq<byte>> {
    var k := FirstSlash(p);
    [p[..k]] + (if k < |p| then Components(p[k + 1..]) else [])
  }

  function FirstSlash(p: seq<byte>): (k: nat)
    ensures k <= |p| && (forall i :: 0 <= i < k ==> p[i] != SLASH) && (k < |p| ==> p[k] == SLASH)
  {
    if p == [] || p[0] == SLASH then 0 else 1 + FirstSlash(p[1..])
  }

  predicate Short(cs: seq<seq<byte>>) {
    forall i :: 0 <= i < |cs| ==> |cs[i]| <= NAME_MAX
  }

  /** The depth stays below 32 before the last component. */
  predicate NeverFull(stack: seq<seq<byte>>, cs: seq<seq<byte>>) {
    forall j :: 0 <= j < |cs| ==> |Meaning(stack, cs[..j])| < SEG_MAX
  }

  lemma ComponentsCut(c: seq<byte>, t: seq<byte>)
    requires SLASH !in c && (t == [] || t[0] == SLASH)
    ensures Components(c + t) == [c] + (if t == [] then [] else Components(t[1..]))
  {
    FirstSlashOfName(c, t);
    assert (c + t)[..|c|] == c;
    assert t != [] ==> (c + t)[|c| + 1..] == t[1..];
  }

  lemma ShortTail(c: seq<byte>, rest: seq<seq<byte>>, all: seq<seq<byte>>)
    requires all == [c] + rest && Short(all)
    ensures |c| <= NAME_MAX && Short(rest)
  {
    assert all[0] == c;
    assert forall i :: 0 <= i < |rest| ==> rest[i] == all[i + 1];
  }

  lemma SameButLast(c: seq<byte>, a: seq<seq<byte>>, b: seq<seq<byte>>)
    requires a == b || a == b + [[]]
    ensures [c] + a == [c] + b || [c] + a == [c] + b + [[]]
  {
    Assoc([c], b, [[]]);
  }

  /** The code cuts a path into its components; it does not see an empty one at the end. */
  lemma {:induction false} PiecesAreComponents(p: seq<byte>)
    requires Short(Components(p))
    ensures Components(p) == Pieces(p) || Components(p) == Pieces(p) + [[]]
    decreases |p|
  {
    if p != [] {
      var k := FirstSlash(p);
      var c, t := p[..k], p[k..];
      assert c + t == p;
      ComponentsCut(c, t);
      var rest := if t == [] then [] else Components(t[1..]);
      ShortTail(c, rest, Components(p));
      PiecesCut(c, t);
      if t != [] {
        PiecesAreComponents(t[1..]);
        SameButLast(c, Components(t[1..]), Pieces(t[1..]));
      }
    }
  }

  lemma {:induction false} CappedIsMeaning(stack: seq<seq<byte>>, cs: seq<seq<byte>>)
    requires NeverFull(stack, cs)
    ensures Capped(stack, cs) == Meaning(stack, cs)
    decreases |cs|
  {
    if cs != [] {
      assert cs[..0] == [];
      forall j | 0 <= j < |cs[1..]|
        ensures |Meaning(Push(stack, cs[0]), cs[1..][..j])| < SEG_MAX
      {
        MeaningStep(stack, cs, j + 1);
      }
      CappedIsMeaning(Push(stack, cs[0]), cs[1..]);
    }
  }

  lemma {:induction false} MeaningAppend(stack: seq<seq<byte>>, cs: seq<seq<byte>>, ds: seq<seq<byte>>)
    ensures Meaning(stack, cs + ds) == Meaning(Meaning(stack, cs), ds)
    decreases |cs|
  {
    if cs == [] {
      assert cs + ds == ds;
    } else {
      assert (cs + ds)[1..] == cs[1..] + ds;
      MeaningAppend(Push(stack, cs[0]), cs[1..], ds);
    }
  }

  /** The capped scan of a remainder, when every component fits and the depth stays in bounds. */
  lemma ScanIsMeaning(stack: seq<seq<byte>>, p: seq<byte>)
    requires Short(Components(p)) && NeverFull(stack, Components(p))
    ensures Capped(stack, Pieces(p)) == Meaning(stack, Components(p))
  {
    var cs, ps := Components(p), Pieces(p);
    PiecesAreComponents(p);
    forall j | 0 <= j < |ps|
      ensures |Meaning(stack, ps[..j])| < SEG_MAX
    {
      assert ps[..j] == cs[..j];
    }
    CappedIsMeaning(stack, ps);
    if cs != ps {
      MeaningAppend(stack, ps, [[]]);
    }
  }

  /** Within its limits the code computes the usual meaning of "." and "..". */
  lemma NormalizeIsMeaning(path: CStr)
    requires path != [] && Short(Components(path[1..])) && NeverFull([], Components(path[1..]))
    ensures Segs(path) == Meaning([], Components(path[1..]))
  {
    ScanIsMeaning([], path[1..]);
  }

  /** How many names that were there before the components take off the stack. */
  function Pops(cs: seq<seq<byte>>): nat {
    if cs == [] then 0
    else
      var front := cs[..|cs| - 1];
      Pops(front) + (if cs[|cs| - 1] == DOTDOT && Meaning([], front) == [] then 1 else 0)
  }

  /** Components take some names off the stack and put their own on it. */
  lemma {:induction false} MeaningOn(stack: seq<seq<byte>>, cs: seq<seq<byte>>)
    ensures Meaning(stack, cs) == stack[..|stack| - Min(Pops(cs), |stack|)] + Meaning([], cs)
    decreases |cs|
  {
    if cs != [] {
      var front, c := cs[..|cs| - 1], cs[|cs| - 1];
      assert front + [c] == cs;
      MeaningOn(stack, front);
      MeaningSnoc(stack, front, c);
      MeaningSnoc([], front, c);
      PushOn(stack, Min(Pops(front), |stack|), Meaning([], front), c);
    }
  }

  lemma MeaningSnoc(stack: seq<seq<byte>>, cs: seq<seq<byte>>, c: seq<byte>)
    ensures Meaning(stack, cs + [c]) == Push(Meaning(stack, cs), c)
  {
    MeaningAppend(stack, cs, [c]);
    assert [c][1..] == [];
  }

  lemma PushOn(stack: seq<seq<byte>>, m: nat, own: seq<seq<byte>>, c: seq<byte>)
    requires m <= |stack|
    ensures var m' := if c == DOTDOT && own == [] && m < |stack| then m + 1 else m;
            Push(stack[..|stack| - m] + own, c) == stack[..|stack| - m'] + Push(own, c)
  {
    if c == DOTDOT && own != [] {
      assert (stack[..|stack| - m] + own)[..|stack| - m + |own| - 1] == stack[..|stack| - m] + own[..|own| - 1];
    } else if c == DOTDOT && m < |stack| {
      assert (stack[..|stack| - m] + own)[..|stack| - m - 1] == stack[..|stack| - (m + 1)];
    }
  }

  /** The components put back exactly the names that they take off the stack. */
  predicate Undone(stack: seq<seq<byte>>, cs: seq<seq<byte>>) {
    Meaning([], cs) == stack[|stack| - Min(Pops(cs), |stack|)..]
  }

  lemma UndoneExact(stack: seq<seq<byte>>, cs: seq<seq<byte>>)
    ensures Meaning(stack, cs) == stack <==> Undone(stack, cs)
  {
    MeaningOn(stack, cs);
    var n := |stack| - Min(Pops(cs), |stack|);
    assert stack[..n] + stack[n..] == stack;
    assert (stack[..n] + Meaning([], cs))[n..] == Meaning([], cs);
  }

  /** For every list of components: dropping what comes after the 32nd name is right exactly if it undoes itself. */
  lemma CappedExact(cs: seq<seq<byte>>)
    ensures Capped([], cs) == Meaning([], cs) <==> Undone(Meaning([], cs[..Full([], cs)]), cs[Full([], cs)..])
  {
    var k := Full([], cs);
    CappedIsPrefix([], cs);
    assert cs[..k] + cs[k..] == cs;
    MeaningAppend([], cs[..k], cs[k..]);
    UndoneExact(Meaning([], cs[..k]), cs[k..]);
  }

  /** An empty component at the end does not matter, even to the scan that gives up. */
  lemma {:induction false} CappedSkipsLast(stack: seq<seq<byte>>, cs: seq<seq<byte>>)
    ensures Capped(stack, cs + [[]]) == Capped(stack, cs)
    decreases |cs|
  {
    if cs == [] {
      var last: seq<seq<byte>> := [[]];
      assert cs + last == last && last[1..] == [];
    } else {
      assert (cs + [[]])[1..] == cs[1..] + [[]];
      CappedSkipsLast(Push(stack, cs[0]), cs[1..]);
    }
  }

  /**
   With components of at most 127 bytes, the code computes the usual meaning exactly if the components behind the
   one that stacks the 32nd name put back the names that they take off.
   */
  lemma NormalizeExact(path: CStr)
    requires path != [] && Short(Components(path[1..]))
    ensures var cs := Components(path[1..]);
            Segs(path) == Meaning([], cs) <==> Undone(Meaning([], cs[..Full([], cs)]), cs[Full([], cs)..])
  {
    PiecesAreComponents(path[1..]);
    CappedSkipsLast([], Pieces(path[1..]));
    CappedExact(Components(path[1..]));
  }

  /** A path whose meaning keeps a name above 127 bytes, or more than 32 names, is never normalised to its meaning. */
  lemma BeyondLimits(path: CStr)
    requires path != []
    requires var m := Meaning([], Components(path[1..]));
             |m| > SEG_MAX || exists i :: 0 <= i < |m| && |m[i]| > NAME_MAX
    ensures Segs(path) != Meaning([], Components(path[1..]))
  {
    SegsClean(path);
    assert forall i :: 0 <= i < |Segs(path)| ==> CleanName(Segs(path)[i]);
  }

  /** Paths of more than 32 names lose the names behind the 32nd. */
  lemma DeepPathsAreCut(segs: seq<seq<byte>>)
    requires CleanPath(segs) && |segs| > SEG_MAX
    ensures Meaning([], Components(Render(segs)[1..])) == segs && Segs(Render(segs)) == segs[..SEG_MAX]
  {
    PiecesOfJoin(segs);
    ComponentsOfJoin(segs);
    MeaningOfClean([], segs);
    CappedCut([], segs);
    assert [] + segs == segs;
  }

  /** A list of clean names survives being written and normalised exactly if there are at most 32. */
  lemma RenderExact(segs: seq<seq<byte>>)
    requires CleanPath(segs)
    ensures Segs(Render(segs)) == segs <==> |segs| <= SEG_MAX
  {
    if |segs| > SEG_MAX {
      DeepPathsAreCut(segs);
    } else {
      SegsOfRender(segs);
    }
  }

  lemma {:induction false} PieceCapped(p: seq<byte>, n: nat)
    requires SLASH !in p && n <= |p|
    ensures Piece(p, n) == n
  {
    if n > 0 {
      PieceCapped(p[1..], n - 1);
    }
  }

  /** What becomes of a component of 128 to 254 bytes: it is cut, and a tail of dots even acts as such. */
  lemma LongNamesAreSplit(c: seq<byte>)
    requires SLASH !in c && 0 !in c && NAME_MAX < |c| <= 2 * NAME_MAX
    ensures Meaning([], Components(([SLASH] + c)[1..])) == [c]
    ensures var head, tail := c[..NAME_MAX], c[NAME_MAX..];
            Segs([SLASH] + c) == if tail == DOTDOT then [] else if tail == DOT then [head] else [head, tail]
  {
    var head, tail := c[..NAME_MAX], c[NAME_MAX..];
    assert ([SLASH] + c)[1..] == c && c + [] == c && tail + [] == tail;
    FirstSlashOfName(c, []);
    PieceCapped(c, NAME_MAX);
    assert Rest(c) == tail;
    PiecesCut(tail, []);
    assert CleanName(head);
    assert Pieces(c) == [head, tail];
    var two, one: seq<seq<byte>> := [head, tail], [tail];
    assert two[1..] == one && one[1..] == [] && Push([], head) == [head];
    assert Capped([], two) == Capped([head], one) == Push([head], tail);
  }

  lemma {:induction false} ComponentsOfJoin(segs: seq<seq<byte>>)
    requires segs != [] && CleanPath(segs)
    ensures Components(Join(segs)[1..]) == segs
  {
    assert CleanName(segs[0]);
    JoinRest(segs);
    ComponentsCut(segs[0], Join(segs[1..]));
    Uncons(segs);
    if |segs| > 1 {
      ComponentsOfJoin(segs[1..]);
    }
  }

  lemma {:induction false} FirstSlashOfName(c: seq<byte>, t: seq<byte>)
    requires SLASH !in c && (t == [] || t[0] == SLASH)
    ensures FirstSlash(c + t) == |c|
  {
    if c == [] {
      assert c + t == t;
    } else {
      assert (c + t)[1..] == c[1..] + t;
      FirstSlashOfName(c[1..], t);
    }
  }

  lemma {:induction false} MeaningOfClean(stack: seq<seq<byte>>, cs: seq<seq<byte>>)
    requires CleanPath(cs)
    ensures Meaning(stack, cs) == stack + cs
    decreases |cs|
  {
    if cs != [] {
      assert CleanName(cs[0]);
      MeaningOfClean(stack + [cs[0]], cs[1..]);
      assert stack + [cs[0]] + cs[1..] == stack + cs;
    }
  }

  lemma {:induction false} CappedCut(stack: seq<seq<byte>>, cs: seq<seq<byte>>)
    requires CleanPath(cs) && |stack| <= SEG_MAX <= |stack| + |cs|
    ensures Capped(stack, cs) == (stack + cs)[..SEG_MAX]
    decreases |cs|
  {
    if cs != [] && |stack| < SEG_MAX {
      assert CleanName(cs[0]);
      CappedCut(stack + [cs[0]], cs[1..]);
      assert stack + [cs[0]] + cs[1..] == stack + cs;
    }
  }

  lemma PiecesOfSlash(rel: seq<byte>)
    ensures Pieces([SLASH] + rel) == [[]] + Pieces(rel)
  {
    var p := [SLASH] + rel;
    PiecesCut([], p);
    assert [] + p == p && p[1..] == rel;
  }

  lemma SkipEmpty(cs: seq<seq<byte>>)
    ensures Capped([], [[]] + cs) == Capped([], cs)
  {
    assert ([[]] + cs)[1..] == cs;
  }

  lemma DoubledSlash(rel: seq<byte>)
    ensures Segs([SLASH] + [SLASH] + rel) == Segs([SLASH] + rel)
  {
    PiecesOfSlash(rel);
    SkipEmpty(Pieces(rel));
    assert ([SLASH] + [SLASH] + rel)[1..] == [SLASH] + rel && ([SLASH] + rel)[1..] == rel;
  }

  lemma JoinUnroll(segs: seq<seq<byte>>, t: seq<byte>)
    requires segs != []
    ensures Join(segs) + t == [SLASH] + (segs[0] + (Join(segs[1..]) + t))
    ensures (Join(segs) + t)[1..] == segs[0] + (Join(segs[1..]) + t)
  {
    Assoc([SLASH] + segs[0], Join(segs[1..]), t);
    Assoc([SLASH], segs[0], Join(segs[1..]) + t);
  }

  lemma {:induction false} PiecesBehindJoin(segs: seq<seq<byte>>, t: seq<byte>)
    requires segs != [] && CleanPath(segs) && t != [] && t[0] == SLASH
    ensures Pieces((Join(segs) + t)[1..]) == segs + Pieces(t[1..])
  {
    var u := Join(segs[1..]) + t;
    assert CleanName(segs[0]);
    JoinUnroll(segs, t);
    PiecesCut(segs[0], u);
    if |segs| == 1 {
      assert u == t && segs == [segs[0]];
    } else {
      PiecesBehindJoin(segs[1..], t);
      HeadTail(segs, Pieces(t[1..]));
    }
  }

  lemma {:induction false} CappedOfCleanThen(stack: seq<seq<byte>>, cs: seq<seq<byte>>, ds: seq<seq<byte>>)
    requires CleanPath(cs) && |stack| + |cs| <= SEG_MAX
    ensures Capped(stack, cs + ds) == Capped(stack + cs, ds)
    decreases |cs|
  {
    if cs == [] {
      assert cs + ds == ds && stack + cs == stack;
    } else {
      assert CleanName(cs[0]);
      assert (cs + ds)[1..] == cs[1..] + ds;
      CappedOfCleanThen(stack + [cs[0]], cs[1..], ds);
      assert stack + [cs[0]] + cs[1..] == stack + cs;
    }
  }

  /** Resolving a relative path continues the stack of the working directory. */
  lemma ResolveContinuesStack(cwd: seq<seq<byte>>, rel: CStr)
    requires CleanPath(cwd) && |cwd| <= SEG_MAX
    requires Short(Components(rel)) && NeverFull(cwd, Components(rel))
    ensures Segs(Render(cwd) + [SLASH] + rel) == Meaning(cwd, Components(rel))
  {
    if cwd == [] {
      DoubledSlash(rel);
      assert ([SLASH] + rel)[1..] == rel;
    } else {
      PiecesBehindJoin(cwd, [SLASH] + rel);
      assert Join(cwd) + ([SLASH] + rel) == Render(cwd) + [SLASH] + rel && ([SLASH] + rel)[1..] == rel;
      CappedOfCleanThen([], cwd, Pieces(rel));
      assert [] + cwd == cwd;
    }
    ScanIsMeaning(cwd, rel);
  }

  lemma {:induction false} LastSlashOf(a: seq<byte>, c: seq<byte>)
    requires SLASH !in c && (a == [] || a[0] == SLASH)
    ensures LastSlash(a + [SLASH] + c) == |a|
    decreases |c|
  {
    var p := a + [SLASH] + c;
    if c != [] {
      var c' := c[..|c| - 1];
      assert p[..|p| - 1] == a + [SLASH] + c';
      LastSlashOf(a, c');
    }
  }

  /** Splitting a rendered path: everything but the last component, and the last component. */
  lemma SplitRender(dir: seq<seq<byte>>, base: seq<byte>)
    requires CleanPath(dir) && CleanName(base)
    ensures var norm := Render(dir + [base]);
            && norm != [] && norm[0] == SLASH && |norm| == |Join(dir)| + 1 + |base|
            && LastSlash(norm) == |Join(dir)| && norm[|Join(dir)| + 1..] == base
            && Render(dir) == if |Join(dir)| == 0 then [SLASH] else norm[..|Join(dir)|]
    ensures dir == [] <==> |Join(dir)| == 0
  {
    JoinAppend(dir, base);
    LastSlashOf(Join(dir), base);
    var norm := Render(dir + [base]);
    assert norm == Join(dir) + [SLASH] + base;
    assert norm[..|Join(dir)|] == Join(dir) && norm[|Join(dir)| + 1..] == base;
  }

  lemma OneComponent(c: seq<byte>)
    requires SLASH !in c
    ensures Components(c) == [c]
  {
    assert FirstSlash(c) == |c|;
    assert c[..|c|] == c;
  }

  lemma PushOne(cwd: seq<seq<byte>>, c: CStr)
    requires CleanPath(cwd) && |cwd| < SEG_MAX && |c| <= NAME_MAX && SLASH !in c
    ensures Segs(Render(cwd) + [SLASH] + c) == Push(cwd, c)
  {
    OneComponent(c);
    assert [c][..0] == [] && [c][1..] == [];
    assert NeverFull(cwd, [c]);
    ResolveContinuesStack(cwd, c);
    assert Meaning(Push(cwd, c), []) == Push(cwd, c);
  }

  /** What one more component does to a path: ".", "..", a name, and nothing behind a slash. */
  lemma DotAndDotDot(cwd: seq<seq<byte>>, name: seq<byte>)
    requires CleanPath(cwd) && |cwd| < 32 && CleanName(name)
    ensures Segs(Render(cwd) + [47] + []) == cwd && Segs(Render(cwd) + [47] + [46]) == cwd
    ensures Segs(Render(cwd) + [47] + [46, 46]) == if cwd == [] then [] else cwd[..|cwd| - 1]
    ensures Segs(Render(cwd) + [47] + name) == cwd + [name]
  {
    PushOne(cwd, []);
    PushOne(cwd, [46]);
    PushOne(cwd, [46, 46]);
    PushOne(cwd, name);
  }
}
