/**
 One pixel under a stack of layers. `st` lists layer numbers from bottom to top, `cov` holds the layers
 that are opaque at the pixel.
 */
module Layers {
  import opened Seqs

  /** The topmost layer of `st` that covers the pixel, or `d` if there is none. */
  function Own(st: seq<int>, cov: set<int>, d: int): int {
    if st == [] then d
    else if st[|st| - 1] in cov then st[|st| - 1]
    else Own(st[..|st| - 1], cov, d)
  }

  /** No layer of `st` covers the pixel. */
  predicate Bare(st: seq<int>, cov: set<int>) {
    forall i :: i in st ==> i !in cov
  }

  lemma {:induction false} OwnConcat(s: seq<int>, t: seq<int>, cov: set<int>, d: int)
    ensures Own(s + t, cov, d) == Own(t, cov, Own(s, cov, d))
  {
    if t == [] {
      assert s + t == s;
    } else {
      assert (s + t)[..|s + t| - 1] == s + t[..|t| - 1];
      OwnConcat(s, t[..|t| - 1], cov, d);
    }
  }

  lemma {:induction false} OwnBare(st: seq<int>, cov: set<int>, d: int)
    requires Bare(st, cov)
    ensures Own(st, cov, d) == d
  {
    if st != [] {
      OwnBare(st[..|st| - 1], cov, d);
    }
  }

  /** Otherwise the owner is a covering layer of the stack, whatever lies beneath. */
  lemma {:induction false} OwnCovered(st: seq<int>, cov: set<int>, d: int, d': int)
    requires !Bare(st, cov)
    ensures Own(st, cov, d) == Own(st, cov, d') && Own(st, cov, d) in st && Own(st, cov, d) in cov
  {
    var top := st[|st| - 1];
    if top !in cov {
      TakeSnoc(st, |st| - 1);
      OwnCovered(st[..|st| - 1], cov, d, d');
    }
  }

  lemma OwnTwice(st: seq<int>, cov: set<int>, d: int)
    ensures Own(st, cov, Own(st, cov, d)) == Own(st, cov, d)
  {
    if Bare(st, cov) {
      OwnBare(st, cov, d);
    } else {
      OwnCovered(st, cov, d, Own(st, cov, d));
    }
  }

  /** Only layers of the stack matter. */
  lemma {:induction false} OwnSame(st: seq<int>, cov: set<int>, cov': set<int>, d: int)
    requires forall i :: i in st ==> (i in cov <==> i in cov')
    ensures Own(st, cov, d) == Own(st, cov', d)
  {
    if st != [] {
      OwnSame(st[..|st| - 1], cov, cov', d);
    }
  }

  /** Layer `sid` put into the stack at height `p`. */
  function Put(rest: seq<int>, p: nat, sid: int): seq<int>
    requires p <= |rest|
  {
    rest[..p] + [sid] + rest[p..]
  }

  /** The layers above and including height `p`, on top of those beneath it. */
  lemma OwnPut(rest: seq<int>, p: nat, sid: int, cov: set<int>, d: int)
    requires p <= |rest|
    ensures Own(Put(rest, p, sid), cov, d) == Own([sid] + rest[p..], cov, Own(rest[..p], cov, d))
    ensures Own(rest, cov, d) == Own(rest[p..], cov, Own(rest[..p], cov, d))
    ensures Own([sid] + rest[p..], cov, d) == Own(rest[p..], cov, if sid in cov then sid else d)
  {
    Assoc(rest[..p], [sid], rest[p..]);
    OwnConcat(rest[..p], [sid] + rest[p..], cov, d);
    OwnConcat(rest[..p], rest[p..], cov, d);
    TakeDrop(rest, p);
    OwnConcat([sid], rest[p..], cov, d);
  }

  /** A layer that does not cover the pixel may be put anywhere or taken away. */
  lemma OwnPutBare(rest: seq<int>, p: nat, sid: int, cov: set<int>, d: int)
    requires p <= |rest| && sid !in cov
    ensures Own(Put(rest, p, sid), cov, d) == Own(rest, cov, d)
  {
    OwnPut(rest, p, sid, cov, d);
    OwnPut(rest, p, sid, cov, Own(rest[..p], cov, d));
  }

  /** The owner is the layer that was put in, exactly if it covers and nothing above it does. */
  lemma OwnPutCases(rest: seq<int>, p: nat, sid: int, cov: set<int>, d: int)
    requires p <= |rest|
    ensures sid in cov && Bare(rest[p..], cov) ==> Own(Put(rest, p, sid), cov, d) == sid
    ensures !(sid in cov && Bare(rest[p..], cov)) ==> Own(Put(rest, p, sid), cov, d) == Own(rest, cov, d)
  {
    OwnPut(rest, p, sid, cov, d);
    var under := Own(rest[..p], cov, d);
    OwnPut(rest, p, sid, cov, under);
    if Bare(rest[p..], cov) {
      OwnBare(rest[p..], cov, under);
      OwnBare(rest[p..], cov, sid);
    } else {
      OwnCovered(rest[p..], cov, under, sid);
    }
  }

  lemma BareTail(rest: seq<int>, p: nat, q: nat, cov: set<int>)
    requires p <= q <= |rest| && Bare(rest[p..], cov)
    ensures Bare(rest[q..], cov)
  {
    assert rest[q..] == rest[p..][q - p..];
  }

  lemma OwnerWhere(st: seq<int>, p: nat, cov: set<int>, d: int)
    requires p <= |st|
    ensures !Bare(st[p..], cov) ==> Own(st, cov, d) in st[p..] && Own(st, cov, d) == Own(st[p..], cov, d)
    ensures Bare(st[p..], cov) ==> Own(st, cov, d) == Own(st[..p], cov, d)
  {
    TakeDrop(st, p);
    OwnConcat(st[..p], st[p..], cov, d);
    if Bare(st[p..], cov) {
      OwnBare(st[p..], cov, Own(st[..p], cov, d));
    } else {
      OwnCovered(st[p..], cov, Own(st[..p], cov, d), d);
    }
  }

  /**
   Redrawing the map from height `p` makes it right for the whole stack, if it was right before except
   for what changed at height `p` and above.
   */
  lemma MapFromHeight(st: seq<int>, p: nat, cov: set<int>, m: int)
    requires p <= |st|
    requires Bare(st[p..], cov) ==> Own(st, cov, m) == m
    ensures var m' := Own(st[p..], cov, m); Own(st, cov, m') == m'
  {
    OwnerWhere(st, p, cov, Own(st[p..], cov, m));
    if Bare(st[p..], cov) {
      OwnBare(st[p..], cov, m);
    } else {
      OwnCovered(st[p..], cov, m, Own(st[p..], cov, m));
    }
  }

  /** Painting the stack from bottom to top over colour `v`; `col` gives the colours of the covering layers. */
  function Repaint(st: seq<int>, col: map<int, int>, v: int): int {
    if st == [] then v
    else if st[|st| - 1] in col then col[st[|st| - 1]]
    else Repaint(st[..|st| - 1], col, v)
  }

  lemma BareSnoc(st: seq<int>, cov: set<int>)
    requires st != []
    ensures Bare(st, cov) <==> st[|st| - 1] !in cov && Bare(st[..|st| - 1], cov)
  {
    var front, last := st[..|st| - 1], st[|st| - 1];
    TakeSnoc(st, |st| - 1);
    assert st == front + [last];
    assert forall i :: i in st <==> i in front || i == last;
  }

  lemma {:induction false} RepaintOwner(st: seq<int>, col: map<int, int>, v: int, d: int)
    ensures Bare(st, col.Keys) ==> Repaint(st, col, v) == v
    ensures !Bare(st, col.Keys) ==> var o := Own(st, col.Keys, d); o in col && Repaint(st, col, v) == col[o]
  {
    if st != [] {
      BareSnoc(st, col.Keys);
      if st[|st| - 1] !in col {
        RepaintOwner(st[..|st| - 1], col, v, d);
      }
    }
  }

  /** The map names the topmost covering layer, and a full repaint would leave the colour as it is. */
  predicate PixelOk(st: seq<int>, col: map<int, int>, m: int, v: int) {
    Own(st, col.Keys, m) == m && Repaint(st, col, v) == v
  }

  /** The topmost covering layer has the pixel. */
  lemma {:induction false} TopmostShows(st: seq<int>, col: map<int, int>, h: nat, m: int, v: int)
    requires h < |st| && st[h] in col && forall k :: h < k < |st| ==> st[k] !in col
    ensures Own(st, col.Keys, m) == st[h] && Repaint(st, col, v) == col[st[h]]
  {
    if h < |st| - 1 {
      TopmostShows(st[..|st| - 1], col, h, m, v);
    }
  }

  /** With a covering layer in the stack, both are determined: nothing that was drawn before matters. */
  lemma PixelDetermined(st: seq<int>, col: map<int, int>, m: int, v: int, background: int)
    requires PixelOk(st, col, m, v) && !Bare(st, col.Keys)
    ensures m in st && m in col && v == col[m] == Repaint(st, col, background)
  {
    OwnCovered(st, col.Keys, m, m);
    RepaintOwner(st, col, v, m);
    RepaintOwner(st, col, background, m);
  }

  /** What a redraw of the layers `ids` inside a rectangle does to the colour of a pixel owned by `m`. */
  predicate Painted(m: int, ids: seq<int>, inside: bool, col: map<int, int>, v: int, v': int) {
    && (inside && m in ids && m in col ==> v' == col[m])
    && (!(inside && m in ids) ==> v' == v)
  }

  /** A pixel stays right if its new owner is redrawn, or if it has the owner it had. */
  lemma PaintOk(st: seq<int>, st': seq<int>, col: map<int, int>, m: int, m': int, v: int, v': int, ids: seq<int>,
      inside: bool)
    requires PixelOk(st, col, m, v) && Own(st', col.Keys, m') == m' && Painted(m', ids, inside, col, v, v')
    requires !Bare(st', col.Keys) && !(inside && m' in ids) ==> !Bare(st, col.Keys) && m' == m
    ensures PixelOk(st', col, m', v')
  {
    RepaintOwner(st', col, v', m');
    RepaintOwner(st, col, v, m);
  }

  lemma PutMember(rest: seq<int>, p: nat, sid: int)
    requires p <= |rest|
    ensures forall i :: i in Put(rest, p, sid) <==> i == sid || i in rest
    ensures Put(rest, p, sid)[p..] == [sid] + rest[p..] && Put(rest, p, sid)[..p] == rest[..p]
  {
    TakeDrop(rest, p);
    var st := Put(rest, p, sid);
    forall i | i in rest ensures i in st {
      assert i in rest[..p] || i in rest[p..];
    }
  }

  lemma PutMiddle(rest: seq<int>, q: nat, p: nat, sid: int)
    requires q <= p <= |rest|
    ensures Put(rest, q, sid)[q + 1..p + 1] == rest[q..p]
  {
  }

  lemma ShowPixel(rest: seq<int>, p: nat, sid: int, col: map<int, int>, m: int, m': int, v: int, v': int, inside: bool)
    requires p <= |rest| && sid !in rest && PixelOk(rest, col, m, v) && (sid in col ==> inside)
    requires m' == if inside then Own(Put(rest, p, sid)[p..], col.Keys, m) else m
    requires Painted(m', [sid], inside, col, v, v')
    ensures PixelOk(Put(rest, p, sid), col, m', v')
  {
    var st', cov := Put(rest, p, sid), col.Keys;
    PutMember(rest, p, sid);
    OwnPutCases(rest, p, sid, cov, m);
    OwnPutCases(rest, p, sid, cov, m');
    if inside {
      MapFromHeight(st', p, cov, m);
    }
    if !Bare(st', cov) {
      OwnCovered(st', cov, m, m');
      if m' != sid {
        assert !Bare(rest, cov);
        OwnCovered(rest, cov, m, m');
      }
    }
    PaintOk(rest, st', col, m, m', v, v', [sid], inside);
  }

  lemma HidePixel(rest: seq<int>, p: nat, sid: int, col: map<int, int>, m: int, m': int, v: int, v': int, inside: bool)
    requires p <= |rest| && sid !in rest && PixelOk(Put(rest, p, sid), col, m, v) && (sid in col ==> inside)
    requires m' == if inside then Own(rest, col.Keys, m) else m
    requires Painted(m', rest, inside, col, v, v')
    ensures PixelOk(rest, col, m', v')
  {
    var st, cov := Put(rest, p, sid), col.Keys;
    PutMember(rest, p, sid);
    OwnTwice(rest, cov, m);
    if !inside {
      OwnPutBare(rest, p, sid, cov, m);
    }
    if !Bare(rest, cov) {
      assert !Bare(st, cov);
      OwnCovered(rest, cov, m, m');
    }
    PaintOk(st, rest, col, m, m', v, v', rest, inside);
  }

  /** Down from height `p` to height `q`: only the layers that it passed can become visible. */
  lemma LowerPixel(rest: seq<int>, p: nat, q: nat, sid: int, col: map<int, int>, m: int, m': int, v: int, v': int,
      inside: bool)
    requires q < p <= |rest| && sid !in rest && PixelOk(Put(rest, p, sid), col, m, v) && (sid in col ==> inside)
    requires m' == if inside then Own(Put(rest, q, sid)[q..], col.Keys, m) else m
    requires Painted(m', rest[q..p], inside, col, v, v')
    ensures PixelOk(Put(rest, q, sid), col, m', v')
  {
    var st, st', cov := Put(rest, p, sid), Put(rest, q, sid), col.Keys;
    MovedMap(rest, p, q, sid, cov, m, m', inside);
    if inside && !Bare(st', cov) && m' !in rest[q..p] {
      LowerOwner(rest, p, q, sid, cov, m, m');
    }
    PaintOk(st, st', col, m, m', v, v', rest[q..p], inside);
  }

  lemma LowerOwner(rest: seq<int>, p: nat, q: nat, sid: int, cov: set<int>, m: int, m': int)
    requires q < p <= |rest| && sid !in rest && !Bare(Put(rest, q, sid), cov) && !Bare(Put(rest, p, sid), cov)
    requires Own(Put(rest, q, sid), cov, m') == m' && Own(Put(rest, p, sid), cov, m) == m && m' !in rest[q..p]
    ensures m == m'
  {
    OwnPutCases(rest, p, sid, cov, m');
    OwnPutCases(rest, q, sid, cov, m');
    OwnCovered(Put(rest, q, sid), cov, m, m');
    OwnCovered(Put(rest, p, sid), cov, m, m');
    assert rest[0..] == rest;
    if Bare(rest, cov) {
      BareTail(rest, 0, p, cov);
      BareTail(rest, 0, q, cov);
    } else {
      OwnCovered(rest, cov, m, m');
      if Bare(rest[q..], cov) {
        BareTail(rest, q, p, cov);
      } else if sid in cov && Bare(rest[p..], cov) {
        NotBetween(rest, q, p, cov, m');
      }
    }
  }

  /**
   If the topmost layer is not between heights q and p, then nothing in between covers unless something above does.
   */
  lemma NotBetween(rest: seq<int>, q: nat, p: nat, cov: set<int>, m: int)
    requires q <= p <= |rest| && Own(rest, cov, m) == m && (m in cov ==> m !in rest[q..p])
    requires !Bare(rest, cov)
    ensures Bare(rest[p..], cov) ==> Bare(rest[q..], cov)
  {
    OwnCovered(rest, cov, m, m);
    OwnerWhere(rest, q, cov, m);
    OwnerWhere(rest, p, cov, m);
    assert rest[q..p] == rest[..p][q..];
    if Bare(rest[p..], cov) {
      OwnerWhere(rest[..p], q, cov, m);
      assert rest[q..] == rest[q..p] + rest[p..];
    }
  }

  /** The map after a move of layer `sid` within the stack. */
  lemma MovedMap(rest: seq<int>, p: nat, q: nat, sid: int, cov: set<int>, m: int, m': int, inside: bool)
    requires p <= |rest| && q <= |rest| && sid !in rest
    requires Own(Put(rest, p, sid), cov, m) == m && (sid in cov ==> inside)
    requires m' == if inside then Own(Put(rest, q, sid)[q..], cov, m) else m
    ensures Own(Put(rest, q, sid), cov, m') == m'
    ensures Bare(Put(rest, p, sid), cov) <==> Bare(Put(rest, q, sid), cov)
  {
    PutMember(rest, p, sid);
    PutMember(rest, q, sid);
    if !inside {
      OwnPutBare(rest, p, sid, cov, m);
      OwnPutBare(rest, q, sid, cov, m);
    } else {
      if Bare([sid] + rest[q..], cov) {
        assert sid in [sid] + rest[q..];
        OwnPutBare(rest, p, sid, cov, m);
        OwnPutBare(rest, q, sid, cov, m);
      }
      MapFromHeight(Put(rest, q, sid), q, cov, m);
    }
  }

  /** Up from height `p` to height `q`: only the layer itself can become visible. */
  lemma RaisePixel(rest: seq<int>, p: nat, q: nat, sid: int, col: map<int, int>, m: int, m': int, v: int, v': int,
      inside: bool)
    requires p < q <= |rest| && sid !in rest && PixelOk(Put(rest, p, sid), col, m, v) && (sid in col ==> inside)
    requires m' == if inside then Own(Put(rest, q, sid)[q..], col.Keys, m) else m
    requires Painted(m', [sid], inside, col, v, v')
    ensures PixelOk(Put(rest, q, sid), col, m', v')
  {
    var st, st', cov := Put(rest, p, sid), Put(rest, q, sid), col.Keys;
    MovedMap(rest, p, q, sid, cov, m, m', inside);
    if !Bare(st', cov) {
      OwnCovered(st', cov, m, m');
      OwnPutCases(rest, p, sid, cov, m');
      OwnPutCases(rest, q, sid, cov, m');
      OwnCovered(st, cov, m, m');
      if sid in cov && Bare(rest[p..], cov) {
        BareTail(rest, p, q, cov);
      }
    }
    PaintOk(st, st', col, m, m', v, v', [sid], inside);
  }

  /** Up to the top without a new map: right exactly if the layer was topmost already, or does not cover the pixel. */
  lemma BeyondPixel(rest: seq<int>, p: nat, sid: int, col: map<int, int>, m: int, v: int, v': int, inside: bool)
    requires p <= |rest| && sid !in rest && PixelOk(Put(rest, p, sid), col, m, v)
    requires Painted(m, [sid], inside, col, v, v')
    ensures PixelOk(Put(rest, |rest|, sid), col, m, v') <==> (sid in col ==> Bare(rest[p..], col.Keys))
  {
    var st, st', cov := Put(rest, p, sid), Put(rest, |rest|, sid), col.Keys;
    PutMember(rest, p, sid);
    PutMember(rest, |rest|, sid);
    OwnPutCases(rest, p, sid, cov, m);
    OwnPutCases(rest, |rest|, sid, cov, m);
    if sid in cov && !Bare(rest[p..], cov) {
      OwnerWhere(rest, p, cov, m);
    } else {
      PaintOk(st, st', col, m, m, v, v', [sid], inside);
    }
  }

  /** The colours at the pixel differ at most for layer `sid`. */
  ghost predicate SameBut(col: map<int, int>, col': map<int, int>, sid: int) {
    forall i :: i != sid ==> (i in col <==> i in col') && (i in col ==> col[i] == col'[i])
  }

  /** Sliding layer `sid`: the place it leaves is redrawn beneath it, the place it enters with it. */
  lemma SlidePixel(rest: seq<int>, p: nat, sid: int, col: map<int, int>, col': map<int, int>,
                   m: int, m1: int, m2: int, v: int, v1: int, v2: int, inOld: bool, inNew: bool)
    requires p <= |rest| && sid !in rest && SameBut(col, col', sid)
    requires PixelOk(Put(rest, p, sid), col, m, v) && (sid in col ==> inOld) && (sid in col' ==> inNew)
    requires m1 == if inOld then Own(Put(rest, p, sid), col'.Keys, m) else m
    requires m2 == if inNew then Own(Put(rest, p, sid)[p..], col'.Keys, m1) else m1
    requires Painted(m2, rest[..p], inOld, col', v, v1) && Painted(m2, [sid], inNew, col', v1, v2)
    ensures PixelOk(Put(rest, p, sid), col', m2, v2)
  {
    var st, cov, cov' := Put(rest, p, sid), col.Keys, col'.Keys;
    PutMember(rest, p, sid);
    SlideMap(rest, p, sid, cov, cov', m, m1, m2, inOld, inNew);
    RepaintOwner(st, col', v2, m2);
    if !Bare(st, cov') {
      OwnCovered(st, cov', m2, m2);
      if m2 != sid && !(inOld && m2 in rest[..p]) {
        SlideOwner(rest, p, sid, cov, cov', m, m2, inOld);
        RepaintOwner(st, col, v, m);
      }
    }
  }

  lemma SlideMap(rest: seq<int>, p: nat, sid: int, cov: set<int>, cov': set<int>, m: int, m1: int, m2: int,
      inOld: bool, inNew: bool)
    requires p <= |rest| && sid !in rest && (forall i :: i != sid ==> (i in cov <==> i in cov'))
    requires Own(Put(rest, p, sid), cov, m) == m && (sid in cov ==> inOld) && (sid in cov' ==> inNew)
    requires m1 == if inOld then Own(Put(rest, p, sid), cov', m) else m
    requires m2 == if inNew then Own(Put(rest, p, sid)[p..], cov', m1) else m1
    ensures Own(Put(rest, p, sid), cov', m2) == m2
  {
    var st := Put(rest, p, sid);
    OwnTwice(st, cov', m);
    if !inOld && sid !in cov' {
      OwnSame(st, cov, cov', m);
    }
    assert st[p] == sid;
    MapFromHeight(st, p, cov', m1);
  }

  /** A visible layer other than `sid` that was not redrawn was visible before. */
  lemma SlideOwner(rest: seq<int>, p: nat, sid: int, cov: set<int>, cov': set<int>, m: int, m2: int, inOld: bool)
    requires p <= |rest| && sid !in rest && (forall i :: i != sid ==> (i in cov <==> i in cov'))
    requires sid in cov ==> inOld
    requires Own(Put(rest, p, sid), cov, m) == m && Own(Put(rest, p, sid), cov', m2) == m2
    requires m2 in cov' && m2 in rest && !(inOld && m2 in rest[..p])
    ensures m == m2 && !Bare(Put(rest, p, sid), cov)
  {
    PutMember(rest, p, sid);
    OwnPutCases(rest, p, sid, cov, m);
    OwnPutCases(rest, p, sid, cov', m2);
    OwnSame(rest, cov, cov', m);
    OwnSame(rest, cov, cov', m2);
    assert !Bare(rest, cov);
    OwnCovered(rest, cov, m, m2);
    if sid in cov {
      OwnerWhere(rest, p, cov, m2);
      TakeDrop(rest, p);
    }
  }

  /** A layer that is not in the stack may change at will. */
  lemma HiddenPixel(st: seq<int>, sid: int, col: map<int, int>, col': map<int, int>, m: int, v: int)
    requires sid !in st && SameBut(col, col', sid) && PixelOk(st, col, m, v)
    ensures PixelOk(st, col', m, v)
  {
    OwnSame(st, col.Keys, col'.Keys, m);
    RepaintOwner(st, col, v, m);
    RepaintOwner(st, col', v, m);
    if !Bare(st, col'.Keys) {
      OwnCovered(st, col'.Keys, m, m);
    }
  }
}
