/**
 The layer compositor of `sheet.c`: a pool of sheets, their order by height, the map of pixel owners and
 the frame buffer, with partial redraws of both.
 */
module Sheets {
  import opened Seqs
  import opened Layers

  const MAX_SHEETS := 256

  type Color = c: int | 0 <= c < 0x1_0000_0000

  lemma IndexIn(x: int, y: int, w: nat, h: nat)
    requires 0 <= x < w && 0 <= y < h
    ensures 0 <= y * w + x < w * h
  {
    assert (y + 1) * w <= h * w;
  }

  lemma RowBelow(x: nat, y: nat, x': nat, y': nat, w: nat)
    requires x < w && y < y'
    ensures y * w + x < y' * w + x'
  {
    assert (y + 1) * w <= y' * w;
  }

  lemma IndexInjective(x: nat, y: nat, x': nat, y': nat, w: nat)
    requires x < w && x' < w && (x != x' || y != y')
    ensures y * w + x != y' * w + x'
  {
    if y < y' {
      RowBelow(x, y, x', y', w);
    } else if y' < y {
      RowBelow(x', y', x, y, w);
    }
  }

  datatype Rect = Rect(x0: int, y0: int, x1: int, y1: int) {
    predicate Has(x: int, y: int) { x0 <= x < x1 && y0 <= y < y1 }
  }

  datatype Sheet = Sheet(buf: seq<Color>, bxsize: nat, bysize: nat, vx0: int, vy0: int, colInv: int, height: int,
    used: bool) {
    predicate BufOk() { |buf| >= bxsize * bysize }

    function Area(): Rect { Rect(vx0, vy0, vx0 + bxsize, vy0 + bysize) }

    function At(x: int, y: int): Color
      requires BufOk() && Area().Has(x, y)
    {
      IndexIn(x - vx0, y - vy0, bxsize, bysize);
      buf[(y - vy0) * bxsize + (x - vx0)]
    }

    /** Its pixel in column `bx` of row `row` is there and is not the transparent colour. */
    predicate Opaque(bx: int, row: int) {
      && 0 <= bx < bxsize && 0 <= row < bysize && 0 <= row * bxsize + bx < |buf|
      && (colInv == -1 || buf[row * bxsize + bx] != colInv % 0x1_0000_0000)
    }

    /** The sheet shows its own colour at the pixel. */
    predicate Covers(x: int, y: int)
      requires BufOk()
    {
      Area().Has(x, y) && (colInv == -1 || At(x, y) != colInv % 0x1_0000_0000)
    }
  }

  lemma OpaqueCovers(s: Sheet, x: int, y: int)
    requires s.BufOk()
    ensures s.Opaque(x - s.vx0, y - s.vy0) <==> s.Covers(x, y)
    ensures s.Covers(x, y) ==> s.At(x, y) == s.buf[(y - s.vy0) * s.bxsize + (x - s.vx0)]
  {
    if s.Area().Has(x, y) {
      IndexIn(x - s.vx0, y - s.vy0, s.bxsize, s.bysize);
    }
  }

  predicate PoolOk(pool: seq<Sheet>) {
    |pool| == MAX_SHEETS && forall i :: 0 <= i < MAX_SHEETS ==> pool[i].BufOk()
  }

  /** The colours that the sheets show at a pixel. */
  function Col(pool: seq<Sheet>, x: int, y: int): map<int, int>
    requires PoolOk(pool)
  {
    map i | 0 <= i < MAX_SHEETS && pool[i].Covers(x, y) :: pool[i].At(x, y)
  }

  /** Only heights differ. */
  predicate SameLook(p: seq<Sheet>, q: seq<Sheet>) {
    |p| == |q| && forall i :: 0 <= i < |p| ==> q[i] == p[i].(height := q[i].height)
  }

  lemma ColSame(p: seq<Sheet>, q: seq<Sheet>, x: int, y: int)
    requires PoolOk(p) && SameLook(p, q)
    ensures PoolOk(q) && Col(p, x, y) == Col(q, x, y)
  {
    assert forall i :: 0 <= i < MAX_SHEETS ==> q[i].BufOk();
    assert forall i :: 0 <= i < MAX_SHEETS ==> p[i].Area() == q[i].Area();
    assert forall i :: 0 <= i < MAX_SHEETS ==> (q[i].Covers(x, y) <==> p[i].Covers(x, y));
    assert forall i :: 0 <= i < MAX_SHEETS && p[i].Covers(x, y) ==> q[i].At(x, y) == p[i].At(x, y);
  }

  /** The colour of a pixel owned by `m` after the sheets `ids` have been drawn inside a rectangle. */
  function Drawn(pool: seq<Sheet>, ids: seq<int>, r: Rect, x: int, y: int, m: int, v: int): int
    requires PoolOk(pool)
  {
    if r.Has(x, y) && m in ids && 0 <= m < MAX_SHEETS && pool[m].Area().Has(x, y) then pool[m].At(x, y) else v
  }

  class Ctl {
    const xsize: nat
    const ysize: nat
    const stride: nat
    const map_: array<int>
    const vram: array<int>
    var top: int
    var sheets: seq<int>
    var pool: seq<Sheet>

    ghost predicate Valid()
      reads this
    {
      && map_ != vram && map_.Length >= xsize * ysize && vram.Length >= stride * ysize && xsize <= stride
      && PoolOk(pool) && |sheets| == MAX_SHEETS && -1 <= top < MAX_SHEETS
    }

    predicate OnScreen(x: int, y: int) { 0 <= x < xsize && 0 <= y < ysize }

    ghost function MapAt(x: int, y: int): int
      reads map_
      requires OnScreen(x, y) && map_.Length >= xsize * ysize
    {
      IndexIn(x, y, xsize, ysize);
      map_[y * xsize + x]
    }

    ghost function VramAt(x: int, y: int): int
      reads vram
      requires OnScreen(x, y) && vram.Length >= stride * ysize && xsize <= stride
    {
      IndexIn(x, y, stride, ysize);
      vram[y * stride + x]
    }

    method SetMap(x: int, y: int, sid: int)
      requires Valid() && OnScreen(x, y)
      modifies map_
      ensures forall x', y' :: OnScreen(x', y') ==>
        MapAt(x', y') == if x' == x && y' == y then sid else old(MapAt(x', y'))
    {
      IndexIn(x, y, xsize, ysize);
      map_[y * xsize + x] := sid;
      forall x', y' | OnScreen(x', y')
        ensures MapAt(x', y') == if x' == x && y' == y then sid else old(MapAt(x', y'))
      {
        if x' != x || y' != y {
          IndexInjective(x, y, x', y', xsize);
        }
      }
    }

    method SetVram(x: int, y: int, color: int)
      requires Valid() && OnScreen(x, y)
      modifies vram
      ensures forall x', y' :: OnScreen(x', y') ==>
        VramAt(x', y') == if x' == x && y' == y then color else old(VramAt(x', y'))
    {
      IndexIn(x, y, stride, ysize);
      vram[y * stride + x] := color;
      forall x', y' | OnScreen(x', y')
        ensures VramAt(x', y') == if x' == x && y' == y then color else old(VramAt(x', y'))
      {
        if x' != x || y' != y {
          IndexInjective(x, y, x', y', stride);
        }
      }
    }

    /** The inner loop of `sheet_refreshmap`: one row of one sheet. */
    method StampRow(id: nat, row: int, bx0: int, bx1: int)
      requires Valid() && id < MAX_SHEETS && 0 <= row < pool[id].bysize && 0 <= bx0 && bx1 <= pool[id].bxsize
      requires 0 <= pool[id].vy0 + row < ysize && 0 <= pool[id].vx0 + bx0 && pool[id].vx0 + bx1 <= xsize
      modifies map_
      ensures forall x, y :: OnScreen(x, y) ==>
                MapAt(x, y) ==
                  if y == pool[id].vy0 + row && bx0 <= x - pool[id].vx0 < bx1 && pool[id].Covers(x, y) then id
                  else old(MapAt(x, y))
    {
      var sht := pool[id];
      var vy := sht.vy0 + row;
      var col := bx0;
      while col < bx1
        invariant bx0 <= col
        invariant forall x, y :: OnScreen(x, y) ==>
                    MapAt(x, y) ==
                      if y == vy && bx0 <= x - sht.vx0 < col && x - sht.vx0 < bx1 && sht.Covers(x, y) then id
                      else old(MapAt(x, y))
      {
        var vx := sht.vx0 + col;
        if sht.colInv == -1 || sht.At(vx, vy) != sht.colInv % 0x1_0000_0000 {
          SetMap(vx, vy, id);
        }
        col := col + 1;
      }
    }

    /** The body of its outer loop: one sheet inside a rectangle of the screen. */
    method Stamp(id: nat, r: Rect)
      requires Valid() && id < MAX_SHEETS && 0 <= r.x0 && r.x1 <= xsize && 0 <= r.y0 && r.y1 <= ysize
      modifies map_
      ensures forall x, y :: OnScreen(x, y) ==>
                MapAt(x, y) == if r.Has(x, y) && pool[id].Covers(x, y) then id else old(MapAt(x, y))
    {
      var sht := pool[id];
      var bx0, by0, bx1, by1 := r.x0 - sht.vx0, r.y0 - sht.vy0, r.x1 - sht.vx0, r.y1 - sht.vy0;
      if bx0 < 0 { bx0 := 0; }
      if by0 < 0 { by0 := 0; }
      if bx1 > sht.bxsize { bx1 := sht.bxsize; }
      if by1 > sht.bysize { by1 := sht.bysize; }
      var row := by0;
      while row < by1
        invariant by0 <= row
        invariant forall x, y :: OnScreen(x, y) ==>
                    MapAt(x, y) == if r.Has(x, y) && y - sht.vy0 < row && sht.Covers(x, y) then id else old(MapAt(x, y))
      {
        StampRow(id, row, bx0, bx1);
        row := row + 1;
      }
    }

    /** The rectangle cut to the screen. */
    function Clip(r: Rect): Rect {
      Rect(if r.x0 < 0 then 0 else r.x0, if r.y0 < 0 then 0 else r.y0,
           if r.x1 > xsize then xsize else r.x1, if r.y1 > ysize then ysize else r.y1)
    }

    ghost predicate IdsOk(lo: int, hi: int)
      reads this
    {
      forall h :: 0 <= lo <= h < hi <= |sheets| ==> 0 <= sheets[h] < MAX_SHEETS
    }

    /** `sheet_refreshmap`: inside the rectangle the topmost of the sheets from height `h0` takes over. */
    method RefreshMap(r0: Rect, h0: int)
      requires Valid() && 0 <= h0 <= top + 1 && IdsOk(h0, top + 1)
      modifies map_
      ensures forall x, y :: OnScreen(x, y) ==>
                MapAt(x, y) ==
                  if r0.Has(x, y) then Own(sheets[h0..top + 1], Col(pool, x, y).Keys, old(MapAt(x, y)))
                  else old(MapAt(x, y))
    {
      var r := Clip(r0);
      var h := h0;
      while h <= top
        invariant h0 <= h <= top + 1
        invariant forall x, y :: OnScreen(x, y) ==>
                    MapAt(x, y) ==
                      if r.Has(x, y) then Own(sheets[h0..h], Col(pool, x, y).Keys, old(MapAt(x, y)))
                      else old(MapAt(x, y))
      {
        assert sheets[h0..h + 1][..h - h0] == sheets[h0..h];
        Stamp(sheets[h], r);
        h := h + 1;
      }
    }

    /** The inner loop of `sheet_refreshsub`. */
    method PaintRow(id: nat, row: int, bx0: int, bx1: int)
      requires Valid() && id < MAX_SHEETS && 0 <= row < pool[id].bysize && 0 <= bx0 && bx1 <= pool[id].bxsize
      requires 0 <= pool[id].vy0 + row < ysize && 0 <= pool[id].vx0 + bx0 && pool[id].vx0 + bx1 <= xsize
      modifies vram
      ensures forall x, y :: OnScreen(x, y) ==>
                VramAt(x, y) == if y == pool[id].vy0 + row && bx0 <= x - pool[id].vx0 < bx1 && MapAt(x, y) == id
                                then pool[id].At(x, y) else old(VramAt(x, y))
    {
      var sht := pool[id];
      var vy := sht.vy0 + row;
      var col := bx0;
      while col < bx1
        invariant bx0 <= col
        invariant forall x, y :: OnScreen(x, y) ==>
                    VramAt(x, y) == if y == vy && bx0 <= x - sht.vx0 < col && x - sht.vx0 < bx1 && MapAt(x, y) == id
                                    then sht.At(x, y) else old(VramAt(x, y))
      {
        var vx := sht.vx0 + col;
        IndexIn(vx, vy, xsize, ysize);
        assert map_[vy * xsize + vx] == MapAt(vx, vy);
        if map_[vy * xsize + vx] == id {
          SetVram(vx, vy, sht.At(vx, vy));
        }
        col := col + 1;
      }
    }

    method PaintSheet(id: nat, r: Rect)
      requires Valid() && id < MAX_SHEETS && 0 <= r.x0 && r.x1 <= xsize && 0 <= r.y0 && r.y1 <= ysize
      modifies vram
      ensures forall x, y :: OnScreen(x, y) ==>
                VramAt(x, y) ==
                  if r.Has(x, y) && pool[id].Area().Has(x, y) && MapAt(x, y) == id then pool[id].At(x, y)
                  else old(VramAt(x, y))
    {
      var sht := pool[id];
      var bx0, by0, bx1, by1 := r.x0 - sht.vx0, r.y0 - sht.vy0, r.x1 - sht.vx0, r.y1 - sht.vy0;
      if bx0 < 0 { bx0 := 0; }
      if by0 < 0 { by0 := 0; }
      if bx1 > sht.bxsize { bx1 := sht.bxsize; }
      if by1 > sht.bysize { by1 := sht.bysize; }
      var row := by0;
      while row < by1
        invariant by0 <= row
        invariant forall x, y :: OnScreen(x, y) ==>
                    VramAt(x, y) == if r.Has(x, y) && sht.Area().Has(x, y) && y - sht.vy0 < row && MapAt(x, y) == id
                                    then sht.At(x, y) else old(VramAt(x, y))
      {
        PaintRow(id, row, bx0, bx1);
        row := row + 1;
      }
    }

    /**
     `sheet_refreshsub`: inside the rectangle the sheets at heights h0..h1 draw the pixels that the map gives them.
     */
    method RefreshSub(r0: Rect, h0: int, h1: int)
      requires Valid() && 0 <= h0 <= h1 + 1 <= MAX_SHEETS && IdsOk(h0, h1 + 1)
      modifies vram
      ensures forall x, y :: OnScreen(x, y) ==>
                VramAt(x, y) == Drawn(pool, sheets[h0..h1 + 1], r0, x, y, MapAt(x, y), old(VramAt(x, y)))
    {
      var r := Clip(r0);
      var h := h0;
      while h <= h1
        invariant h0 <= h <= h1 + 1
        invariant forall x, y :: OnScreen(x, y) ==>
                    VramAt(x, y) == Drawn(pool, sheets[h0..h], r, x, y, MapAt(x, y), old(VramAt(x, y)))
      {
        assert sheets[h0..h + 1] == sheets[h0..h] + [sheets[h]];
        PaintSheet(sheets[h], r);
        h := h + 1;
      }
    }

    method SetHeight(id: nat, height: int)
      requires Valid() && id < MAX_SHEETS
      modifies `pool
      ensures Valid() && pool == old(pool)[id := old(pool)[id].(height := height)]
    {
      pool := pool[id := pool[id].(height := height)];
    }

    ghost function Stack(): seq<int>
      reads this
      requires Valid()
    {
      sheets[..top + 1]
    }

    /** At every pixel the map names the topmost opaque sheet, and a full repaint would change nothing. */
    ghost predicate Shows(p: seq<Sheet>, st: seq<int>)
      reads this, map_, vram
      requires Valid() && PoolOk(p)
    {
      forall x, y :: OnScreen(x, y) ==> PixelOk(st, Col(p, x, y), MapAt(x, y), VramAt(x, y))
    }

    ghost predicate Inv()
      reads this, map_, vram
    {
      Valid() && Sound(pool, Stack()) && Shows(pool, Stack())
    }

    /** The body of the two loops below: the sheet at place `k` moves by `d`. */
    method MoveSheet(k: int, d: int, ghost s: seq<int>, ghost p: seq<Sheet>, ghost lo: int, ghost hi: int,
        ghost lo': int, ghost hi': int)
      requires Valid() && 0 <= k < MAX_SHEETS && 0 <= k + d < MAX_SHEETS && (d == 1 || d == -1)
      requires Order(s, sheets, lo, hi, d) && Heights(s, p, pool, lo, hi, d)
      requires Wider(lo, hi, k, lo', hi') && 0 <= s[k] < MAX_SHEETS
      requires if d == 1 then k == lo' else k == hi
      modifies `sheets, `pool
      ensures Valid() && Order(s, sheets, lo', hi', d) && Heights(s, p, pool, lo', hi', d)
    {
      OrderStep(s, sheets, lo, hi, k, lo', hi', d);
      HeightsStep(s, p, pool, lo, hi, k, lo', hi', d, s[k]);
      sheets := sheets[k + d := sheets[k]];
      SetHeight(sheets[k + d], k + d);
    }

    /** The loop that makes room at height `to`: the sheets at to..from move up by one. */
    method ShiftUp(from: int, to: int)
      requires Valid() && 0 <= to <= from < MAX_SHEETS && IdsOk(to, from)
      modifies `sheets, `pool
      ensures Valid() && Order(old(sheets), sheets, to, from, 1) && Heights(old(sheets), old(pool), pool, to, from, 1)
    {
      var h := from;
      while h > to
        invariant Valid() && to <= h <= from
        invariant Order(old(sheets), sheets, h, from, 1) && Heights(old(sheets), old(pool), pool, h, from, 1)
      {
        MoveSheet(h - 1, 1, old(sheets), old(pool), h, from, h - 1, from);
        h := h - 1;
      }
    }

    /**
     The loop that closes the place at height `from`: the sheets up to height `to` move down by one. It stops
     at an entry that is no sheet, where the source follows a null pointer or one from behind the list.
     */
    method ShiftDown(from: int, to: int) returns (ok: bool)
      requires Valid() && 0 <= from <= to <= MAX_SHEETS && from < MAX_SHEETS && IdsOk(from + 1, to)
      modifies `sheets, `pool
      ensures Valid() && (ok <==> from == to || IsSheet(old(sheets), to))
      ensures ok ==>
        Order(old(sheets), sheets, from + 1, to + 1, -1) && Heights(old(sheets), old(pool), pool, from + 1, to + 1, -1)
      ensures !ok ==> Untouched(old(sheets), old(pool), pool, from + 1, to)
    {
      var h := from;
      while h < to
        invariant Valid() && from <= h <= to && h < MAX_SHEETS && (h == to && from < to ==> IsSheet(old(sheets), to))
        invariant Order(old(sheets), sheets, from + 1, h + 1, -1)
        invariant Heights(old(sheets), old(pool), pool, from + 1, h + 1, -1)
      {
        NotYetMoved(old(sheets), sheets, from + 1, h + 1);
        if h + 1 == MAX_SHEETS || !(0 <= sheets[h + 1] < MAX_SHEETS) {
          return false;
        }
        MoveSheet(h + 1, -1, old(sheets), old(pool), from + 1, h + 1, from + 1, h + 2);
        h := h + 1;
      }
      return true;
    }

    /** Sheet `id` gets a new height and leaves its place `p`, which the sheets up to height `to` close. */
    method Leave(id: nat, p: int, height: int, to: int) returns (ok: bool)
      requires Valid() && Sound(pool, Stack()) && id < MAX_SHEETS && Taken(Stack(), p, id) && p <= to <= top + 1
      modifies `sheets, `pool
      ensures Valid() && (ok <==> to <= top || IsSheet(old(sheets), to))
      ensures !ok ==> pool[id].height == height && pool[id].used == old(pool[id].used)
      ensures ok ==>
                && Order(old(sheets), sheets, p + 1, to + 1, -1)
                && Heights(old(sheets), old(pool)[id := old(pool)[id].(height := height)], pool, p + 1, to + 1, -1)
    {
      ListedUnique(pool, Stack(), sheets);
      NotInStack(pool, sheets, Stack(), p, id);
      SetHeight(id, height);
      ok := ShiftDown(p, to);
    }

    /** `sheet_updown` lowers a shown sheet: the list part. */
    method LowerStack(id: nat, height: int)
      requires Valid() && Sound(pool, Stack()) && id < MAX_SHEETS && pool[id].used && 0 <= height < pool[id].height
      modifies `sheets, `pool
      ensures Valid() && Sound(pool, Stack()) && SameLook(old(pool), pool) && SameBehind(old(sheets), sheets, top)
      ensures old(pool[id].height) <= top && Stack() == Put(Rest(old(Stack()), old(pool[id].height)), height, id)
    {
      var p := pool[id].height;
      ghost var st := Stack();
      ListedAt(pool, st, id);
      ListedUnique(pool, st, sheets);
      SetHeight(id, height);
      ShiftUp(p, height);
      ghost var t := sheets;
      OrderBehind(old(sheets), t, height, p, 1, top);
      Lowered(old(pool), pool, old(sheets), t, st, p, height, id);
      sheets := sheets[height := id];
      assert Stack() == t[height := id][..|st|];
    }

    /** `sheet_updown` raises a shown sheet to a height in the stack: the list part. */
    method RaiseStack(id: nat, height: int)
      requires Valid() && Sound(pool, Stack()) && id < MAX_SHEETS
      requires pool[id].used && 0 <= pool[id].height < height <= top
      modifies `sheets, `pool
      ensures Valid() && Sound(pool, Stack()) && SameLook(old(pool), pool) && SameBehind(old(sheets), sheets, top)
      ensures old(pool[id].height) <= top && Stack() == Put(Rest(old(Stack()), old(pool[id].height)), height, id)
    {
      var p := pool[id].height;
      ghost var st := Stack();
      ListedAt(pool, st, id);
      var ok := Leave(id, p, height, height);
      ghost var t := sheets;
      OrderBehind(old(sheets), t, p + 1, height + 1, -1, top);
      Raised(old(pool), pool, old(sheets), t, st, p, height, id);
      sheets := sheets[height := id];
      assert Stack() == t[height := id][..|st|];
    }

    /**
     `sheet_updown` raises a shown sheet above the top: the list part. It reads the entry behind the stack. The
     list is right afterwards exactly if that entry happens to be the sheet itself.
     */
    method RaiseBeyond(id: nat) returns (ok: bool)
      requires Valid() && Sound(pool, Stack()) && id < MAX_SHEETS && pool[id].used && 0 <= pool[id].height
      modifies `sheets, `pool
      ensures Valid() && (ok <==> IsSheet(old(sheets), top + 1)) && (ok ==> sheets[top + 1] == id)
      ensures Sound(pool, Stack()) <==> top + 1 < MAX_SHEETS && old(sheets)[top + 1] == id
      ensures Sound(pool, Stack()) ==>
                && SameLook(old(pool), pool) && SameBehind(old(sheets), sheets, top) && old(pool[id].height) <= top
                && Stack() == Put(Rest(old(Stack()), old(pool[id].height)), top, id)
    {
      var p := pool[id].height;
      ghost var st := Stack();
      ListedAt(pool, st, id);
      ok := Leave(id, p, top + 1, top + 1);
      if !ok {
        Beyond(pool, Stack(), id);
        return;
      }
      ghost var t := sheets;
      sheets := sheets[top + 1 := id];
      RaisedBeyond(old(pool), pool, old(sheets), t, sheets, st, Stack(), top, p, id);
    }

    /** `sheet_updown` hides a shown sheet: the list part. */
    method HideStack(id: nat)
      requires Valid() && Sound(pool, Stack()) && id < MAX_SHEETS && pool[id].used && 0 <= pool[id].height
      modifies this
      ensures Valid() && Sound(pool, Stack()) && SameLook(old(pool), pool) && SameBehind(old(sheets), sheets, top)
      ensures old(pool[id].height) <= old(top) && Stack() == Rest(old(Stack()), old(pool[id].height))
    {
      var p := pool[id].height;
      ghost var st := Stack();
      ListedAt(pool, st, id);
      var ok := Leave(id, p, -1, top);
      ghost var t := sheets;
      OrderBehind(old(sheets), t, p + 1, top + 1, -1, top - 1);
      Hidden(old(pool), pool, old(sheets), t, st, p, id);
      top := top - 1;
      assert Stack() == t[..|st| - 1];
    }

    /** `sheet_updown` shows a hidden sheet: the list part. */
    method ShowStack(id: nat, height: int)
      requires Valid() && Sound(pool, Stack()) && id < MAX_SHEETS
      requires pool[id].used && pool[id].height < 0 && 0 <= height <= top + 1
      modifies this
      ensures Valid() && Sound(pool, Stack()) && SameLook(old(pool), pool) && SameBehind(old(sheets), sheets, top)
      ensures id !in old(Stack()) && Stack() == Put(old(Stack()), height, id)
    {
      ghost var st := Stack();
      NotListed(pool, st, id);
      ListedUnique(pool, st, sheets);
      SetHeight(id, height);
      ShiftUp(top + 1, height);
      ghost var t := sheets;
      OrderBehind(old(sheets), t, height, top + 1, 1, top + 1);
      ShowOrder(old(sheets), t, top, height, id);
      ShowListed(old(pool), pool, old(sheets), st, height, id);
      sheets := sheets[height := id];
      top := top + 1;
      assert Stack() == t[height := id][..top + 1];
    }

    /** The map is redrawn from the new height, the frame buffer at the heights that were passed. */
    method RedrawLowered(id: nat, p: int, height: int, ghost p0: seq<Sheet>, ghost st: seq<int>)
      requires Valid() && Sound(pool, Stack()) && id < MAX_SHEETS && PoolOk(p0) && SameLook(p0, pool) && Shows(p0, st)
      requires Taken(st, p, id) && 0 <= height < p <= top && Stack() == Put(Rest(st, p), height, id)
      modifies map_, vram
      ensures Shows(pool, Stack())
    {
      var r := pool[id].Area();
      RefreshMap(r, height);
      RefreshSub(r, height + 1, p);
      forall x, y | OnScreen(x, y)
        ensures PixelOk(Stack(), Col(pool, x, y), MapAt(x, y), VramAt(x, y))
      {
        LowerAt(p0, pool, st, sheets, top, p, height, id, x, y, old(MapAt(x, y)), MapAt(x, y), old(VramAt(x, y)),
          VramAt(x, y));
      }
    }

    /** Nothing but the sheet itself has to be drawn. */
    method RedrawRaised(id: nat, height: int, ghost p: int, ghost p0: seq<Sheet>, ghost st: seq<int>)
      requires Valid() && Sound(pool, Stack()) && id < MAX_SHEETS && PoolOk(p0) && SameLook(p0, pool) && Shows(p0, st)
      requires Taken(st, p, id) && 0 <= p < height <= top && height < |st| && Stack() == Put(Rest(st, p), height, id)
      modifies map_, vram
      ensures Shows(pool, Stack())
    {
      var r := pool[id].Area();
      RefreshMap(r, height);
      RefreshSub(r, height, height);
      forall x, y | OnScreen(x, y)
        ensures PixelOk(Stack(), Col(pool, x, y), MapAt(x, y), VramAt(x, y))
      {
        RaiseAt(p0, pool, st, sheets, top, p, height, id, x, y, old(MapAt(x, y)), MapAt(x, y), old(VramAt(x, y)),
          VramAt(x, y));
      }
    }

    /** The same for a sheet that was hidden. */
    method RedrawShown(id: nat, height: int, ghost p0: seq<Sheet>, ghost st: seq<int>)
      requires Valid() && Sound(pool, Stack()) && id < MAX_SHEETS && PoolOk(p0) && SameLook(p0, pool) && Shows(p0, st)
      requires id !in st && 0 <= height <= top && height <= |st| && Stack() == Put(st, height, id)
      modifies map_, vram
      ensures Shows(pool, Stack())
    {
      var r := pool[id].Area();
      RefreshMap(r, height);
      RefreshSub(r, height, height);
      forall x, y | OnScreen(x, y)
        ensures PixelOk(Stack(), Col(pool, x, y), MapAt(x, y), VramAt(x, y))
      {
        ShowAt(p0, pool, st, sheets, top, height, id, x, y, old(MapAt(x, y)), MapAt(x, y), old(VramAt(x, y)),
          VramAt(x, y));
      }
    }

    /** Map and frame buffer are redrawn from the bottom. */
    method RedrawHidden(id: nat, ghost p: int, ghost p0: seq<Sheet>, ghost st: seq<int>)
      requires Valid() && Sound(pool, Stack()) && id < MAX_SHEETS && PoolOk(p0) && SameLook(p0, pool) && Shows(p0, st)
      requires Taken(st, p, id) && Stack() == Rest(st, p)
      modifies map_, vram
      ensures Shows(pool, Stack())
    {
      var r := pool[id].Area();
      RefreshMap(r, 0);
      RefreshSub(r, 0, top);
      forall x, y | OnScreen(x, y)
        ensures PixelOk(Stack(), Col(pool, x, y), MapAt(x, y), VramAt(x, y))
      {
        HideAt(p0, pool, st, sheets, top, p, id, x, y, old(MapAt(x, y)), MapAt(x, y), old(VramAt(x, y)), VramAt(x, y));
      }
    }

    /** Lowers a shown sheet. */
    method Lower(id: nat, height: int)
      requires Inv() && id < MAX_SHEETS && pool[id].used && 0 <= height < pool[id].height
      modifies this, map_, vram
      ensures Inv() && SameLook(old(pool), pool) && SameBehind(old(sheets), sheets, top)
      ensures Stack() == Restack(old(Stack()), old(pool[id].height), height, id)
    {
      var p := pool[id].height;
      ghost var st := Stack();
      ListedAt(pool, st, id);
      RestackCases(st, p, height, id);
      LowerStack(id, height);
      RedrawLowered(id, p, height, old(pool), st);
    }

    /** Raises a shown sheet. */
    method Raise(id: nat, height: int)
      requires Inv() && id < MAX_SHEETS && pool[id].used && 0 <= pool[id].height < height <= top
      modifies this, map_, vram
      ensures Inv() && SameLook(old(pool), pool) && SameBehind(old(sheets), sheets, top)
      ensures Stack() == Restack(old(Stack()), old(pool[id].height), height, id)
    {
      var p := pool[id].height;
      ghost var st := Stack();
      ListedAt(pool, st, id);
      RestackCases(st, p, height, id);
      RaiseStack(id, height);
      RedrawRaised(id, height, p, old(pool), st);
    }

    /** Shows a hidden sheet. */
    method Show(id: nat, height: int)
      requires Inv() && id < MAX_SHEETS && pool[id].used && pool[id].height < 0 && 0 <= height <= top + 1
      modifies this, map_, vram
      ensures Inv() && SameLook(old(pool), pool) && SameBehind(old(sheets), sheets, top)
      ensures Stack() == Restack(old(Stack()), -1, height, id)
    {
      ghost var st := Stack();
      RestackCases(st, -1, height, id);
      ShowStack(id, height);
      RedrawShown(id, height, old(pool), st);
    }

    /** Hides a shown sheet. */
    method Hide(id: nat)
      requires Inv() && id < MAX_SHEETS && pool[id].used && 0 <= pool[id].height
      modifies this, map_, vram
      ensures Inv() && SameLook(old(pool), pool) && SameBehind(old(sheets), sheets, top)
      ensures Stack() == Restack(old(Stack()), old(pool[id].height), -1, id) && id !in Stack()
    {
      var p := pool[id].height;
      ghost var st := Stack();
      ListedAt(pool, st, id);
      RestackCases(st, p, -1, id);
      HideStack(id);
      RedrawHidden(id, p, old(pool), st);
    }

    /**
     What raising a shown sheet above the top takes: the entry behind the stack is the sheet itself, and none of
     the sheets above it covers a pixel that it covers.
     */
    ghost predicate Fits(id: nat)
      reads this
      requires Valid() && id < MAX_SHEETS && 0 <= pool[id].height <= top
    {
      top + 1 < MAX_SHEETS && sheets[top + 1] == id && NoneAbove(pool, Stack(), pool[id].height, id)
    }

    /** No sheet of `st` above height `p` covers a pixel that sheet `id` covers. */
    ghost predicate NoneAbove(pool: seq<Sheet>, st: seq<int>, p: int, id: int)
      requires PoolOk(pool) && -1 <= p < |st|
    {
      forall x, y :: OnScreen(x, y) && id in Col(pool, x, y) ==> Bare(st[p + 1..], Col(pool, x, y).Keys)
    }

    /** The map is not redrawn, and the sheet itself only where the map names it. */
    method RedrawBeyond(id: nat, ghost p: int, ghost p0: seq<Sheet>, ghost st: seq<int>)
      requires Valid() && id < MAX_SHEETS && 0 <= top && top + 1 < MAX_SHEETS
      requires sheets[top + 1] == id && PoolOk(p0) && Shows(p0, st)
      modifies map_, vram
      ensures SameLook(p0, pool) && Taken(st, p, id) && |st| == top + 1 && Stack() == Put(Rest(st, p), top, id) ==>
                (Shows(pool, Stack()) <==> NoneAbove(p0, st, p, id))
    {
      var r := pool[id].Area();
      RefreshMap(r, top + 1);
      RefreshSub(r, top + 1, top + 1);
      if SameLook(p0, pool) && Taken(st, p, id) && |st| == top + 1 && Stack() == Put(Rest(st, p), top, id) {
        forall x, y | OnScreen(x, y)
          ensures PixelOk(Stack(), Col(pool, x, y), MapAt(x, y), VramAt(x, y)) <==>
                  (id in Col(p0, x, y) ==> Bare(st[p + 1..], Col(p0, x, y).Keys))
        {
          BeyondAt(p0, pool, st, sheets, top, p, id, x, y, old(MapAt(x, y)), MapAt(x, y), old(VramAt(x, y)),
            VramAt(x, y));
        }
      }
    }

    /** Raises a shown sheet above the top. The list changes as far as the entry read behind it is a sheet. */
    method RaiseAbove(id: nat) returns (ok: bool)
      requires Inv() && id < MAX_SHEETS && pool[id].used && 0 <= pool[id].height
      modifies this, map_, vram
      ensures Valid() && old(pool[id].height <= top) && top == old(top)
      ensures ok <==> IsSheet(old(sheets), top + 1)
      ensures Inv() <==> old(Fits(id))
      ensures Inv() ==> SameLook(old(pool), pool) && SameBehind(old(sheets), sheets, top)
      ensures Inv() ==> Stack() == Restack(old(Stack()), old(pool[id].height), top, id)
    {
      var p := pool[id].height;
      ghost var st := Stack();
      ListedAt(pool, st, id);
      RestackCases(st, p, top, id);
      ok := RaiseBeyond(id);
      if ok {
        RedrawBeyond(id, p, old(pool), st);
      }
    }

    /** The moves of `sheet_updown` that stay within the stack, and those of a hidden sheet. */
    method Move(id: nat, height: int)
      requires Inv() && id < MAX_SHEETS && pool[id].used
      requires -1 <= height <= top + 1 && (pool[id].height >= 0 ==> height <= top)
      modifies this, map_, vram
      ensures Inv() && SameLook(old(pool), pool) && SameBehind(old(sheets), sheets, top)
      ensures Stack() == Restack(old(Stack()), old(pool[id].height), height, id)
    {
      var p := pool[id].height;
      NoMove(pool, Stack(), id);
      if p > height {
        if height >= 0 {
          Lower(id, height);
        } else {
          Hide(id);
        }
      } else if p < height {
        if p >= 0 {
          Raise(id, height);
        } else {
          Show(id, height);
        }
      }
    }

    /**
     `sheet_updown`. A sheet that is shown and is to go above the top is the one case that can go wrong: the
     result tells whether the entry behind the stack was a sheet at all.
     */
    method UpDown(id: nat, height0: int) returns (ok: bool)
      requires Inv() && id < MAX_SHEETS && pool[id].used
      modifies this, map_, vram
      ensures Valid() && -1 <= old(pool[id].height) <= old(top)
      ensures old(pool[id].height) < 0 || height0 <= old(top) ==>
                ok && Inv() && Stack() == Restack(old(Stack()), old(pool[id].height), Clamp(height0, old(top)), id)
      ensures old(pool[id].height) >= 0 && height0 > old(top) ==>
                && top == old(top) && (ok <==> IsSheet(old(sheets), top + 1))
                && (Inv() <==> old(Fits(id)))
                && (Inv() ==> Stack() == Restack(old(Stack()), old(pool[id].height), top, id))
      ensures Inv() ==> SameLook(old(pool), pool) && SameBehind(old(sheets), sheets, top)
      ensures old(pool[id].height) < 0 || height0 <= old(top) ==>
        pool[id].height == if height0 > old(top) + 1 then old(top) + 1 else if height0 < -1 then -1 else height0
    {
      var height := height0;
      if height > top + 1 {
        height := top + 1;
      }
      if height < -1 {
        height := -1;
      }
      ghost var p0, st := pool, Stack();
      NoMove(pool, Stack(), id);
      ok := true;
      if pool[id].height >= 0 && height > top {
        ok := RaiseAbove(id);
      } else {
        Move(id, height);
        NewHeight(p0, pool, st, Stack(), height, id);
      }
    }

    /** `sheet_slide` */
    method Slide(id: nat, vx0: int, vy0: int)
      requires Inv() && id < MAX_SHEETS && pool[id].used
      modifies this, map_, vram
      ensures Inv() && Stack() == old(Stack()) && pool == old(pool)[id := old(pool)[id].(vx0 := vx0, vy0 := vy0)]
    {
      ghost var p0, st := pool, Stack();
      var was := pool[id].Area();
      OneOf(pool, st, id);
      pool := pool[id := pool[id].(vx0 := vx0, vy0 := vy0)];
      SlidListed(p0, pool, st, id);
      if pool[id].height >= 0 {
        RedrawSlid(id, was, p0);
      } else {
        forall x, y | OnScreen(x, y)
          ensures PixelOk(Stack(), Col(pool, x, y), MapAt(x, y), VramAt(x, y))
        {
          HiddenAt(p0, pool, st, id, x, y, MapAt(x, y), VramAt(x, y));
        }
      }
    }

    /** The four redraws after a slide. */
    method RedrawSlid(id: nat, was: Rect, ghost p0: seq<Sheet>)
      requires Valid() && Sound(pool, Stack()) && id < MAX_SHEETS && Taken(Stack(), pool[id].height, id)
      requires PoolOk(p0) && was == p0[id].Area() && forall i :: 0 <= i < MAX_SHEETS && i != id ==> pool[i] == p0[i]
      requires Shows(p0, Stack())
      modifies map_, vram
      ensures Shows(pool, Stack())
    {
      var h, now := pool[id].height, pool[id].Area();
      RefreshMap(was, 0);
      ghost var m1 := map_[..];
      RefreshMap(now, h);
      RefreshSub(was, 0, h - 1);
      ghost var v1 := vram[..];
      RefreshSub(now, h, h);
      forall x, y | OnScreen(x, y)
        ensures PixelOk(Stack(), Col(pool, x, y), MapAt(x, y), VramAt(x, y))
      {
        IndexIn(x, y, xsize, ysize);
        IndexIn(x, y, stride, ysize);
        SlideAt(p0, pool, Stack(), sheets, top, h, id, x, y, old(MapAt(x, y)), m1[y * xsize + x], MapAt(x, y),
                old(VramAt(x, y)), v1[y * stride + x], VramAt(x, y));
      }
    }

    /** `shtctl_init` */
    constructor (vram: array<int>, map_: array<int>, xsize: nat, ysize: nat, stride: nat)
      requires map_ != vram && map_.Length >= xsize * ysize && vram.Length >= stride * ysize && xsize <= stride
      ensures Inv() && Stack() == [] && this.vram == vram
      ensures this.map_ == map_ && this.xsize == xsize && this.ysize == ysize
      ensures (forall h :: 0 <= h < MAX_SHEETS ==> sheets[h] == -1) && forall i :: 0 <= i < MAX_SHEETS ==>
        Blank(pool[i])
    {
      this.vram, this.map_, this.xsize, this.ysize, this.stride := vram, map_, xsize, ysize, stride;
      top, sheets := -1, seq(MAX_SHEETS, _ => -1);
      pool := seq(MAX_SHEETS, _ => Sheet([], 0, 0, 0, 0, 0, 0, false));
      new;
      assert Listed(pool, Stack());
    }

    /** Writes to a sheet that is not in the stack. */
    method SetHidden(id: nat, s: Sheet)
      requires Inv() && id < MAX_SHEETS && id !in Stack() && s.BufOk() && (s.used ==> s.height == -1)
      modifies `pool
      ensures Inv() && pool == old(pool)[id := s]
    {
      ghost var p0, st := pool, Stack();
      pool := pool[id := s];
      HiddenListed(p0, pool, st, id);
      forall x, y | OnScreen(x, y)
        ensures PixelOk(Stack(), Col(pool, x, y), MapAt(x, y), VramAt(x, y))
      {
        HiddenAt(p0, pool, st, id, x, y, MapAt(x, y), VramAt(x, y));
      }
    }

    /** `sheet_alloc`: the first unused sheet of the pool, hidden. */
    method Alloc() returns (id: int)
      requires Inv()
      modifies `pool
      ensures Inv() && Stack() == old(Stack())
      ensures id == -1 ==> pool == old(pool) && forall i :: 0 <= i < MAX_SHEETS ==> pool[i].used
      ensures id != -1 ==>
                && 0 <= id < MAX_SHEETS && !old(pool)[id].used && (forall i :: 0 <= i < id ==> pool[i].used)
                && pool == old(pool)[id := old(pool)[id].(used := true, height := -1)]
    {
      for i := 0 to MAX_SHEETS
        invariant pool == old(pool) && forall k :: 0 <= k < i ==> pool[k].used
      {
        if !pool[i].used {
          UnusedHidden(pool, Stack(), i);
          var s := pool[i].(used := true, height := -1);
          assert s.BufOk() == pool[i].BufOk();
          SetHidden(i, s);
          return i;
        }
      }
      return -1;
    }

    /** `sheet_setbuf`, on a hidden sheet. */
    method SetBuf(id: nat, buf: seq<Color>, bxsize: nat, bysize: nat, colInv: int)
      requires Inv() && id < MAX_SHEETS && pool[id].used && pool[id].height == -1 && |buf| >= bxsize * bysize
      modifies `pool
      ensures Inv()
      ensures pool == old(pool)[id := old(pool)[id].(buf := buf, bxsize := bxsize, bysize := bysize, colInv := colInv)]
    {
      OneOf(pool, Stack(), id);
      SetHidden(id, pool[id].(buf := buf, bxsize := bxsize, bysize := bysize, colInv := colInv));
    }

    /** `sheet_free` */
    method Free(id: nat)
      requires Inv() && id < MAX_SHEETS && pool[id].used
      modifies this, map_, vram
      ensures Inv() && Stack() == Restack(old(Stack()), old(pool[id].height), -1, id)
      ensures SameLook(old(pool)[id := old(pool)[id].(used := false)], pool)
    {
      if pool[id].height >= 0 {
        Hide(id);
      } else {
        NoMove(pool, Stack(), id);
        OneOf(pool, Stack(), id);
      }
      var s := pool[id].(used := false);
      assert s.BufOk() == pool[id].BufOk();
      SetHidden(id, s);
    }

    /** What a caller sees of the sheets: their looks, and which are shown in which order. */
    ghost function Now(): Scene
      reads this
      requires Valid()
    {
      Scene(Look(pool), Stack())
    }

    /** One call that the pool and the stack allow. */
    method Do(op: Op)
      requires Inv() && Allowed(op, Now())
      modifies this, map_, vram
      ensures Inv() && Now() == After(op, old(Now()))
    {
      match op
      case Alloc => DoAlloc();
      case SetBuf(id, buf, bxsize, bysize, colInv) =>
        DoSetBuf(id, buf, bxsize, bysize, colInv);
      case UpDown(id, height) =>
        HeightIs(pool, Stack(), id);
        var _ := UpDown(id, height);
        LookSame(old(pool), pool);
      case Slide(id, vx0, vy0) =>
        Slide(id, vx0, vy0);
        LookAt(old(pool), id, pool[id]);
      case Free(id) =>
        HeightIs(pool, Stack(), id);
        Free(id);
        LookSame(old(pool)[id := old(pool)[id].(used := false)], pool);
        LookAt(old(pool), id, old(pool)[id].(used := false));
    }

    method DoAlloc()
      requires Inv()
      modifies `pool
      ensures Inv() && Now() == After(Op.Alloc, old(Now()))
    {
      ghost var look := Look(pool);
      var id := Alloc();
      if id != -1 {
        LookAt(old(pool), id, pool[id]);
        assert look[id] == old(pool)[id].(height := 0);
        assert forall j :: 0 <= j < id ==> look[j] == old(pool)[j].(height := 0) && pool[j] == old(pool)[j];
        FirstUnusedIs(look, id);
      } else {
        NoneUnused(look);
      }
    }

    method DoSetBuf(id: nat, buf: seq<Color>, bxsize: nat, bysize: nat, colInv: int)
      requires Inv() && Allowed(Op.SetBuf(id, buf, bxsize, bysize, colInv), Now())
      modifies `pool
      ensures Inv() && Now() == After(Op.SetBuf(id, buf, bxsize, bysize, colInv), old(Now()))
    {
      HeightIs(pool, Stack(), id);
      SetBuf(id, buf, bxsize, bysize, colInv);
      LookAt(old(pool), id, pool[id]);
    }

    /**
     After any sequence of allowed calls the stack is the one that the calls say, every sheet has its height, and
     the partial redraws have produced what a full repaint would.
     */
    method Run(ops: seq<Op>)
      requires Inv() && AllAllowed(ops, Now())
      modifies this, map_, vram
      ensures Inv() && Now() == AfterAll(ops, old(Now()))
      ensures forall h :: 0 <= h <= top ==> 0 <= sheets[h] < MAX_SHEETS && pool[sheets[h]].height == h
    {
      assert ops[0..] == ops;
      for i := 0 to |ops|
        invariant Inv() && AllAllowed(ops[i..], Now()) && AfterAll(ops[i..], Now()) == AfterAll(ops, old(Now()))
      {
        assert ops[i..][0] == ops[i] && ops[i..][1..] == ops[i + 1..];
        Do(ops[i]);
      }
      assert Listed(pool, Stack());
      forall h | 0 <= h <= top ensures 0 <= sheets[h] < MAX_SHEETS && pool[sheets[h]].height == h {
        assert Stack()[h] == sheets[h];
      }
    }

    /** No sheet above place `h` of the stack is opaque at a place of the screen. */
    ghost predicate NothingAbove(h: int, x: int, y: int)
      reads this
    {
      forall k :: h < k <= top && 0 <= k < |sheets| && 0 <= sheets[k] < |pool| ==>
        !pool[sheets[k]].Opaque(x - pool[sheets[k]].vx0, y - pool[sheets[k]].vy0)
    }

    /**
     What is seen: where a shown sheet is opaque and nothing above it is, the frame buffer has the entry of its
     buffer for that row and column, and the map has the number of the sheet.
     */
    lemma SeesBuffer(h: int, bx: int, row: int)
      requires Inv() && 0 <= h <= top && 0 <= sheets[h] < MAX_SHEETS && pool[sheets[h]].Opaque(bx, row)
      requires 0 <= pool[sheets[h]].vx0 + bx < xsize && 0 <= pool[sheets[h]].vy0 + row < ysize
      requires NothingAbove(h, pool[sheets[h]].vx0 + bx, pool[sheets[h]].vy0 + row)
      ensures var s := pool[sheets[h]]; var x, y := s.vx0 + bx, s.vy0 + row;
              && 0 <= y * stride + x < vram.Length && vram[y * stride + x] == s.buf[row * s.bxsize + bx]
              && 0 <= y * xsize + x < map_.Length && map_[y * xsize + x] == sheets[h]
    {
      var s := pool[sheets[h]];
      var x, y := s.vx0 + bx, s.vy0 + row;
      IndexIn(x, y, stride, ysize);
      IndexIn(x, y, xsize, ysize);
      var st, col := Stack(), Col(pool, x, y);
      OpaqueCovers(s, x, y);
      forall k | h < k < |st|
        ensures st[k] !in col
      {
        if 0 <= st[k] < MAX_SHEETS {
          OpaqueCovers(pool[st[k]], x, y);
        }
      }
      TopmostShows(st, col, h, MapAt(x, y), VramAt(x, y));
    }

    /** Where some shown sheet is opaque, map and frame buffer are those of a repaint over any background. */
    lemma ScreenIsRepaint(x: int, y: int, h: int, background: int)
      requires Inv() && OnScreen(x, y) && 0 <= h <= top && 0 <= sheets[h] < MAX_SHEETS && pool[sheets[h]].Covers(x, y)
      ensures VramAt(x, y) == Repaint(Stack(), Col(pool, x, y), background)
      ensures MapAt(x, y) == Own(Stack(), Col(pool, x, y).Keys, -1) && MapAt(x, y) in Stack()
    {
      assert Stack()[h] == sheets[h];
      assert sheets[h] in Stack() && sheets[h] in Col(pool, x, y).Keys;
      PixelDetermined(Stack(), Col(pool, x, y), MapAt(x, y), VramAt(x, y), background);
      OwnCovered(Stack(), Col(pool, x, y).Keys, MapAt(x, y), -1);
    }
  }

  /** The entries lo..hi of `s` have moved by `d` places. */
  predicate Order(s: seq<int>, t: seq<int>, lo: int, hi: int, d: int) {
    |s| == |t| && forall k :: 0 <= k < |t| ==> t[k] == Moved(s, k, lo, hi, d)
  }

  function Moved(s: seq<int>, k: int, lo: int, hi: int, d: int): int
    requires 0 <= k < |s|
  {
    if lo <= k - d < hi && 0 <= k - d < |s| then s[k - d] else s[k]
  }

  /**
   The sheets at lo..hi of `s`, if no two are the same, have the heights of their new places; no other sheet has
   changed.
   */
  predicate Heights(s: seq<int>, p: seq<Sheet>, q: seq<Sheet>, lo: int, hi: int, d: int) {
    && SameLook(p, q) && Untouched(s, p, q, lo, hi)
    && (Unique(s, lo, hi) ==> Placed(s, q, lo, hi, d))
  }

  predicate Placed(s: seq<int>, q: seq<Sheet>, lo: int, hi: int, d: int) {
    && 0 <= lo <= hi <= |s|
    && (forall k :: lo <= k < hi ==> 0 <= s[k] < |q| && q[s[k]].height == k + d)
  }

  predicate Untouched(s: seq<int>, p: seq<Sheet>, q: seq<Sheet>, lo: int, hi: int) {
    && 0 <= lo <= hi <= |s| && |p| == |q|
    && (forall i :: 0 <= i < |p| && q[i] != p[i] ==> i in s[lo..hi])
  }

  /** lo'..hi' is lo..hi with the place `k` added at one of its ends. */
  predicate Wider(lo: int, hi: int, k: int, lo': int, hi': int) {
    (lo' == k == lo - 1 && hi' == hi) || (lo' == lo && k == hi == hi' - 1)
  }

  lemma OrderStep(s: seq<int>, t: seq<int>, lo: int, hi: int, k: int, lo': int, hi': int, d: int)
    requires Order(s, t, lo, hi, d) && 0 <= lo <= hi && 0 <= k < |s| && 0 <= k + d < |s| && (d == 1 || d == -1)
    requires Wider(lo, hi, k, lo', hi') && if d == 1 then k == lo' else k == hi
    ensures t[k] == s[k] && Order(s, t[k + d := t[k]], lo', hi', d)
  {
    assert t[k] == Moved(s, k, lo, hi, d);
    var t' := t[k + d := t[k]];
    forall j | 0 <= j < |t'| ensures t'[j] == Moved(s, j, lo', hi', d) {
      assert t[j] == Moved(s, j, lo, hi, d);
    }
  }

  lemma HeightsStep(s: seq<int>, p: seq<Sheet>, q: seq<Sheet>, lo: int, hi: int, k: int, lo': int, hi': int, d: int,
      id: int)
    requires Heights(s, p, q, lo, hi, d) && 0 <= k < |s| && 0 <= s[k] == id < |p| && Wider(lo, hi, k, lo', hi')
    ensures Heights(s, p, q[id := q[id].(height := k + d)], lo', hi', d)
  {
    UntouchedStep(s, p, q, lo, hi, k, lo', hi', q[id].(height := k + d));
    if Unique(s, lo', hi') {
      assert Unique(s, lo, hi);
      PlacedStep(s, q, lo, hi, k, lo', hi', d, id);
    }
  }

  lemma PlacedStep(s: seq<int>, q: seq<Sheet>, lo: int, hi: int, k: int, lo': int, hi': int, d: int, id: int)
    requires Placed(s, q, lo, hi, d) && 0 <= k < |s| && 0 <= s[k] == id < |q|
    requires Wider(lo, hi, k, lo', hi') && Unique(s, lo', hi')
    ensures Placed(s, q[id := q[id].(height := k + d)], lo', hi', d)
  {
    var q' := q[id := q[id].(height := k + d)];
    forall j | lo' <= j < hi'
      ensures 0 <= s[j] < |q| && q'[s[j]].height == j + d
    {
      if j != k {
        assert s[j] != id;
      }
    }
  }

  lemma UntouchedStep(s: seq<int>, p: seq<Sheet>, q: seq<Sheet>, lo: int, hi: int, k: int, lo': int, hi': int, e: Sheet)
    requires Untouched(s, p, q, lo, hi) && 0 <= k < |s| && 0 <= s[k] < |p| && Wider(lo, hi, k, lo', hi')
    ensures Untouched(s, p, q[s[k] := e], lo', hi')
  {
    assert s[lo'..hi'] == if k < lo then [s[k]] + s[lo..hi] else s[lo..hi] + [s[k]];
  }

  predicate Unique(st: seq<int>, lo: int, hi: int) {
    forall j, k :: 0 <= lo <= j < k < hi <= |st| ==> st[j] != st[k]
  }

  /** The stack lists exactly the shown sheets, each at its own height. */
  predicate Listed(pool: seq<Sheet>, st: seq<int>) {
    && |pool| == MAX_SHEETS
    && (forall h :: 0 <= h < |st| ==> 0 <= st[h] < MAX_SHEETS && pool[st[h]].used && pool[st[h]].height == h)
    && (forall i :: 0 <= i < MAX_SHEETS && pool[i].used && pool[i].height != -1 ==> i in st)
  }

  /** The same, folded up. */
  ghost predicate Sound(pool: seq<Sheet>, st: seq<int>) {
    && |pool| == MAX_SHEETS && (forall h :: 0 <= h < |st| ==> 0 <= st[h] < MAX_SHEETS)
    && forall p: seq<Sheet> :: p == pool ==> Listed(p, st)
  }

  lemma Restacked(p: seq<Sheet>, p': seq<Sheet>, st: seq<int>, st': seq<int>, id: int)
    requires Listed(p, st) && SameLook(p, p') && 0 <= id < MAX_SHEETS && p[id].used
    requires forall i :: i in st ==> i in st' || i == id
    requires forall i :: i in st' ==> i in st || i == id
    requires forall i :: 0 <= i < MAX_SHEETS && i !in st && i != id ==> p'[i] == p[i]
    requires forall h :: 0 <= h < |st'| ==> 0 <= st'[h] < MAX_SHEETS && p'[st'[h]].height == h
    requires id !in st' ==> p'[id].height == -1
    ensures Listed(p', st')
  {
    forall h | 0 <= h < |st'|
      ensures p'[st'[h]].used
    {
      assert st'[h] in st';
      assert p'[st'[h]].used == p[st'[h]].used;
    }
  }

  /** The stack without the sheet at height `p`. */
  function Rest(st: seq<int>, p: int): seq<int>
    requires 0 <= p < |st|
  {
    Cut(st, p, p + 1)
  }

  predicate Taken(st: seq<int>, p: int, id: int) {
    0 <= p < |st| && st[p] == id && id !in Rest(st, p) && st == Put(Rest(st, p), p, id)
  }

  lemma ListedAt(pool: seq<Sheet>, st: seq<int>, id: int)
    requires Sound(pool, st) && 0 <= id < MAX_SHEETS && pool[id].used && pool[id].height >= 0
    ensures Taken(st, pool[id].height, id)
  {
    assert Listed(pool, st);
    var p :| 0 <= p < |st| && st[p] == id;
    assert forall k :: 0 <= k < |st| && k != p ==> st[k] != id;
    TakenOnce(st, p, id);
  }

  lemma TakenOnce(st: seq<int>, p: int, id: int)
    requires 0 <= p < |st| && st[p] == id && forall k :: 0 <= k < |st| && k != p ==> st[k] != id
    ensures Taken(st, p, id)
  {
  }

  lemma ListedUnique(pool: seq<Sheet>, st: seq<int>, sheets: seq<int>)
    requires Sound(pool, st) && st <= sheets
    ensures forall lo, hi :: 0 <= lo && hi <= |st| ==> Unique(sheets, lo, hi)
    ensures forall k :: 0 <= k < |st| ==> 0 <= sheets[k] < MAX_SHEETS
  {
    assert Listed(pool, st);
  }

  lemma LowerOrder(s: seq<int>, t: seq<int>, top: int, p: int, q: int, id: int)
    requires Order(s, t, q, p, 1) && 0 <= q < p <= top < |s| && s[p] == id
    ensures t[q := id][..top + 1] == Put(Rest(s[..top + 1], p), q, id)
  {
    var st', put := t[q := id][..top + 1], Put(Rest(s[..top + 1], p), q, id);
    PutRestAt(s[..top + 1], p, q, id);
    forall k | 0 <= k < |st'| ensures st'[k] == put[k] {
      assert put[k] == s[Origin(p, q, k)];
      assert k != q ==> t[k] == Moved(s, k, q, p, 1);
    }
  }

  lemma HeightAt(s: seq<int>, p: seq<Sheet>, q: seq<Sheet>, lo: int, hi: int, d: int, k: int)
    requires Heights(s, p, q, lo, hi, d) && Unique(s, lo, hi) && 0 <= k < |s| && 0 <= s[k] < |p|
    requires forall j :: lo <= j < hi && j != k ==> s[j] != s[k]
    ensures q[s[k]].height == if lo <= k < hi then k + d else p[s[k]].height
  {
    if !(lo <= k < hi) {
      assert s[k] !in s[lo..hi];
    }
  }

  /** Heights after a shift of the places lo..hi, sheet `id` having got its new height before. */
  lemma ShiftedHeights(p0: seq<Sheet>, p1: seq<Sheet>, sheets: seq<int>, st: seq<int>, id: int, height: int, lo: int,
      hi: int, d: int)
    requires Listed(p0, st) && st <= sheets && 0 <= id < MAX_SHEETS && hi <= |sheets| && Unique(sheets, lo, hi)
    requires forall j :: |st| <= j < hi ==> sheets[j] == id
    requires Heights(sheets, p0[id := p0[id].(height := height)], p1, lo, hi, d)
    ensures SameLook(p0, p1)
    ensures forall k :: 0 <= k < |st| && st[k] != id ==> p1[st[k]].height == if lo <= k < hi then k + d else k
    ensures forall i :: 0 <= i < MAX_SHEETS && i !in st && i != id ==> p1[i] == p0[i]
    ensures id !in sheets[lo..hi] ==> p1[id].height == height
  {
    var p := p0[id := p0[id].(height := height)];
    forall k | 0 <= k < |st| && st[k] != id
      ensures p1[st[k]].height == if lo <= k < hi then k + d else k
    {
      assert sheets[k] == st[k];
      assert forall j :: 0 <= j < |st| ==> sheets[j] == st[j];
      HeightAt(sheets, p, p1, lo, hi, d, k);
    }
    forall i | 0 <= i < MAX_SHEETS && i !in st && i != id
      ensures p1[i] == p[i]
    {
      assert forall j :: lo <= j < hi && j < |st| ==> sheets[j] == st[j];
    }
  }

  /** Where the sheets of the stack come from when the one at `p` is put at `q`. */
  function Origin(p: int, q: int, h: int): int {
    if h == q then p else if p <= h < q then h + 1 else if q < h <= p then h - 1 else h
  }

  lemma PutRestAt(st: seq<int>, p: int, q: int, id: int)
    requires 0 <= p < |st| && 0 <= q < |st| && st[p] == id
    ensures |Put(Rest(st, p), q, id)| == |st|
    ensures forall h :: 0 <= h < |st| ==> Put(Rest(st, p), q, id)[h] == st[Origin(p, q, h)]
  {
  }

  /** The other way: where the sheet at height `k` goes. */
  function Goal(p: int, q: int, k: int): int {
    if k == p then q else if p < k <= q then k - 1 else if q <= k < p then k + 1 else k
  }

  lemma MovedListed(p0: seq<Sheet>, p1: seq<Sheet>, st: seq<int>, st': seq<int>, p: int, q: int, id: int)
    requires Listed(p0, st) && SameLook(p0, p1) && 0 <= p < |st| == |st'| && 0 <= q < |st| && st[p] == id
    requires forall h :: 0 <= h < |st| ==> st'[h] == st[Origin(p, q, h)]
    requires forall k :: 0 <= k < |st| ==> p1[st[k]].height == Goal(p, q, k)
    requires forall i :: 0 <= i < MAX_SHEETS && i !in st ==> p1[i] == p0[i]
    ensures Listed(p1, st')
  {
    forall k | 0 <= k < |st| ensures st[k] in st' {
      assert st'[Goal(p, q, k)] == st[Origin(p, q, Goal(p, q, k))];
    }
    forall h | 0 <= h < |st'| ensures st'[h] in st && 0 <= st'[h] < MAX_SHEETS && p1[st'[h]].height == h {
      assert st'[h] == st[Origin(p, q, h)];
    }
    Restacked(p0, p1, st, st', id);
  }

  lemma LowerListed(p0: seq<Sheet>, p1: seq<Sheet>, sheets: seq<int>, st: seq<int>, p: int, q: int, id: int)
    requires Sound(p0, st) && st <= sheets && 0 <= q < p < |st| && st[p] == id
    requires Heights(sheets, p0[id := p0[id].(height := q)], p1, q, p, 1)
    ensures Sound(p1, Put(Rest(st, p), q, id)) && SameLook(p0, p1)
  {
    assert Listed(p0, st);
    ListedUnique(p0, st, sheets);
    ShiftedHeights(p0, p1, sheets, st, id, q, q, p, 1);
    NotInSlice(p0, sheets, st, p, q, p);
    PutRestAt(st, p, q, id);
    MovedListed(p0, p1, st, Put(Rest(st, p), q, id), p, q, id);
  }

  lemma Lowered(p0: seq<Sheet>, p1: seq<Sheet>, s: seq<int>, t: seq<int>, st: seq<int>, p: int, q: int, id: int)
    requires Sound(p0, st) && st <= s && 0 <= q < p < |st| && st[p] == id
    requires Order(s, t, q, p, 1) && Heights(s, p0[id := p0[id].(height := q)], p1, q, p, 1)
    ensures SameLook(p0, p1)
    ensures var st' := t[q := id][..|st|]; st' == Put(Rest(st, p), q, id) && Sound(p1, st')
  {
    assert s[..|st|] == st;
    LowerOrder(s, t, |st| - 1, p, q, id);
    LowerListed(p0, p1, s, st, p, q, id);
  }

  lemma NotInSlice(pool: seq<Sheet>, sheets: seq<int>, st: seq<int>, p: int, lo: int, hi: int)
    requires Listed(pool, st) && st <= sheets && 0 <= p < |st| && 0 <= lo <= hi <= |st| && !(lo <= p < hi)
    ensures st[p] !in sheets[lo..hi]
  {
    assert sheets[lo..hi] == st[lo..hi];
  }

  /** The entries behind height `top` are the same. */
  predicate SameBehind(s: seq<int>, t: seq<int>, top: int) {
    |s| == |t| && forall h :: 0 <= top + 1 <= h < |s| ==> t[h] == s[h]
  }

  lemma OrderBehind(s: seq<int>, t: seq<int>, lo: int, hi: int, d: int, top: int)
    requires Order(s, t, lo, hi, d) && hi + d <= top + 1
    ensures SameBehind(s, t, top)
  {
    forall h | 0 <= top + 1 <= h < |s| ensures t[h] == s[h] {
      assert t[h] == Moved(s, h, lo, hi, d);
    }
  }

  lemma NotYetMoved(s: seq<int>, t: seq<int>, lo: int, hi: int)
    requires Order(s, t, lo, hi, -1)
    ensures 0 <= hi < |s| ==> t[hi] == s[hi]
  {
    if 0 <= hi < |s| {
      assert t[hi] == Moved(s, hi, lo, hi, -1);
    }
  }

  /** The entry at place `k` of the list is a sheet. */
  predicate IsSheet(s: seq<int>, k: int) {
    0 <= k < |s| && 0 <= s[k] < MAX_SHEETS
  }

  lemma NotInStack(pool: seq<Sheet>, sheets: seq<int>, st: seq<int>, p: int, id: int)
    requires Sound(pool, st) && st <= sheets && 0 <= p < |st| && st[p] == id
    ensures id !in sheets[p + 1..|st|]
  {
    assert Listed(pool, st);
    NotInSlice(pool, sheets, st, p, p + 1, |st|);
  }

  /** A sheet whose height is that of the place behind the stack is not listed. */
  lemma Beyond(pool: seq<Sheet>, st: seq<int>, id: int)
    requires 0 <= id < |pool| && pool[id].used && pool[id].height == |st|
    ensures !Sound(pool, st)
  {
    assert !Listed(pool, st);
  }

  lemma RaiseOrder(s: seq<int>, t: seq<int>, top: int, p: int, q: int, id: int)
    requires 0 <= p <= q <= top < |s| && s[p] == id
    requires Order(s, t, p + 1, q + 1, -1)
      || (q == top && top + 1 < |s| && s[top + 1] == id && Order(s, t, p + 1, top + 2, -1))
    ensures t[q := id][..top + 1] == Put(Rest(s[..top + 1], p), q, id)
  {
    var st', put := t[q := id][..top + 1], Put(Rest(s[..top + 1], p), q, id);
    PutRestAt(s[..top + 1], p, q, id);
    forall k | 0 <= k < |st'| ensures st'[k] == put[k] {
      assert put[k] == s[Origin(p, q, k)];
      assert k != q ==> t[k] == s[if p <= k < q then k + 1 else k];
    }
  }

  lemma RaiseHeights(p0: seq<Sheet>, p1: seq<Sheet>, sheets: seq<int>, st: seq<int>, p: int, q: int, id: int)
    requires Listed(p0, st) && st <= sheets && 0 <= p < q < |st| && st[p] == id
    requires Heights(sheets, p0[id := p0[id].(height := q)], p1, p + 1, q + 1, -1)
    ensures SameLook(p0, p1)
    ensures forall k :: 0 <= k < |st| ==> p1[st[k]].height == Goal(p, q, k)
    ensures forall i :: 0 <= i < MAX_SHEETS && i !in st ==> p1[i] == p0[i]
  {
    assert Sound(p0, st);
    ListedUnique(p0, st, sheets);
    ShiftedHeights(p0, p1, sheets, st, id, q, p + 1, q + 1, -1);
    NotInSlice(p0, sheets, st, p, p + 1, q + 1);
  }

  lemma RaiseListed(p0: seq<Sheet>, p1: seq<Sheet>, sheets: seq<int>, st: seq<int>, p: int, q: int, id: int)
    requires Sound(p0, st) && st <= sheets && 0 <= p < q < |st| && st[p] == id
    requires Heights(sheets, p0[id := p0[id].(height := q)], p1, p + 1, q + 1, -1)
    ensures Sound(p1, Put(Rest(st, p), q, id)) && SameLook(p0, p1)
  {
    assert Listed(p0, st);
    RaiseHeights(p0, p1, sheets, st, p, q, id);
    PutRestAt(st, p, q, id);
    MovedListed(p0, p1, st, Put(Rest(st, p), q, id), p, q, id);
  }

  lemma StaleHeights(p0: seq<Sheet>, p1: seq<Sheet>, sheets: seq<int>, st: seq<int>, p: int, id: int)
    requires Listed(p0, st) && st < sheets && 0 <= p < |st| && st[p] == id == sheets[|st|]
    requires Heights(sheets, p0[id := p0[id].(height := |st|)], p1, p + 1, |st| + 1, -1)
    ensures SameLook(p0, p1)
    ensures forall k :: 0 <= k < |st| ==> p1[st[k]].height == Goal(p, |st| - 1, k)
    ensures forall i :: 0 <= i < MAX_SHEETS && i !in st ==> p1[i] == p0[i]
  {
    assert forall k :: 0 <= k < |st| ==> sheets[k] == st[k];
    assert Unique(sheets, p + 1, |st| + 1);
    ShiftedHeights(p0, p1, sheets, st, id, |st|, p + 1, |st| + 1, -1);
    assert p1[sheets[|st|]].height == |st| - 1;
    assert forall k :: 0 <= k < |st| && k != p ==> st[k] != id;
  }

  lemma RaiseStaleListed(p0: seq<Sheet>, p1: seq<Sheet>, sheets: seq<int>, st: seq<int>, p: int, id: int)
    requires Sound(p0, st) && st < sheets && 0 <= p < |st| && st[p] == id == sheets[|st|]
    requires Heights(sheets, p0[id := p0[id].(height := |st|)], p1, p + 1, |st| + 1, -1)
    ensures Sound(p1, Put(Rest(st, p), |st| - 1, id)) && SameLook(p0, p1)
  {
    assert Listed(p0, st);
    StaleHeights(p0, p1, sheets, st, p, id);
    PutRestAt(st, p, |st| - 1, id);
    MovedListed(p0, p1, st, Put(Rest(st, p), |st| - 1, id), p, |st| - 1, id);
  }

  lemma RaiseUnlisted(p0: seq<Sheet>, p1: seq<Sheet>, sheets: seq<int>, st: seq<int>, p: int, id: int, st': seq<int>)
    requires Sound(p0, st) && st < sheets && 0 <= p < |st|
    requires st[p] == id != sheets[|st|] && p0[id].used && |st'| == |st|
    requires Heights(sheets, p0[id := p0[id].(height := |st|)], p1, p + 1, |st| + 1, -1)
    ensures !Sound(p1, st')
  {
    assert sheets[p + 1..|st| + 1] == sheets[p + 1..|st|] + [sheets[|st|]];
    NotInStack(p0, sheets, st, p, id);
    Beyond(p1, st', id);
  }

  lemma Raised(p0: seq<Sheet>, p1: seq<Sheet>, s: seq<int>, t: seq<int>, st: seq<int>, p: int, q: int, id: int)
    requires Sound(p0, st) && st <= s && 0 <= p < q < |st| && st[p] == id
    requires Order(s, t, p + 1, q + 1, -1) && Heights(s, p0[id := p0[id].(height := q)], p1, p + 1, q + 1, -1)
    ensures SameLook(p0, p1)
    ensures var st' := t[q := id][..|st|]; st' == Put(Rest(st, p), q, id) && Sound(p1, st')
  {
    assert s[..|st|] == st;
    RaiseOrder(s, t, |st| - 1, p, q, id);
    RaiseListed(p0, p1, s, st, p, q, id);
  }

  lemma RaisedBeyond(p0: seq<Sheet>, p1: seq<Sheet>, s: seq<int>, t: seq<int>, t': seq<int>, st: seq<int>,
      st': seq<int>, top: int, p: int, id: int)
    requires Sound(p0, st) && st < s && 0 <= p < |st| && st[p] == id && p0[id].used && top == |st| - 1
    requires Order(s, t, p + 1, top + 2, -1) && Heights(s, p0[id := p0[id].(height := top + 1)], p1, p + 1, top + 2, -1)
    requires t' == t[top + 1 := id] && st' == t'[..top + 1]
    ensures Sound(p1, st') <==> s[top + 1] == id
    ensures s[top + 1] == id ==> SameLook(p0, p1) && SameBehind(s, t', top) && st' == Put(Rest(st, p), top, id)
  {
    assert st' == t[..top + 1];
    if s[top + 1] == id {
      OrderBehind(s, t, p + 1, top + 2, -1, top);
      assert s[..top + 1] == st;
      assert t[top] == Moved(s, top, p + 1, top + 2, -1);
      assert t[top := id] == t;
      RaiseOrder(s, t, top, p, top, id);
      RaiseStaleListed(p0, p1, s, st, p, id);
    } else {
      RaiseUnlisted(p0, p1, s, st, p, id, st');
    }
  }

  lemma HideOrder(s: seq<int>, t: seq<int>, top: int, p: int)
    requires Order(s, t, p + 1, top + 1, -1) && 0 <= p <= top < |s|
    ensures t[..top] == Rest(s[..top + 1], p)
  {
    var st', rest := t[..top], Rest(s[..top + 1], p);
    CutAt(s[..top + 1], p);
    forall k | 0 <= k < |st'| ensures st'[k] == rest[k] {
      assert t[k] == Moved(s, k, p + 1, top + 1, -1);
    }
  }

  lemma HideListed(p0: seq<Sheet>, p1: seq<Sheet>, sheets: seq<int>, st: seq<int>, p: int, id: int)
    requires Sound(p0, st) && st <= sheets && Taken(st, p, id) && p0[id].used && 0 <= id < MAX_SHEETS
    requires Heights(sheets, p0[id := p0[id].(height := -1)], p1, p + 1, |st|, -1)
    ensures Sound(p1, Rest(st, p)) && SameLook(p0, p1)
  {
    assert Listed(p0, st);
    var rest := Rest(st, p);
    ListedUnique(p0, st, sheets);
    ShiftedHeights(p0, p1, sheets, st, id, -1, p + 1, |st|, -1);
    PutMember(rest, p, id);
    NotInSlice(p0, sheets, st, p, p + 1, |st|);
    CutAt(st, p);
    forall h | 0 <= h < |rest|
      ensures 0 <= rest[h] < MAX_SHEETS && p1[rest[h]].height == h
    {
      assert rest[h] == st[if h < p then h else h + 1];
    }
    Restacked(p0, p1, st, rest, id);
  }

  lemma Hidden(p0: seq<Sheet>, p1: seq<Sheet>, s: seq<int>, t: seq<int>, st: seq<int>, p: int, id: int)
    requires Sound(p0, st) && st <= s && Taken(st, p, id) && 0 <= id < MAX_SHEETS && p0[id].used
    requires Order(s, t, p + 1, |st|, -1) && Heights(s, p0[id := p0[id].(height := -1)], p1, p + 1, |st|, -1)
    ensures SameLook(p0, p1) && t[..|st| - 1] == Rest(st, p) && Sound(p1, t[..|st| - 1])
  {
    assert s[..|st|] == st;
    HideOrder(s, t, |st| - 1, p);
    HideListed(p0, p1, s, st, p, id);
  }

  lemma NotListed(pool: seq<Sheet>, st: seq<int>, id: int)
    requires Sound(pool, st) && 0 <= id < MAX_SHEETS && pool[id].used && pool[id].height < 0
    ensures id !in st && |st| < MAX_SHEETS
  {
    assert Listed(pool, st);
    assert forall k :: 0 <= k < |st| ==> st[k] != id;
    Pigeonhole(st + [id], MAX_SHEETS);
  }

  /** A list of different numbers below n has at most n members. */
  lemma {:induction false} Pigeonhole(s: seq<int>, n: nat)
    requires (forall k :: 0 <= k < |s| ==> 0 <= s[k] < n) && Unique(s, 0, |s|)
    ensures |s| <= n
  {
    if s == [] {
    } else if n - 1 in s {
      assert 0 <= s[0] < n;
      var j :| 0 <= j < |s| && s[j] == n - 1;
      CutAt(s, j);
      Pigeonhole(Cut(s, j, j + 1), n - 1);
    } else {
      assert 0 <= s[0] < n;
      Pigeonhole(s, n - 1);
    }
  }

  lemma ShowOrder(s: seq<int>, t: seq<int>, top: int, q: int, id: int)
    requires Order(s, t, q, top + 1, 1) && 0 <= q <= top + 1 < |s|
    ensures t[q := id][..top + 2] == Put(s[..top + 1], q, id)
  {
    var st', put := t[q := id][..top + 2], Put(s[..top + 1], q, id);
    forall k | 0 <= k < |st'| ensures st'[k] == put[k] {
      assert k != q ==> t[k] == Moved(s, k, q, top + 1, 1);
    }
  }

  lemma ShowListed(p0: seq<Sheet>, p1: seq<Sheet>, sheets: seq<int>, st: seq<int>, q: int, id: int)
    requires 0 <= id < MAX_SHEETS && Sound(p0, st) && st <= sheets && id !in st && 0 <= q <= |st| && p0[id].used
    requires Heights(sheets, p0[id := p0[id].(height := q)], p1, q, |st|, 1)
    ensures Sound(p1, Put(st, q, id)) && SameLook(p0, p1)
  {
    assert Listed(p0, st);
    var st' := Put(st, q, id);
    ListedUnique(p0, st, sheets);
    ShiftedHeights(p0, p1, sheets, st, id, q, q, |st|, 1);
    PutMember(st, q, id);
    assert sheets[q..|st|] == st[q..];
    forall h | 0 <= h < |st'|
      ensures 0 <= st'[h] < MAX_SHEETS && p1[st'[h]].height == h
    {
      assert h != q ==> st'[h] == st[if h < q then h else h - 1];
    }
    Restacked(p0, p1, st, st', id);
  }

  lemma PutSlices(sheets: seq<int>, top: int, rest: seq<int>, q: int, id: int)
    requires 0 <= q <= |rest| && -1 <= top < |sheets| && sheets[..top + 1] == Put(rest, q, id)
    ensures sheets[q..top + 1] == Put(rest, q, id)[q..]
  {
    assert sheets[q..top + 1] == sheets[..top + 1][q..];
  }

  /** What `RefreshMap` and `RefreshSub` promise about one pixel. */
  predicate Redrawn(pool: seq<Sheet>, above: seq<int>, ids: seq<int>, r: Rect, x: int, y: int, m: int, m': int,
      v: int, v': int)
    requires PoolOk(pool)
  {
    && m' == (if r.Has(x, y) then Own(above, Col(pool, x, y).Keys, m) else m)
    && v' == Drawn(pool, ids, r, x, y, m', v)
  }

  lemma LowerAt(p0: seq<Sheet>, pool: seq<Sheet>, st: seq<int>, sheets: seq<int>, top: int, p: int, q: int, id: int,
           x: int, y: int, m: int, m': int, v: int, v': int)
    requires PoolOk(p0) && SameLook(p0, pool) && PoolOk(pool) && 0 <= id < MAX_SHEETS && -1 <= top < |sheets|
    requires Taken(st, p, id) && 0 <= q < p <= top && sheets[..top + 1] == Put(Rest(st, p), q, id)
    requires PixelOk(st, Col(p0, x, y), m, v)
    requires Redrawn(pool, sheets[q..top + 1], sheets[q + 1..p + 1], pool[id].Area(), x, y, m, m', v, v')
    ensures PixelOk(sheets[..top + 1], Col(pool, x, y), m', v')
  {
    ColSame(p0, pool, x, y);
    var rest := Rest(st, p);
    PutSlices(sheets, top, rest, q, id);
    SliceOfTake(sheets, top + 1, q + 1, p + 1);
    PutMiddle(rest, q, p, id);
    LowerPixel(rest, p, q, id, Col(pool, x, y), m, m', v, v', pool[id].Area().Has(x, y));
  }

  lemma RaiseAt(p0: seq<Sheet>, pool: seq<Sheet>, st: seq<int>, sheets: seq<int>, top: int, p: int, q: int, id: int,
           x: int, y: int, m: int, m': int, v: int, v': int)
    requires PoolOk(p0) && SameLook(p0, pool) && PoolOk(pool) && 0 <= id < MAX_SHEETS && -1 <= top < |sheets|
    requires Taken(st, p, id) && 0 <= p < q <= top && q < |st| && sheets[..top + 1] == Put(Rest(st, p), q, id)
    requires PixelOk(st, Col(p0, x, y), m, v)
    requires Redrawn(pool, sheets[q..top + 1], sheets[q..q + 1], pool[id].Area(), x, y, m, m', v, v')
    ensures PixelOk(sheets[..top + 1], Col(pool, x, y), m', v')
  {
    ColSame(p0, pool, x, y);
    var rest := Rest(st, p);
    PutSlices(sheets, top, rest, q, id);
    assert sheets[q..q + 1] == [sheets[..top + 1][q]];
    RaisePixel(rest, p, q, id, Col(pool, x, y), m, m', v, v', pool[id].Area().Has(x, y));
  }

  lemma BeyondAt(p0: seq<Sheet>, pool: seq<Sheet>, st: seq<int>, sheets: seq<int>, top: int, p: int, id: int,
                 x: int, y: int, m: int, m': int, v: int, v': int)
    requires PoolOk(p0) && SameLook(p0, pool) && PoolOk(pool) && 0 <= id < MAX_SHEETS && 0 <= top && top + 1 < |sheets|
    requires Taken(st, p, id) && |st| == top + 1 && sheets[..top + 1] == Put(Rest(st, p), top, id)
    requires sheets[top + 1] == id
    requires PixelOk(st, Col(p0, x, y), m, v)
    requires Redrawn(pool, sheets[top + 1..top + 1], sheets[top + 1..top + 2], pool[id].Area(), x, y, m, m', v, v')
    ensures PixelOk(sheets[..top + 1], Col(pool, x, y), m', v') <==>
            (id in Col(p0, x, y) ==> Bare(st[p + 1..], Col(p0, x, y).Keys))
  {
    ColSame(p0, pool, x, y);
    var rest := Rest(st, p);
    CutAt(st, p);
    assert rest[p..] == st[p + 1..];
    assert sheets[top + 1..top + 2] == [id];
    BeyondPixel(rest, p, id, Col(pool, x, y), m, v, v', pool[id].Area().Has(x, y));
  }

  lemma ShowAt(p0: seq<Sheet>, pool: seq<Sheet>, st: seq<int>, sheets: seq<int>, top: int, q: int, id: int,
           x: int, y: int, m: int, m': int, v: int, v': int)
    requires PoolOk(p0) && SameLook(p0, pool) && PoolOk(pool) && 0 <= id < MAX_SHEETS && -1 <= top < |sheets|
    requires id !in st && 0 <= q <= top && q <= |st| && sheets[..top + 1] == Put(st, q, id)
    requires PixelOk(st, Col(p0, x, y), m, v)
    requires Redrawn(pool, sheets[q..top + 1], sheets[q..q + 1], pool[id].Area(), x, y, m, m', v, v')
    ensures PixelOk(sheets[..top + 1], Col(pool, x, y), m', v')
  {
    ColSame(p0, pool, x, y);
    PutSlices(sheets, top, st, q, id);
    assert sheets[q..q + 1] == [sheets[..top + 1][q]];
    ShowPixel(st, q, id, Col(pool, x, y), m, m', v, v', pool[id].Area().Has(x, y));
  }

  lemma HideAt(p0: seq<Sheet>, pool: seq<Sheet>, st: seq<int>, sheets: seq<int>, top: int, p: int, id: int,
           x: int, y: int, m: int, m': int, v: int, v': int)
    requires PoolOk(p0) && SameLook(p0, pool) && PoolOk(pool) && 0 <= id < MAX_SHEETS && -1 <= top < |sheets|
    requires Taken(st, p, id) && sheets[..top + 1] == Rest(st, p)
    requires PixelOk(st, Col(p0, x, y), m, v)
    requires Redrawn(pool, sheets[0..top + 1], sheets[0..top + 1], pool[id].Area(), x, y, m, m', v, v')
    ensures PixelOk(sheets[..top + 1], Col(pool, x, y), m', v')
  {
    ColSame(p0, pool, x, y);
    var rest := Rest(st, p);
    assert sheets[0..top + 1] == sheets[..top + 1];
    HidePixel(rest, p, id, Col(pool, x, y), m, m', v, v', pool[id].Area().Has(x, y));
  }

  function Clamp(height: int, top: int): int {
    if height > top + 1 then top + 1 else if height < -1 then -1 else height
  }

  /** What a change from height `p` to height `q` does to the stack; -1 means hidden. */
  function Restack(st: seq<int>, p: int, q: int, id: int): seq<int> {
    var rest := if 0 <= p < |st| then Rest(st, p) else st;
    if 0 <= q <= |rest| then Put(rest, q, id) else rest
  }

  /** The sheet stands at its new height, and the others keep their order. */
  lemma RestackIs(st: seq<int>, p: int, q: int, id: int, others: seq<int>, st': seq<int>)
    requires -1 <= p < |st| && others == (if p >= 0 then st[..p] + st[p + 1..] else st) && -1 <= q <= |others|
    requires st' == Restack(st, p, q, id)
    ensures q >= 0 ==> |st'| == |others| + 1 && st'[q] == id && st'[..q] == others[..q] && st'[q + 1..] == others[q..]
    ensures q == -1 ==> st' == others
  {
  }

  lemma NewHeight(p0: seq<Sheet>, p1: seq<Sheet>, st: seq<int>, st': seq<int>, q: int, id: int)
    requires Sound(p0, st) && Sound(p1, st') && 0 <= id < MAX_SHEETS && p0[id].used && p1[id].used
    requires -1 <= p0[id].height < |st| && st' == Restack(st, p0[id].height, q, id)
    requires -1 <= q <= (if p0[id].height >= 0 then |st| - 1 else |st|)
    ensures p1[id].height == q
  {
    OneOf(p0, st, id);
    OneOf(p1, st', id);
    assert Listed(p1, st');
    if q >= 0 {
      assert st'[q] == id;
    }
  }

  lemma RestackCases(st: seq<int>, p: int, q: int, id: int)
    ensures Taken(st, p, id) && 0 <= q < |st| ==> Restack(st, p, q, id) == Put(Rest(st, p), q, id)
    ensures Taken(st, p, id) && q == -1 ==> Restack(st, p, q, id) == Rest(st, p)
    ensures p == -1 && 0 <= q <= |st| ==> Restack(st, p, q, id) == Put(st, q, id)
    ensures p == q && (p == -1 || Taken(st, p, id)) ==> Restack(st, p, q, id) == st
  {
  }

  /** A sheet in use is hidden, or in the stack at its height. */
  lemma OneOf(pool: seq<Sheet>, st: seq<int>, id: int)
    requires Sound(pool, st) && 0 <= id < MAX_SHEETS && pool[id].used
    ensures pool[id].height == -1 || Taken(st, pool[id].height, id)
    ensures pool[id].height == -1 ==> id !in st
  {
    assert Listed(pool, st);
    if pool[id].height != -1 {
      assert id in st;
      ListedAt(pool, st, id);
    }
  }

  lemma NoMove(pool: seq<Sheet>, st: seq<int>, id: int)
    requires Sound(pool, st) && 0 <= id < MAX_SHEETS && pool[id].used
    ensures -1 <= pool[id].height < |st| && Restack(st, pool[id].height, pool[id].height, id) == st
  {
    OneOf(pool, st, id);
    RestackCases(st, pool[id].height, pool[id].height, id);
  }

  lemma SlidListed(p0: seq<Sheet>, pool: seq<Sheet>, st: seq<int>, id: int)
    requires Sound(p0, st) && 0 <= id < MAX_SHEETS && PoolOk(p0) && |pool| == MAX_SHEETS
    requires pool == p0[id := p0[id].(vx0 := pool[id].vx0, vy0 := pool[id].vy0)]
    ensures Sound(pool, st) && PoolOk(pool)
  {
    assert Listed(p0, st);
    assert forall i :: 0 <= i < MAX_SHEETS ==> pool[i].used == p0[i].used && pool[i].height == p0[i].height;
    assert forall i :: 0 <= i < MAX_SHEETS && i != id ==> pool[i] == p0[i];
    assert pool[id].BufOk() == p0[id].BufOk();
    assert Listed(pool, st);
  }

  lemma SlideCol(p0: seq<Sheet>, pool: seq<Sheet>, id: int, x: int, y: int)
    requires PoolOk(p0) && PoolOk(pool) && 0 <= id < MAX_SHEETS && forall i :: 0 <= i < MAX_SHEETS && i != id ==>
      pool[i] == p0[i]
    ensures SameBut(Col(p0, x, y), Col(pool, x, y), id)
  {
  }

  lemma SlideAt(p0: seq<Sheet>, pool: seq<Sheet>, st: seq<int>, sheets: seq<int>, top: int, p: int, id: int,
                x: int, y: int, m: int, m1: int, m2: int, v: int, v1: int, v2: int)
    requires PoolOk(p0) && PoolOk(pool) && 0 <= id < MAX_SHEETS && forall i :: 0 <= i < MAX_SHEETS && i != id ==>
      pool[i] == p0[i]
    requires -1 <= top < |sheets| && Taken(st, p, id) && sheets[..top + 1] == st && PixelOk(st, Col(p0, x, y), m, v)
    requires m1 == if p0[id].Area().Has(x, y) then Own(sheets[0..top + 1], Col(pool, x, y).Keys, m) else m
    requires m2 == if pool[id].Area().Has(x, y) then Own(sheets[p..top + 1], Col(pool, x, y).Keys, m1) else m1
    requires v1 == Drawn(pool, sheets[0..p], p0[id].Area(), x, y, m2, v)
    requires v2 == Drawn(pool, sheets[p..p + 1], pool[id].Area(), x, y, m2, v1)
    ensures PixelOk(sheets[..top + 1], Col(pool, x, y), m2, v2)
  {
    var rest := Rest(st, p);
    SlideCol(p0, pool, id, x, y);
    PutSlices(sheets, top, rest, p, id);
    assert sheets[0..top + 1] == st;
    assert sheets[0..p] == st[..p] == rest[..p];
    assert sheets[p..p + 1] == [st[p]];
    SlidePixel(rest, p, id, Col(p0, x, y), Col(pool, x, y), m, m1, m2, v, v1, v2, p0[id].Area().Has(x, y),
      pool[id].Area().Has(x, y));
  }

  /** A change to a hidden sheet is not seen. */
  lemma HiddenAt(p0: seq<Sheet>, pool: seq<Sheet>, st: seq<int>, id: int, x: int, y: int, m: int, v: int)
    requires PoolOk(p0) && PoolOk(pool) && 0 <= id < MAX_SHEETS && forall i :: 0 <= i < MAX_SHEETS && i != id ==>
      pool[i] == p0[i]
    requires id !in st && PixelOk(st, Col(p0, x, y), m, v)
    ensures PixelOk(st, Col(pool, x, y), m, v)
  {
    SlideCol(p0, pool, id, x, y);
    HiddenPixel(st, id, Col(p0, x, y), Col(pool, x, y), m, v);
  }

  datatype Op =
    | Alloc | SetBuf(id: nat, buf: seq<Color>, bxsize: nat, bysize: nat, colInv: int)
    | UpDown(id: nat, height: int) | Slide(id: nat, vx0: int, vy0: int) | Free(id: nat)

  /** The sheets without their heights, and the stack of the shown ones. */
  datatype Scene = Scene(look: seq<Sheet>, st: seq<int>)

  function Look(pool: seq<Sheet>): (r: seq<Sheet>)
    ensures |r| == |pool| && forall i :: 0 <= i < |pool| ==> r[i] == pool[i].(height := 0)
  {
    seq(|pool|, i requires 0 <= i < |pool| => pool[i].(height := 0))
  }

  /** The height of a sheet in the stack, or -1. */
  function HeightIn(st: seq<int>, id: int): int {
    if st == [] then -1 else if st[|st| - 1] == id then |st| - 1 else HeightIn(st[..|st| - 1], id)
  }

  function FirstUnused(look: seq<Sheet>, i: nat): int
    decreases |look| - i
  {
    if i >= |look| then -1 else if look[i].used then FirstUnused(look, i + 1) else i
  }

  /**
   What the source asks of its callers: a sheet in use, no new buffer while shown, no raise of a shown sheet above the
   top.
   */
  predicate Allowed(op: Op, sc: Scene) {
    match op
    case Alloc => true
    case SetBuf(id, buf, bxsize, bysize, _) => id < |sc.look| && sc.look[id].used && id !in sc.st
      && |buf| >= bxsize * bysize
    case UpDown(id, height) => id < |sc.look| && sc.look[id].used && (id in sc.st ==> height < |sc.st|)
    case Slide(id, _, _) => id < |sc.look| && sc.look[id].used
    case Free(id) => id < |sc.look| && sc.look[id].used
  }

  function After(op: Op, sc: Scene): Scene
    requires Allowed(op, sc)
  {
    match op
    case Alloc =>
      var i := FirstUnused(sc.look, 0);
      if 0 <= i < |sc.look| then sc.(look := sc.look[i := sc.look[i].(used := true)]) else sc
    case SetBuf(id, buf, bxsize, bysize, colInv) =>
      sc.(look := sc.look[id := sc.look[id].(buf := buf, bxsize := bxsize, bysize := bysize, colInv := colInv)])
    case UpDown(id, height) => sc.(st := Restack(sc.st, HeightIn(sc.st, id), Clamp(height, |sc.st| - 1), id))
    case Slide(id, vx0, vy0) => sc.(look := sc.look[id := sc.look[id].(vx0 := vx0, vy0 := vy0)])
    case Free(id) => Scene(sc.look[id := sc.look[id].(used := false)], Restack(sc.st, HeightIn(sc.st, id), -1, id))
  }

  predicate AllAllowed(ops: seq<Op>, sc: Scene)
    decreases |ops|
  {
    ops != [] ==> Allowed(ops[0], sc) && AllAllowed(ops[1..], After(ops[0], sc))
  }

  function AfterAll(ops: seq<Op>, sc: Scene): Scene
    requires AllAllowed(ops, sc)
    decreases |ops|
  {
    if ops == [] then sc else AfterAll(ops[1..], After(ops[0], sc))
  }

  lemma LookSame(p: seq<Sheet>, q: seq<Sheet>)
    requires SameLook(p, q)
    ensures Look(p) == Look(q)
  {
  }

  lemma LookAt(p: seq<Sheet>, id: nat, s: Sheet)
    requires id < |p|
    ensures Look(p[id := s]) == Look(p)[id := s.(height := 0)]
  {
  }

  lemma {:induction false} HeightInAt(st: seq<int>, p: int, id: int)
    requires 0 <= p < |st| && st[p] == id && forall k :: p < k < |st| ==> st[k] != id
    ensures HeightIn(st, id) == p
  {
    if p < |st| - 1 {
      HeightInAt(st[..|st| - 1], p, id);
    }
  }

  lemma {:induction false} HeightInNot(st: seq<int>, id: int)
    requires id !in st
    ensures HeightIn(st, id) == -1
  {
    if st != [] {
      HeightInNot(st[..|st| - 1], id);
    }
  }

  /** A used sheet has the height at which the stack lists it. */
  lemma HeightIs(pool: seq<Sheet>, st: seq<int>, id: int)
    requires Sound(pool, st) && 0 <= id < MAX_SHEETS && pool[id].used
    ensures HeightIn(st, id) == pool[id].height && (id in st <==> pool[id].height >= 0) && pool[id].height >= -1
  {
    assert Listed(pool, st);
    if id in st {
      HeightInAt(st, pool[id].height, id);
    } else {
      HeightInNot(st, id);
    }
  }

  lemma {:induction false} FirstUnusedFrom(look: seq<Sheet>, i: nat, k: nat)
    requires i <= k <= |look| && (forall j :: i <= j < k ==> look[j].used) && (k < |look| ==> !look[k].used)
    ensures FirstUnused(look, i) == if k < |look| then k else -1
    decreases k - i
  {
    if i < k {
      FirstUnusedFrom(look, i + 1, k);
    }
  }

  lemma FirstUnusedIs(look: seq<Sheet>, k: nat)
    requires k < |look| && (forall j :: 0 <= j < k ==> look[j].used) && !look[k].used
    ensures FirstUnused(look, 0) == k
  {
    FirstUnusedFrom(look, 0, k);
  }

  lemma NoneUnused(look: seq<Sheet>)
    requires forall j :: 0 <= j < |look| ==> look[j].used
    ensures FirstUnused(look, 0) == -1
  {
    FirstUnusedFrom(look, 0, |look|);
  }

  lemma HiddenListed(p0: seq<Sheet>, pool: seq<Sheet>, st: seq<int>, id: int)
    requires Sound(p0, st) && 0 <= id < MAX_SHEETS && id !in st && PoolOk(p0) && |pool| == MAX_SHEETS
    requires pool[id].BufOk() && (pool[id].used ==> pool[id].height == -1) && pool == p0[id := pool[id]]
    ensures Sound(pool, st) && PoolOk(pool)
  {
    assert Listed(p0, st);
    assert forall h :: 0 <= h < |st| ==> st[h] in st && st[h] != id;
    assert Listed(pool, st);
  }

  lemma UnusedHidden(pool: seq<Sheet>, st: seq<int>, id: int)
    requires Sound(pool, st) && 0 <= id < MAX_SHEETS && !pool[id].used
    ensures id !in st
  {
    assert Listed(pool, st);
  }

  // Raising a shown sheet above the top: one screen of one pixel for each way to go wrong.

  predicate Opaque(s: Sheet) {
    s.used && s.bxsize == 1 && s.bysize == 1 && |s.buf| == 1 && s.vx0 == 0 && s.vy0 == 0 && s.colInv == -1
  }

  predicate Blank(s: Sheet) {
    !s.used && s.vx0 == 0 && s.vy0 == 0
  }

  /** A screen of one pixel, and `n` hidden sheets that cover it. */
  method OnePixel(n: nat) returns (c: Ctl)
    requires n <= MAX_SHEETS
    ensures fresh(c) && fresh(c.map_) && fresh(c.vram) && c.Inv() && c.xsize == 1 && c.ysize == 1 && c.Stack() == []
    ensures (forall h :: 0 <= h < MAX_SHEETS ==> c.sheets[h] == -1) && forall i :: 0 <= i < n ==> Opaque(c.pool[i])
  {
    var map_, vram := new int[1], new int[1];
    c := new Ctl(vram, map_, 1, 1, 1);
    for k := 0 to n
      invariant c.Inv() && c.Stack() == [] && (forall h :: 0 <= h < MAX_SHEETS ==> c.sheets[h] == -1)
      invariant (forall i :: 0 <= i < k ==> Opaque(c.pool[i])) && forall i :: k <= i < MAX_SHEETS ==> Blank(c.pool[i])
    {
      ghost var was, p := c.pool[k], c.pool;
      var id := c.Alloc();
      ghost var now := c.pool[k];
      assert Blank(was) && forall i :: 0 <= i < k ==> Opaque(p[i]);
      assert id == k || now == was;
      c.SetBuf(id, [0], 1, 1, -1);
    }
  }

  lemma CoversPixel(pool: seq<Sheet>, id: int)
    requires PoolOk(pool) && 0 <= id < MAX_SHEETS && Opaque(pool[id])
    ensures id in Col(pool, 0, 0)
  {
    assert pool[id].Covers(0, 0);
  }

  /** The entry behind the stack was never written: the source follows a null pointer. */
  method RaiseOnlySheet() returns (ok: bool, c: Ctl)
    ensures !ok && !c.Inv()
  {
    c := OnePixel(1);
    ok := c.UpDown(0, 0);
    assert c.Stack() == [0];
    HeightIs(c.pool, c.Stack(), 0);
    ok := c.UpDown(0, 1);
  }

  /** The stacks on the way. */
  lemma Restacks()
    ensures Restack([], -1, 0, 0) == [0] && Restack([0], -1, 1, 1) == [0, 1] && Restack([0, 1], 1, -1, 1) == [0]
    ensures Restack([0, 1, 2], 0, -1, 0) == [1, 2] && Restack([1, 2], 1, 0, 2) == [2, 1]
  {
    assert Rest([0, 1, 2], 0) == [1, 2] && Rest([1, 2], 1) == [1] && Put([1], 0, 2) == [2, 1];
  }

  /** The entry behind the stack is a sheet that has been hidden: the sheet is then missing from the list. */
  method RaiseOverHidden() returns (ok: bool, c: Ctl)
    ensures ok && !c.Inv()
  {
    c := OneHidden();
    HeightIs(c.pool, c.Stack(), 0);
    ok := c.UpDown(0, 1);
  }

  method OneHidden() returns (c: Ctl)
    ensures fresh(c) && fresh(c.map_) && fresh(c.vram)
    ensures c.Inv() && c.Stack() == [0] && c.sheets[1] == 1 && c.pool[0].used
  {
    Restacks();
    c := OnePixel(2);
    var _ := c.UpDown(0, 0);
    HeightIs(c.pool, c.Stack(), 1);
    var _ := c.UpDown(1, 1);
    HeightIs(c.pool, c.Stack(), 1);
    assert c.sheets[1] == c.Stack()[1];
    var _ := c.UpDown(1, -1);
  }

  /** The entry is the sheet itself, but a sheet above it covers the pixel: the map is not redrawn. */
  method RaiseUnseen() returns (ok: bool, c: Ctl)
    ensures ok && !c.Inv()
  {
    c := Turned();
    HeightIs(c.pool, c.Stack(), 2);
    CoversPixel(c.pool, 1);
    CoversPixel(c.pool, 2);
    ghost var above := c.Stack()[1..];
    assert above == [1] && 1 in above && !Bare(above, Col(c.pool, 0, 0).Keys);
    assert c.OnScreen(0, 0) && !c.NoneAbove(c.pool, c.Stack(), 0, 2);
    ok := c.UpDown(2, 2);
  }

  /** Three sheets shown; the bottom one hidden; the top one lowered. */
  method Turned() returns (c: Ctl)
    ensures fresh(c) && fresh(c.map_) && fresh(c.vram) && c.Inv() && c.xsize == 1 && c.ysize == 1 && c.Stack() == [2, 1]
    ensures c.sheets[2] == 2 && Opaque(c.pool[1]) && Opaque(c.pool[2])
  {
    Restacks();
    c := ThreeShown();
    HeightIs(c.pool, c.Stack(), 0);
    assert c.sheets[2] == c.Stack()[2];
    var _ := c.UpDown(0, -1);
    HeightIs(c.pool, c.Stack(), 2);
    var _ := c.UpDown(2, 0);
  }

  method ThreeShown() returns (c: Ctl)
    ensures fresh(c) && fresh(c.map_) && fresh(c.vram)
    ensures c.Inv() && c.xsize == 1 && c.ysize == 1 && c.Stack() == [0, 1, 2]
    ensures forall i :: 0 <= i < 3 ==> Opaque(c.pool[i])
  {
    c := OnePixel(3);
    ghost var p := c.pool;
    for k := 0 to 3
      invariant c.Inv() && |c.Stack()| == k && (forall h :: 0 <= h < k ==> c.Stack()[h] == h) && SameLook(p, c.pool)
    {
      HeightIs(c.pool, c.Stack(), k);
      var _ := c.UpDown(k, k);
    }
  }
}
