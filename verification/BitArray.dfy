/**
 The flat bit array of `blkmap64_ba.c`: marks and tests of single bits and ranges, and the scans that go
 by bits, bytes and 64-bit words.
 */
module BitArray {
  import opened Arith
  import opened Bytes
  import opened Bitmap
  import opened Extents
  import opened Scans

  /** Bit `b` of the array. */
  predicate On(v: seq<byte>, b: nat) {
    b < 8 * |v| && Bit(v, b)
  }

  /** Bit `b` is bit b % 8, the lowest first, of byte b / 8. */
  lemma OnIs(v: seq<byte>, b: nat)
    ensures On(v, b) <==> b / 8 < |v| && v[b / 8] as int / Pow2(b % 8) % 2 == 1
  {
    if b < 8 * |v| {
      BitOfIs(v[b / 8], b % 8);
    }
  }

  /** No bit of lo..hi - 1 is as wanted. */
  ghost predicate Without(v: seq<byte>, want: bool, lo: nat, hi: nat) {
    forall b: nat :: lo <= b < hi ==> On(v, b) != want
  }

  /** The byte in which no bit is as wanted. */
  function Blank(want: bool): byte {
    if want then 0 else 255
  }

  lemma {:induction false} OnesBits(n: nat, j: nat)
    requires j < n
    ensures BitOf(Pow2(n) - 1, j)
    decreases j
  {
    if j > 0 {
      OnesBits(n - 1, j - 1);
    }
  }

  lemma BlankByte(v: seq<byte>, want: bool, p: nat)
    requires p < |v| && v[p] == Blank(want)
    ensures Without(v, want, 8 * p, 8 * p + 8)
  {
    ByteWidth();
    forall b: nat | 8 * p <= b < 8 * p + 8
      ensures On(v, b) != want
    {
      assert b / 8 == p;
      OnesBits(8, b % 8);
      ZeroBits(b % 8);
    }
  }

  predicate AllBlank(v: seq<byte>, want: bool, p: nat, n: nat)
    requires p + n <= |v|
  {
    forall k :: p <= k < p + n ==> v[k] == Blank(want)
  }

  lemma BlankBytes(v: seq<byte>, want: bool, p: nat, n: nat)
    requires p + n <= |v| && AllBlank(v, want, p, n)
    ensures Without(v, want, 8 * p, 8 * p + 8 * n)
  {
    forall b: nat | 8 * p <= b < 8 * p + 8 * n
      ensures On(v, b) != want
    {
      var k: nat := b / 8;
      assert p <= k < p + n && v[k] == Blank(want);
      BlankByte(v, want, k);
    }
  }

  /** The 64-bit word in which no bit is as wanted. */
  function BlankWord(want: bool): nat {
    if want then 0 else TWO64 - 1
  }

  lemma BlankHalf(v: seq<byte>, want: bool, p: nat)
    requires p + 4 <= |v|
    ensures U32(v, p) == (if want then 0 else TWO32 - 1) <==> AllBlank(v, want, p, 4)
    ensures U32(v, p) < TWO32
  {
    assert AllBlank(v, want, p, 4) <==>
           v[p] == Blank(want) && v[p + 1] == Blank(want) && v[p + 2] == Blank(want) && v[p + 3] == Blank(want);
  }

  /** A word is blank exactly if its eight bytes are. */
  lemma BlankWordBytes(v: seq<byte>, want: bool, p: nat)
    requires p + 8 <= |v|
    ensures U64(v, p) == BlankWord(want) <==> AllBlank(v, want, p, 8)
  {
    BlankHalf(v, want, p);
    BlankHalf(v, want, p + 4);
  }

  class Bits {
    const start: nat
    var addr: nat
    var bits: array<byte>

    /** `size` zero bytes, wherever the allocator puts them. */
    constructor (start: nat, addr: nat, size: nat)
      ensures this.start == start && fresh(bits) && bits.Length == size && forall b: nat :: !On(View(), b)
    {
      this.start, this.addr := start, addr;
      bits := new byte[size](_ => 0);
      new;
      ZerosOff(View());
    }

    ghost function View(): seq<byte>
      reads this, bits
    {
      bits[..]
    }

    method Test(b: nat) returns (r: bool)
      requires b < 8 * bits.Length
      ensures r <==> On(View(), b)
    {
      r := BitOf(bits[b / 8], b % 8);
    }

    /** Bit by bit to the next byte boundary. */
    method ToByte(want: bool, from: nat, n: nat) returns (found: bool, bitpos: nat, count: nat)
      requires from + n <= 8 * bits.Length
      ensures from <= bitpos && bitpos + count == from + n && Without(View(), want, from, bitpos)
      ensures found ==> count > 0 && On(View(), bitpos) == want
      ensures !found ==> count == 0 || bitpos % 8 == 0
    {
      bitpos, count := from, n;
      while bitpos % 8 != 0 && count > 0
        invariant from <= bitpos && bitpos + count == from + n && Without(View(), want, from, bitpos)
        decreases count
      {
        var on := Test(bitpos);
        if on == want {
          return true, bitpos, count;
        }
        bitpos, count := bitpos + 1, count - 1;
      }
      found := false;
    }

    /** Byte by byte to the next word boundary of memory. */
    method ToWord(want: bool, from: nat, n: nat) returns (found: bool, bitpos: nat, count: nat)
      requires from + n <= 8 * bits.Length && from % 8 == 0
      ensures from <= bitpos && bitpos + count == from + n && bitpos % 8 == 0 && Without(View(), want, from, bitpos)
    {
      var pos := from / 8;
      bitpos, count := from, n;
      while count >= 8 && (addr + pos) % 8 != 0
        invariant from <= bitpos == 8 * pos && bitpos + count == from + n && Without(View(), want, from, bitpos)
      {
        if bits[pos] != Blank(want) {
          return true, bitpos, count;
        }
        BlankByte(View(), want, pos);
        pos, bitpos, count := pos + 1, bitpos + 8, count - 8;
      }
      found := false;
    }

    /** Word by word. */
    method Words(want: bool, from: nat, n: nat) returns (bitpos: nat, count: nat)
      requires from + n <= 8 * bits.Length && from % 8 == 0
      ensures from <= bitpos && bitpos + count == from + n && bitpos % 8 == 0 && Without(View(), want, from, bitpos)
    {
      var pos := from / 8;
      var max := n / 64;
      var i := max;
      while i > 0
        invariant 0 <= i <= max && pos == from / 8 + 8 * (max - i) && Without(View(), want, from, 8 * pos)
      {
        if U64(bits[..], pos) != BlankWord(want) {
          break;
        }
        BlankWordBytes(View(), want, pos);
        BlankBytes(View(), want, pos, 8);
        pos, i := pos + 8, i - 1;
      }
      count := n - 64 * (max - i);
      bitpos := from + 64 * (max - i);
    }

    /** Byte by byte. */
    method ByBytes(want: bool, from: nat, n: nat) returns (bitpos: nat, count: nat)
      requires from + n <= 8 * bits.Length && from % 8 == 0
      ensures from <= bitpos && bitpos + count == from + n && Without(View(), want, from, bitpos)
    {
      var pos := from / 8;
      var max := n / 8;
      var i := max;
      while i > 0
        invariant 0 <= i <= max && pos == from / 8 + (max - i) && Without(View(), want, from, 8 * pos)
      {
        if bits[pos] != Blank(want) {
          break;
        }
        BlankByte(View(), want, pos);
        pos, i := pos + 1, i - 1;
      }
      count := n - 8 * (max - i);
      bitpos := from + 8 * (max - i);
    }

    /** Bit by bit to the end. */
    method ByBits(want: bool, from: nat, n: nat) returns (found: bool, bitpos: nat)
      requires from + n <= 8 * bits.Length
      ensures from <= bitpos <= from + n && Without(View(), want, from, bitpos)
      ensures found ==> bitpos < from + n && On(View(), bitpos) == want
      ensures !found ==> bitpos == from + n
    {
      bitpos := from;
      var count := n;
      while count > 0
        invariant from <= bitpos && bitpos + count == from + n && Without(View(), want, from, bitpos)
      {
        count := count - 1;
        var on := Test(bitpos);
        if on == want {
          return true, bitpos;
        }
        bitpos := bitpos + 1;
      }
      found := false;
    }

    /** `ba_find_first_zero` and `ba_find_first_set`: exact for every range and wherever the array lies in memory. */
    method FindFirst(want: bool, first: nat, last: nat) returns (r: Scan)
      requires start <= first <= last && last - start < 8 * bits.Length
      ensures var v := View(); FirstOf((b: nat) => b >= start && On(v, b - start) == want, first, last, r)
    {
      ghost var from: nat := first - start;
      var found, bitpos, count := ToByte(want, first - start, last - first + 1);
      if found {
        return FoundAt(bitpos + start);
      }
      if count == 0 {
        return NotFound;
      }
      var byteFound;
      byteFound, bitpos, count := ToWord(want, bitpos, count);
      if !byteFound {
        bitpos, count := Words(want, bitpos, count);
        bitpos, count := ByBytes(want, bitpos, count);
      }
      found, bitpos := ByBits(want, bitpos, count);
      if found {
        return FoundAt(bitpos + start);
      }
      return NotFound;
    }

    /** `ext2fs_set_bit64`: sets the bit and reports it as it was. */
    method SetAt(b: nat) returns (was: bool)
      requires b < 8 * bits.Length
      modifies bits
      ensures was == old(On(View(), b))
      ensures forall i: nat :: On(View(), i) <==> old(On(View(), i)) || i == b
    {
      was := BitOf(bits[b / 8], b % 8);
      ByteWidth();
      StaysInWidth(bits[b / 8], b % 8, 8);
      bits[b / 8] := OrBit(bits[b / 8], b % 8);
      assert View() == SetBit(old(View()), b);
      SetOn(old(View()), b);
    }

    /** `ext2fs_clear_bit64` */
    method ClearAt(b: nat) returns (was: bool)
      requires b < 8 * bits.Length
      modifies bits
      ensures was == old(On(View(), b))
      ensures forall i: nat :: On(View(), i) <==> old(On(View(), i)) && i != b
    {
      was := BitOf(bits[b / 8], b % 8);
      ByteWidth();
      StaysInWidth(bits[b / 8], b % 8, 8);
      bits[b / 8] := AndNotBit(bits[b / 8], b % 8);
      assert View() == ClearBit(old(View()), b);
      ClearOn(old(View()), b);
    }

    /** `ba_mark_bmap_extent` */
    method MarkExtent(n: nat, num: nat)
      requires start <= n && n - start + num <= 8 * bits.Length
      modifies bits
      ensures forall b: nat :: On(View(), b) <==> old(On(View(), b)) || InRange(n - start, num, b)
    {
      for i := 0 to num
        invariant forall b: nat :: On(View(), b) <==> old(On(View(), b)) || InRange(n - start, i, b)
      {
        var _ := SetAt(n + i - start);
      }
    }

    /** `ba_unmark_bmap_extent` */
    method UnmarkExtent(n: nat, num: nat)
      requires start <= n && n - start + num <= 8 * bits.Length
      modifies bits
      ensures forall b: nat :: On(View(), b) <==> old(On(View(), b)) && !InRange(n - start, num, b)
    {
      for i := 0 to num
        invariant forall b: nat :: On(View(), b) <==> old(On(View(), b)) && !InRange(n - start, i, b)
      {
        var _ := ClearAt(n + i - start);
      }
    }

    /** The memset of `ba_clear_bmap`. */
    method ClearAll()
      modifies bits
      ensures forall b: nat :: !On(View(), b)
    {
      for k := 0 to bits.Length
        invariant forall j :: 0 <= j < k ==> bits[j] == 0
      {
        bits[k] := 0;
      }
      ZerosOff(View());
    }

    /** `ext2fs_resize_mem`, and zeros in what is new. */
    method Realloc(addr: nat, size: nat)
      modifies this
      ensures fresh(bits) && bits.Length == size
      ensures forall b: nat :: On(View(), b) <==> old(On(View(), b)) && b < 8 * size
    {
      var now := new byte[size](_ => 0);
      var k := 0;
      while k < size && k < bits.Length
        invariant 0 <= k <= size && k <= bits.Length && bits[..] == old(bits[..])
        invariant forall j :: 0 <= j < size ==> now[j] == if j < k then bits[j] else 0
      {
        now[k] := bits[k];
        k := k + 1;
      }
      ReallocOn(bits[..], now[..]);
      bits := now;
      this.addr := addr;
    }

    /** `ext2fs_mem_is_zero` */
    method IsZero(p: nat, n: nat) returns (r: bool)
      requires p + n <= bits.Length
      ensures r <==> AllBlank(View(), true, p, n)
    {
      for k := p to p + n
        invariant AllBlank(View(), true, p, k - p)
      {
        if bits[k] != 0 {
          return false;
        }
      }
      return true;
    }

    /** `ba_test_clear_bmap_extent`: exact for every range. */
    method TestClear(first: nat, len: nat) returns (r: bool)
      requires start <= first && first - start + len <= 8 * bits.Length
      ensures r <==> forall b: nat :: InRange(first - start, len, b) ==> !On(View(), b)
    {
      var from := first - start;
      var startByte, startBit := from / 8, from % 8;
      var lenByte, lenBit := len / 8, len % 8;
      if startBit != 0 {
        var markCount, markBit := 8 - startBit, 7;
        if len < 8 - startBit {
          markCount, markBit := len, len + startBit - 1;
        }
        var mask := Mask(startBit, markCount, markBit);
        MaskedByte(View(), startByte, mask, startBit, markCount);
        if And(mask, bits[startByte]) != 0 {
          return false;
        } else if len <= 8 - startBit {
          return true;
        }
        startByte := startByte + 1;
        lenBit := (len - markCount) % 8;
        lenByte := (len - markCount) / 8;
      }
      if lenBit != 0 {
        var mask := Mask(0, lenBit, lenBit - 1);
        MaskedByte(View(), startByte + lenByte, mask, 0, lenBit);
        if And(mask, bits[startByte + lenByte]) != 0 {
          return false;
        } else if lenByte == 0 {
          return true;
        }
      }
      r := IsZero(startByte, lenByte);
      ZeroBytes(View(), startByte, lenByte);
    }
  }

  lemma ZerosOff(v: seq<byte>)
    requires forall k :: 0 <= k < |v| ==> v[k] == 0
    ensures forall b: nat :: !On(v, b)
  {
    forall b: nat ensures !On(v, b) { ZeroBits(b % 8); }
  }

  lemma ReallocOn(v: seq<byte>, w: seq<byte>)
    requires forall k :: 0 <= k < |w| ==> w[k] == if k < |v| then v[k] else 0
    ensures forall b: nat :: On(w, b) <==> On(v, b) && b < 8 * |w|
  {
    forall b: nat ensures On(w, b) <==> On(v, b) && b < 8 * |w| { ZeroBits(b % 8); }
  }

  /** The mask loops: from `top` downwards, `n` bits. */
  method Mask(low: nat, n: nat, top: int) returns (mask: nat)
    requires top == low + n - 1
    ensures forall j: nat :: BitOf(mask, j) <==> low <= j < low + n
  {
    mask := 0;
    forall j: nat ensures !BitOf(0, j) { ZeroBits(j); }
    var i, bit := n, top;
    while i > 0
      invariant 0 <= i <= n && bit == low + i - 1
      invariant forall j: nat :: BitOf(mask, j) <==> low + i <= j < low + n
    {
      forall j: nat ensures BitOf(OrBit(mask, bit), j) <==> j == bit || BitOf(mask, j) { OrBitBits(mask, bit, j); }
      mask := OrBit(mask, bit);
      i, bit := i - 1, bit - 1;
    }
  }

  /** a & b */
  function And(a: nat, b: nat): nat
    decreases a
  {
    if a == 0 then 0 else And(a / 2, b / 2) * 2 + (if a % 2 == 1 && b % 2 == 1 then 1 else 0)
  }

  predicate Both(a: nat, b: nat, j: nat) {
    BitOf(a, j) && BitOf(b, j)
  }

  lemma {:induction false} AndBits(a: nat, b: nat)
    ensures And(a, b) == 0 <==> forall j: nat :: !Both(a, b, j)
    decreases a
  {
    if a == 0 {
      forall j: nat ensures !Both(a, b, j) { ZeroBits(j); }
    } else {
      AndBits(a / 2, b / 2);
      if And(a, b) == 0 {
        forall j: nat ensures !Both(a, b, j) {
          assert j > 0 ==> Both(a, b, j) == Both(a / 2, b / 2, j - 1);
        }
      } else if And(a / 2, b / 2) != 0 {
        var j: nat :| Both(a / 2, b / 2, j);
        assert Both(a, b, j + 1);
      } else {
        assert Both(a, b, 0);
      }
    }
  }

  lemma MaskedByte(v: seq<byte>, p: nat, mask: nat, low: nat, n: nat)
    requires p < |v| && low + n <= 8 && forall j: nat :: BitOf(mask, j) <==> low <= j < low + n
    ensures And(mask, v[p]) == 0 <==> Without(v, true, 8 * p + low, 8 * p + low + n)
  {
    AndBits(mask, v[p]);
    if And(mask, v[p]) == 0 {
      forall b: nat | 8 * p + low <= b < 8 * p + low + n ensures !On(v, b) {
        assert b / 8 == p && BitOf(mask, b % 8) && !Both(mask, v[p], b % 8);
      }
    } else {
      var j: nat :| Both(mask, v[p], j);
      assert (8 * p + j) / 8 == p && (8 * p + j) % 8 == j && On(v, 8 * p + j);
    }
  }

  /** A byte with no bit set is zero. */
  lemma {:induction false} NoBits(x: nat, n: nat)
    requires x < Pow2(n) && forall j: nat :: j < n ==> !BitOf(x, j)
    ensures x == 0
  {
    if n > 0 {
      assert !BitOf(x, 0);
      forall j: nat | j < n - 1 ensures !BitOf(x / 2, j) {
        assert !BitOf(x, j + 1);
      }
      NoBits(x / 2, n - 1);
    }
  }

  lemma ZeroBytes(v: seq<byte>, p: nat, n: nat)
    requires p + n <= |v|
    ensures AllBlank(v, true, p, n) <==> Without(v, true, 8 * p, 8 * p + 8 * n)
  {
    if AllBlank(v, true, p, n) {
      BlankBytes(v, true, p, n);
    }
    if Without(v, true, 8 * p, 8 * p + 8 * n) {
      ByteWidth();
      forall k | p <= k < p + n ensures v[k] == 0 {
        forall j: nat | j < 8 ensures !BitOf(v[k], j) {
          assert (8 * k + j) / 8 == k && (8 * k + j) % 8 == j && !On(v, 8 * k + j);
        }
        NoBits(v[k], 8);
      }
    }
  }

  lemma SetOn(v: seq<byte>, b: nat)
    requires b < 8 * |v|
    ensures forall i: nat :: On(SetBit(v, b), i) <==> On(v, i) || i == b
  {
    forall i: nat | i < 8 * |v| ensures On(SetBit(v, b), i) <==> On(v, i) || i == b {
      SetBitBits(v, b, i);
    }
  }

  lemma ClearOn(v: seq<byte>, b: nat)
    requires b < 8 * |v|
    ensures forall i: nat :: On(ClearBit(v, b), i) <==> On(v, i) && i != b
  {
    forall i: nat | i < 8 * |v| ensures On(ClearBit(v, b), i) <==> On(v, i) && i != b {
      ClearBitBits(v, b, i);
    }
  }
}
