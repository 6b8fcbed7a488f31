/** The filename encoding of digests of `digest_encode.c`: eight-bit bytes to six-bit characters and back. */
module Digest {
  import opened Arith
  import opened Bytes
  import opened Seqs

  /** The characters in their order: capitals, small letters, digits, plus and comma. */
  function Letter(k: nat): char
    requires k < 64
  {
    if k < 26 then (k + 'A' as int) as char
    else if k < 52 then (k - 26 + 'a' as int) as char
    else if k < 62 then (k - 52 + '0' as int) as char
    else if k == 62 then '+' else ','
  }

  function AllLetters(): (s: string)
    ensures |s| == 64 && forall k :: 0 <= k < 64 ==> s[k] == Letter(k)
  {
    seq(64, k requires 0 <= k < 64 => Letter(k))
  }

  const TABLE: string := AllLetters()

  /** The table: the ends of its four ranges, and within each the characters in order. */
  lemma TableIs(k: nat)
    ensures |TABLE| == 64 && TABLE[0] == 'A' && TABLE[25] == 'Z' && TABLE[26] == 'a' && TABLE[51] == 'z'
    ensures TABLE[52] == '0' && TABLE[61] == '9' && TABLE[62] == '+' && TABLE[63] == ','
    ensures k < 25 || 26 <= k < 51 || 52 <= k < 61 ==> TABLE[k + 1] as int == TABLE[k] as int + 1
  {
    assert TABLE == AllLetters();
  }

  // Bits, the lowest first.

  lemma Double(w: nat, v: nat)
    ensures (2 * w) * v == 2 * (w * v)
  {
  }

  lemma {:induction false} ValConcat(q: seq<bool>, r: seq<bool>)
    ensures Val(q + r) == Val(q) + Pow2(|q|) * Val(r)
  {
    if q == [] {
      assert q + r == r;
    } else {
      assert (q + r)[1..] == q[1..] + r;
      ValConcat(q[1..], r);
      Double(Pow2(|q| - 1), Val(r));
    }
  }

  lemma TwoSmall()
    ensures Pow2(6) == 64 && Pow2(8) == 256
  {
    assert Pow2(4) == 16;
    assert Pow2(6) == 2 * (2 * Pow2(4)) && Pow2(8) == 2 * (2 * Pow2(6));
  }

  lemma Mod64(v: nat, lo: nat, hi: nat)
    requires v == lo + 64 * hi && lo < 64
    ensures v % 64 == lo && v / 64 == hi
  {
  }

  lemma Mod256(v: nat, lo: nat, hi: nat)
    requires v == lo + 256 * hi && lo < 256
    ensures v % 256 == lo && v / 256 == hi
  {
  }

  /** Taking six bits off the low end. */
  lemma Split6(q: seq<bool>)
    requires |q| >= 6
    ensures Val(q) % 64 == Val(q[..6]) < 64 && Val(q) / 64 == Val(q[6..])
  {
    assert Pow2(6) == 64 by { TwoSmall(); }
    assert Val(q) == Val(q[..6]) + 64 * Val(q[6..]) by { ValConcat(q[..6], q[6..]); TakeDrop(q, 6); }
    assert Val(q[..6]) < 64 by { BitsVal(q[..6]); }
    Mod64(Val(q), Val(q[..6]), Val(q[6..]));
  }

  lemma Split8(q: seq<bool>)
    requires |q| >= 8
    ensures Val(q) % 256 == Val(q[..8]) < 256 && Val(q) / 256 == Val(q[8..])
  {
    assert Pow2(8) == 256 by { TwoSmall(); }
    assert Val(q) == Val(q[..8]) + 256 * Val(q[8..]) by { ValConcat(q[..8], q[8..]); TakeDrop(q, 8); }
    assert Val(q[..8]) < 256 by { BitsVal(q[..8]); }
    Mod256(Val(q), Val(q[..8]), Val(q[8..]));
  }

  // Bytes and characters as one stream of bits.

  type Six = c: int | 0 <= c < 64

  function Stream8(s: seq<byte>): (q: seq<bool>)
    ensures |q| == 8 * |s|
  {
    if s == [] then [] else BitsOf(s[0], 8) + Stream8(s[1..])
  }

  function Stream6(t: seq<Six>): (q: seq<bool>)
    ensures |q| == 6 * |t|
  {
    if t == [] then [] else BitsOf(t[0], 6) + Stream6(t[1..])
  }

  /** Groups of six bits, the last one filled up with zeros. */
  function Chunk6(q: seq<bool>): (t: seq<Six>)
    ensures 6 * |t| >= |q| && 6 * |t| < |q| + 6
  {
    if q == [] then []
    else if |q| < 6 then (Small6(q); [Val(q)])
    else (Split6(q); [Val(q[..6])] + Chunk6(q[6..]))
  }

  /** Groups of eight bits; what is left over has to be zero. */
  function Chunk8(q: seq<bool>): Option<seq<byte>> {
    if |q| < 8 then (if Val(q) == 0 then Some([]) else None)
    else
      Split8(q);
      var b: byte := Val(q[..8]);
      Glue([b], Chunk8(q[8..]))
  }

  function Glue(s: seq<byte>, r: Option<seq<byte>>): Option<seq<byte>> {
    if r.None? then None else Some(s + r.value)
  }

  lemma {:induction false} TwoMono(n: nat)
    requires n <= 6
    ensures Pow2(n) <= 64
    decreases 6 - n
  {
    if n < 6 {
      TwoMono(n + 1);
      assert Pow2(n + 1) == 2 * Pow2(n);
    } else {
      TwoSmall();
    }
  }

  lemma Small6(q: seq<bool>)
    requires |q| < 6
    ensures Val(q) < 64
  {
    BitsVal(q);
    TwoMono(|q|);
  }

  function Encoded(s: seq<byte>): seq<Six> { Chunk6(Stream8(s)) }

  function Decoded(t: seq<Six>): Option<seq<byte>> { Chunk8(Stream6(t)) }

  /** The encoding of n bytes has 4 n / 3 characters, rounded up. */
  lemma EncodedLength(s: seq<byte>)
    ensures |Encoded(s)| == (4 * |s| + 2) / 3
  {
  }

  lemma {:induction false} ValFalses(q: seq<bool>)
    ensures Val(q) == 0 <==> q == Falses(|q|)
  {
    if q != [] {
      ValFalses(q[1..]);
      Uncons(q);
      assert Falses(|q|)[1..] == Falses(|q| - 1);
    }
  }

  lemma StreamOfLast(q: seq<bool>)
    requires 0 < |q| < 6
    ensures Stream6(Chunk6(q)) == q + Falses(6 - |q|)
  {
    Small6(q);
    BitsPad(q, 6);
    var c: Six := Val(q);
    assert Stream6([c]) == BitsOf(c, 6) + [];
  }

  lemma StreamOfMore(q: seq<bool>, rest: seq<Six>, pad: seq<bool>)
    requires |q| >= 6 && rest == Chunk6(q[6..]) && Stream6(rest) == q[6..] + pad
    ensures Stream6(Chunk6(q)) == q + pad
  {
    Split6(q);
    BitsVal(q[..6]);
    var c: Six := Val(q[..6]);
    assert ([c] + rest)[1..] == rest;
    assert Stream6([c] + rest) == q[..6] + (q[6..] + pad);
    Assoc(q[..6], q[6..], pad);
    TakeDrop(q, 6);
  }

  lemma {:induction false} StreamOfChunk6(q: seq<bool>)
    ensures Stream6(Chunk6(q)) == q + Falses(6 * |Chunk6(q)| - |q|)
  {
    if |q| == 0 {
    } else if |q| < 6 {
      StreamOfLast(q);
    } else {
      StreamOfChunk6(q[6..]);
      var rest := Chunk6(q[6..]);
      StreamOfMore(q, rest, Falses(6 * |rest| - |q[6..]|));
    }
  }

  lemma {:induction false} ChunkOfStream8(s: seq<byte>, k: nat)
    requires k < 8
    ensures Chunk8(Stream8(s) + Falses(k)) == Some(s)
  {
    var q := Stream8(s) + Falses(k);
    if s == [] {
      assert q == Falses(k);
      ValFalses(q);
    } else {
      ByteBits(s[0]);
      var rest := Stream8(s[1..]) + Falses(k);
      Assoc(BitsOf(s[0], 8), Stream8(s[1..]), Falses(k));
      assert q[..8] == BitsOf(s[0], 8) && q[8..] == rest;
      ChunkOfStream8(s[1..], k);
      Split8(q);
      Uncons(s);
    }
  }

  lemma ByteBits(b: byte)
    ensures Val(BitsOf(b, 8)) == b
  {
    TwoSmall();
    ValBits(b, 8);
  }

  /** Decoding undoes encoding. */
  lemma RoundTrip(s: seq<byte>)
    ensures Decoded(Encoded(s)) == Some(s)
  {
    StreamOfChunk6(Stream8(s));
    ChunkOfStream8(s, 6 * |Encoded(s)| - 8 * |s|);
  }

  lemma {:induction false} StreamOfChunk8(q: seq<bool>, s: seq<byte>)
    requires Chunk8(q) == Some(s)
    ensures 8 * |s| <= |q| < 8 * |s| + 8 && q == Stream8(s) + Falses(|q| - 8 * |s|)
  {
    if |q| < 8 {
      ValFalses(q);
      assert q == [] + q;
    } else {
      Split8(q);
      var b: byte := Val(q[..8]);
      var rest := Chunk8(q[8..]).value;
      assert s == [b] + rest;
      StreamOfChunk8(q[8..], rest);
      assert Stream8(s) == q[..8] + Stream8(rest) by { BitsVal(q[..8]); assert s[1..] == rest; }
      Assoc(q[..8], Stream8(rest), Falses(|q| - 8 * |s|));
      TakeDrop(q, 8);
    }
  }

  lemma {:induction false} ChunkOfStream6(t: seq<Six>)
    ensures Chunk6(Stream6(t)) == t
  {
    if t != [] {
      var q := Stream6(t);
      assert q[..6] == BitsOf(t[0], 6) && q[6..] == Stream6(t[1..]);
      TwoSmall();
      ValBits(t[0], 6);
      ChunkOfStream6(t[1..]);
      Uncons(t);
    }
  }

  lemma {:induction false} ChunkPad(q: seq<bool>, j: nat)
    requires j < 6 && (|q| + j) % 6 == 0
    ensures Chunk6(q + Falses(j)) == Chunk6(q)
  {
    var r := q + Falses(j);
    if |q| == 0 {
      assert r == q;
    } else if |q| < 6 {
      BitsVal(q);
      ValPad(q, j);
      assert r[..6] == r && r[6..] == [];
    } else {
      assert r[..6] == q[..6] && r[6..] == q[6..] + Falses(j);
      ChunkPad(q[6..], j);
    }
  }

  lemma ValPad(q: seq<bool>, j: nat)
    ensures Val(q + Falses(j)) == Val(q)
  {
    ValConcat(q, Falses(j));
    ValFalses(Falses(j));
  }

  /** The number with these digits in base 256, and the one with these in base 64, the lowest digit first. */
  function Number256(s: seq<byte>): nat {
    if s == [] then 0 else s[0] as int + 256 * Number256(s[1..])
  }

  function Number64(t: seq<Six>): nat {
    if t == [] then 0 else t[0] as int + 64 * Number64(t[1..])
  }

  lemma {:induction false} StreamNumber256(s: seq<byte>)
    ensures Val(Stream8(s)) == Number256(s)
  {
    if s != [] {
      StreamNumber256(s[1..]);
      ValConcat(BitsOf(s[0], 8), Stream8(s[1..]));
      ByteWidth();
      ValBits(s[0], 8);
    }
  }

  lemma {:induction false} StreamNumber64(t: seq<Six>)
    ensures Val(Stream6(t)) == Number64(t)
  {
    if t != [] {
      StreamNumber64(t[1..]);
      ValConcat(BitsOf(t[0], 6), Stream6(t[1..]));
      TwoSmall();
      ValBits(t[0], 6);
    }
  }

  /** The encoding of a string of bytes is the same number in base 64. */
  lemma SameNumber(s: seq<byte>)
    ensures Number64(Encoded(s)) == Number256(s)
  {
    var q := Stream8(s);
    StreamOfChunk6(q);
    ValPad(q, 6 * |Chunk6(q)| - |q|);
    StreamNumber64(Encoded(s));
    StreamNumber256(s);
  }

  /** Encoding undoes decoding, exactly unless the last character carries no bit of the last byte. */
  lemma ReverseTrip(t: seq<Six>, s: seq<byte>)
    requires Decoded(t) == Some(s)
    ensures Encoded(s) == t <==> |t| % 4 != 1
  {
    var q := Stream6(t);
    StreamOfChunk8(q, s);
    LeftOver(|t|, |s|);
    if |t| % 4 != 1 {
      Refill(t, s, 6 * |t| - 8 * |s|);
    } else {
      EncodedLength(s);
    }
  }

  lemma Refill(t: seq<Six>, s: seq<byte>, j: nat)
    requires j < 6 && 8 * |s| + j == 6 * |t| && Stream6(t) == Stream8(s) + Falses(j)
    ensures Encoded(s) == t
  {
    var q, r := Stream8(s), Stream6(t);
    assert Chunk6(r) == t by { ChunkOfStream6(t); }
    SameChunks(q, j, r, |t|);
  }

  lemma SameChunks(q: seq<bool>, j: nat, r: seq<bool>, m: nat)
    requires j < 6 && |q| + j == 6 * m && r == q + Falses(j)
    ensures Chunk6(r) == Chunk6(q)
  {
    ChunkPad(q, j);
  }

  lemma LeftOver(m: nat, n: nat)
    requires 8 * n <= 6 * m < 8 * n + 8
    ensures m % 4 != 1 ==> 6 * m - 8 * n < 6
    ensures m % 4 == 1 ==> (4 * n + 2) / 3 == m - 1
  {
  }

  // The functions of the source.

  lemma {:induction false} PlaceIs(tab: string, c: char, k: nat, i: nat)
    requires k <= i < |tab| && tab[i] == c && forall j :: k <= j < i ==> tab[j] != c
    ensures c in tab[k..] && PlaceIn(tab, c, k) == i
    decreases i - k
  {
    assert tab[k..][i - k] == c;
    if k < i {
      PlaceIs(tab, c, k + 1, i);
    }
  }

  /** `strchr` on a table. */
  method IndexIn(tab: string, c: char) returns (k: int)
    ensures k == -1 <==> c !in tab
    ensures k != -1 ==> 0 <= k < |tab| && c in tab[0..] && k == PlaceIn(tab, c, 0)
  {
    for i := 0 to |tab|
      invariant forall j :: 0 <= j < i ==> tab[j] != c
    {
      if tab[i] == c {
        PlaceIs(tab, c, 0, i);
        return i;
      }
    }
    return -1;
  }

  /** `ac` and `bits` hold the bits `q` that are still to be written. */
  ghost predicate Holds(ac: nat, bits: nat, q: seq<bool>) {
    |q| == bits && ac == Val(q)
  }

  /** The inner loop of the encoder, which leaves less than six bits. */
  method Emit(ac: nat, bits: nat, out: seq<Six>, ghost q: seq<bool>, ghost rest: seq<bool>)
    returns (ac': nat, bits': nat, out': seq<Six>, ghost q': seq<bool>)
    requires bits >= 6 && Holds(ac, bits, q)
    ensures bits' < 6 && Holds(ac', bits', q')
    ensures out + Chunk6(q + rest) == out' + Chunk6(q' + rest)
  {
    ac', bits', out', q' := ac, bits, out, q;
    while bits' >= 6
      invariant Holds(ac', bits', q')
      invariant out + Chunk6(q + rest) == out' + Chunk6(q' + rest)
    {
      EmitStep(out', q', rest);
      var c: Six := ac' % 64;
      out' := out' + [c];
      ac' := ac' / 64;
      bits' := bits' - 6;
      q' := q'[6..];
    }
  }

  /** What is written, and what is still to come, make up the encoding. */
  ghost predicate Encoding(s: seq<byte>, i: nat, ac: nat, bits: nat, q: seq<bool>, out: seq<Six>)
    requires i <= |s|
  {
    Holds(ac, bits, q) && bits < 6 && Encoded(s) == out + Chunk6(q + Stream8(s[i..]))
  }

  /** The body of the loop of the encoder. */
  method EncodeByte(s: seq<byte>, i: nat, ac: nat, bits: nat, out: seq<Six>, ghost q: seq<bool>)
    returns (ac': nat, bits': nat, out': seq<Six>, ghost q': seq<bool>)
    requires i < |s| && Encoding(s, i, ac, bits, q, out)
    ensures Encoding(s, i + 1, ac', bits', q', out')
  {
    Feed8(s, i, q);
    ghost var fed := q + BitsOf(s[i], 8);
    ac', bits', out', q' := Emit(ac + s[i] * Shift(bits), bits + 8, out, fed, Stream8(s[i + 1..]));
  }

  /** `ext2fs_digest_encode` */
  method Encode(s: seq<byte>) returns (t: string)
    ensures t == Letters(Encoded(s))
  {
    var out: seq<Six> := [];
    var ac: nat, bits: nat := 0, 0;
    ghost var q: seq<bool> := [];
    EncodingStart(s);
    for i := 0 to |s|
      invariant Encoding(s, i, ac, bits, q, out)
    {
      ac, bits, out, q := EncodeByte(s, i, ac, bits, out, q);
    }
    EncodingEnd(s, ac, bits, q, out);
    if bits != 0 {
      var c: Six := ac % 64;
      out := out + [c];
    }
    t := Letters(out);
  }

  lemma EncodingStart(s: seq<byte>)
    ensures Encoding(s, 0, 0, 0, [], [])
  {
    assert s[0..] == s && [] + Stream8(s) == Stream8(s);
    assert [] + Encoded(s) == Encoded(s);
  }

  lemma EncodingEnd(s: seq<byte>, ac: nat, bits: nat, q: seq<bool>, out: seq<Six>)
    requires Encoding(s, |s|, ac, bits, q, out)
    ensures Encoded(s) == if bits == 0 then out else out + [ac % 64]
  {
    assert s[|s|..] == [] && q + Stream8([]) == q;
    if bits == 0 {
      assert out + [] == out;
    } else {
      Small6(q);
    }
  }

  function Shift(n: nat): (p: nat)
    ensures p == Pow2(n)
  {
    if n == 0 then 1 else 2 * Shift(n - 1)
  }

  function Letters(t: seq<Six>): (r: string)
    ensures |r| == |t| && forall k :: 0 <= k < |t| ==> r[k] == TABLE[t[k]]
  {
    if t == [] then [] else [TABLE[t[0]]] + Letters(t[1..])
  }

  /** Eight more bits in the accumulator. */
  lemma Feed8(s: seq<byte>, i: nat, q: seq<bool>)
    requires i < |s|
    ensures Val(q + BitsOf(s[i], 8)) == Val(q) + s[i] * Pow2(|q|)
    ensures q + Stream8(s[i..]) == q + BitsOf(s[i], 8) + Stream8(s[i + 1..])
  {
    var head, rest := BitsOf(s[i], 8), Stream8(s[i + 1..]);
    assert Pow2(8) == 256 by { TwoSmall(); }
    FeedVal(q, s[i], 8, head);
    assert Stream8(s[i..]) == head + rest by { UnconsAt(s, i); }
    Assoc(q, head, rest);
  }

  lemma FeedVal(q: seq<bool>, v: nat, k: nat, r: seq<bool>)
    requires v < Pow2(k) && r == BitsOf(v, k)
    ensures Val(q + r) == Val(q) + v * Pow2(|q|)
  {
    ValBits(v, k);
    ValConcat(q, r);
    Commute(Pow2(|q|), Val(r), v);
  }

  lemma Commute(w: nat, x: nat, v: nat)
    requires x == v
    ensures w * x == v * w
  {
  }

  lemma EmitStep(out: seq<Six>, q: seq<bool>, rest: seq<bool>)
    requires |q| >= 6
    ensures 0 <= Val(q) % 64 < 64 && Val(q) / 64 == Val(q[6..])
    ensures out + Chunk6(q + rest) == out + [Val(q) % 64] + Chunk6(q[6..] + rest)
  {
    Split6(q);
    assert (q + rest)[..6] == q[..6] && (q + rest)[6..] == q[6..] + rest;
    var c: Six := Val(q[..6]);
    Assoc(out, [c], Chunk6(q[6..] + rest));
  }

  /** The characters as six-bit numbers, if all are in the table. */
  function Numbers(t: string): Option<seq<Six>> {
    if t == [] then Some([])
    else if t[0] !in TABLE then None
    else
      var rest := Numbers(t[1..]);
      if rest.None? then None else Some([Place(t[0])] + rest.value)
  }

  /** The first place of `c` in `tab` from place `k` on. */
  function PlaceIn(tab: string, c: char, k: nat): (r: nat)
    requires k <= |tab| && c in tab[k..]
    ensures k <= r < |tab| && tab[r] == c
    decreases |tab| - k
  {
    if tab[k] == c then k else PlaceIn(tab, c, k + 1)
  }

  function Place(c: char): Six
    requires c in TABLE
  {
    assert TABLE[0..] == TABLE;
    PlaceIn(TABLE, c, 0)
  }

  /** The number that a string stands for, or nothing if it has a foreign character or bits left over. */
  function DecodedText(t: string): Option<seq<byte>> {
    var n := Numbers(t);
    if n.None? then None else Decoded(n.value)
  }

  lemma {:induction false} Stream8Snoc(s: seq<byte>, b: byte)
    ensures Stream8(s + [b]) == Stream8(s) + BitsOf(b, 8)
  {
    if s == [] {
      assert s + [b] == [b] && Stream8([]) == [];
      assert [b][1..] == [];
    } else {
      assert (s + [b])[1..] == s[1..] + [b];
      Stream8Snoc(s[1..], b);
      Assoc(BitsOf(s[0], 8), Stream8(s[1..]), BitsOf(b, 8));
    }
  }

  lemma {:induction false} Stream6Snoc(t: seq<Six>, c: Six)
    ensures Stream6(t + [c]) == Stream6(t) + BitsOf(c, 6)
  {
    if t == [] {
      assert t + [c] == [c] && Stream6([]) == [];
      assert [c][1..] == [];
    } else {
      assert (t + [c])[1..] == t[1..] + [c];
      Stream6Snoc(t[1..], c);
      Assoc(BitsOf(t[0], 6), Stream6(t[1..]), BitsOf(c, 6));
    }
  }

  /** The bytes written and the bits held are the bits of the characters read. */
  ghost predicate Decoding(t: seq<Six>, ac: nat, bits: nat, q: seq<bool>, out: seq<byte>) {
    Holds(ac, bits, q) && bits < 8 && Stream6(t) == Stream8(out) + q
  }

  /** The body of the loop of the decoder, for a character of the table. */
  method DecodeSix(ghost t: seq<Six>, c: Six, ac: nat, bits: nat, out: seq<byte>, ghost q: seq<bool>)
    returns (ac': nat, bits': nat, out': seq<byte>, ghost q': seq<bool>)
    requires Decoding(t, ac, bits, q, out)
    ensures Decoding(t + [c], ac', bits', q', out')
  {
    Feed6(t, c, q, out);
    q' := q + BitsOf(c, 6);
    ac', bits', out' := ac + c * Shift(bits), bits + 6, out;
    if bits' >= 8 {
      ByteOut(out, q');
      var b: byte := ac' % 256;
      out' := out' + [b];
      ac' := ac' / 256;
      bits' := bits' - 8;
      q' := q'[8..];
    }
  }

  lemma Feed6(t: seq<Six>, c: Six, q: seq<bool>, out: seq<byte>)
    requires Stream6(t) == Stream8(out) + q
    ensures Val(q + BitsOf(c, 6)) == Val(q) + c * Pow2(|q|)
    ensures Stream6(t + [c]) == Stream8(out) + (q + BitsOf(c, 6))
  {
    assert Pow2(6) == 64 by { TwoSmall(); }
    FeedVal(q, c, 6, BitsOf(c, 6));
    Stream6Snoc(t, c);
    Assoc(Stream8(out), q, BitsOf(c, 6));
  }

  lemma ByteOut(out: seq<byte>, q: seq<bool>)
    requires |q| >= 8
    ensures Val(q) % 256 < 256 && Val(q) / 256 == Val(q[8..])
    ensures Stream8(out) + q == Stream8(out + [Val(q) % 256]) + q[8..]
  {
    Split8(q);
    var b: byte := Val(q[..8]);
    BitsVal(q[..8]);
    Stream8Snoc(out, b);
    Assoc(Stream8(out), q[..8], q[8..]);
    TakeDrop(q, 8);
  }

  lemma {:induction false} ChunkRest(s: seq<byte>, q: seq<bool>)
    requires |q| < 8
    ensures Chunk8(Stream8(s) + q) == if Val(q) == 0 then Some(s) else None
  {
    if s == [] {
      assert Stream8(s) + q == q;
    } else {
      ByteBits(s[0]);
      var all := Stream8(s) + q;
      Assoc(BitsOf(s[0], 8), Stream8(s[1..]), q);
      assert all[..8] == BitsOf(s[0], 8) && all[8..] == Stream8(s[1..]) + q;
      ChunkRest(s[1..], q);
      Split8(all);
      Uncons(s);
    }
  }

  lemma {:induction false} NumbersSnoc(t: string, c: char)
    requires Numbers(t).Some? && c in TABLE
    ensures Numbers(t + [c]) == Some(Numbers(t).value + [Place(c)])
  {
    if t == [] {
      var one: seq<Six> := [Place(c)];
      assert t + [c] == [c] && [c][1..] == [] && Numbers([]) == Some([]);
      assert one + [] == one && [] + one == one;
    } else {
      assert (t + [c])[1..] == t[1..] + [c];
      NumbersSnoc(t[1..], c);
      Assoc([Place(t[0])], Numbers(t[1..]).value, [Place(c)]);
    }
  }

  lemma {:induction false} NumbersBad(t: string, i: nat)
    requires i < |t| && t[i] !in TABLE
    ensures Numbers(t) == None
  {
    if i > 0 {
      assert t[1..][i - 1] == t[i];
      NumbersBad(t[1..], i - 1);
    }
  }

  /** `ext2fs_digest_decode`; `None` is its error return. */
  method Decode(text: string) returns (r: Option<seq<byte>>)
    ensures r == DecodedText(text)
  {
    ghost var t: seq<Six> := [];
    ghost var q: seq<bool> := [];
    var out: seq<byte> := [];
    var ac: nat, bits: nat := 0, 0;
    for i := 0 to |text|
      invariant Numbers(text[..i]) == Some(t) && Decoding(t, ac, bits, q, out)
    {
      var k := IndexIn(TABLE, text[i]);
      if k == -1 {
        NumbersBad(text, i);
        return None;
      }
      NumbersSnoc(text[..i], text[i]);
      TakeSnoc(text, i);
      ac, bits, out, q := DecodeSix(t, k, ac, bits, out, q);
      t := t + [k];
    }
    assert text[..|text|] == text;
    ChunkRest(out, q);
    if ac != 0 {
      return None;
    }
    return Some(out);
  }

  lemma LettersDiffer(i: nat, j: nat)
    requires i < j < 64
    ensures Letter(i) != Letter(j)
  {
  }

  lemma PlaceOfLetter(k: nat)
    requires k < 64
    ensures TABLE[k] in TABLE && Place(TABLE[k]) == k
  {
    forall j | 0 <= j < k ensures TABLE[j] != TABLE[k] {
      LettersDiffer(j, k);
    }
    PlaceIs(TABLE, TABLE[k], 0, k);
  }

  lemma {:induction false} NumbersOfLetters(t: seq<Six>)
    ensures Numbers(Letters(t)) == Some(t)
  {
    if t != [] {
      PlaceOfLetter(t[0]);
      NumbersOfLetters(t[1..]);
      assert Letters(t)[1..] == Letters(t[1..]);
      Uncons(t);
    }
  }

  /** Decoding the text of an encoding gives the bytes back. */
  lemma TextRoundTrip(s: seq<byte>)
    ensures DecodedText(Letters(Encoded(s))) == Some(s)
  {
    NumbersOfLetters(Encoded(s));
    RoundTrip(s);
  }

  lemma {:induction false} LettersOfNumbers(t: string)
    requires Numbers(t).Some?
    ensures |Numbers(t).value| == |t| && Letters(Numbers(t).value) == t
  {
    if t != [] {
      LettersOfNumbers(t[1..]);
      var v := Numbers(t[1..]).value;
      assert TABLE[Place(t[0])] == t[0];
      assert Letters([Place(t[0])] + v) == [TABLE[Place(t[0])]] + Letters(v);
      Uncons(t);
    }
  }

  /**
   Encoding what a text decodes to gives the text back, exactly unless its length is one more than a multiple of four.
   */
  lemma TextReverseTrip(t: string, s: seq<byte>)
    requires DecodedText(t) == Some(s)
    ensures Letters(Encoded(s)) == t <==> |t| % 4 != 1
  {
    var v := Numbers(t).value;
    LettersOfNumbers(t);
    NumbersOfLetters(Encoded(s));
    ReverseTrip(v, s);
  }

  /** Such a text: it is accepted, and stands for no bytes at all. */
  lemma LoneLetter()
    ensures DecodedText("A") == Some([]) && Letters(Encoded([])) != "A"
  {
    var t: seq<Six> := [0];
    NumbersOfLetters(t);
    assert TABLE[0] == Letter(0) == 'A';
    assert Letters(t) == "A";
    assert t[1..] == [] && Stream6(t) == BitsOf(0, 6) + [];
    BitsZero(6);
    ValFalses(Falses(6));
  }
}
