/**
 Loading in bytes: which images the flat loader takes, and what every byte of memory is afterwards, in terms of the
 numbers that the image holds at fixed places.
 */
module ImageBytes {
  import opened Bytes
  import opened Seqs
  import opened Package
  import opened Image

  // Where segment `i` and relocation `i` are described.

  function SegmentAt(image: seq<byte>, i: nat): nat
    requires |image| >= 64
  {
    U64(image, 40) + 40 * i
  }

  function RelaAt(image: seq<byte>, i: nat): nat
    requires |image| >= 64
  {
    U64(image, 48) + 24 * i
  }

  /** A header that the loaders take: magic, version and size, and a segment table inside the image. */
  predicate GoodImage(image: seq<byte>) {
    && |image| >= 64 && U32(image, 0) == 0x4D49_4E43 && U16(image, 4) == 1 && U16(image, 6) == 0
    && U32(image, 8) == 64 && SegmentAt(image, U32(image, 32)) <= |image|
  }

  /** The bytes of segment `i` lie in the image, and it has room for them. */
  predicate GoodSegment(image: seq<byte>, i: nat)
    requires |image| >= 64 && SegmentAt(image, i) + 40 <= |image|
  {
    var at := SegmentAt(image, i);
    U64(image, at) + U64(image, at + 16) <= |image| && U64(image, at + 16) <= U64(image, at + 24)
  }

  predicate GoodRela(image: seq<byte>, i: nat)
    requires |image| >= 64 && RelaAt(image, i) + 24 <= |image|
  {
    U32(image, RelaAt(image, i) + 16) == 1
  }

  /** What the flat loader takes. */
  ghost predicate Loadable(image: seq<byte>) {
    && GoodImage(image)
    && (forall i: nat :: i < U32(image, 32) ==> GoodSegment(image, i))
    && (U32(image, 36) > 0 ==>
         RelaAt(image, U32(image, 36)) <= |image| && forall i: nat :: i < U32(image, 36) ==> GoodRela(image, i))
  }

  // Segments.

  predicate Covers(s: Segment, k: nat) { s.addr <= k < s.addr + s.room }

  predicate AllFit(image: seq<byte>, segs: seq<Segment>) {
    forall i :: 0 <= i < |segs| ==> segs[i].off + segs[i].size <= |image| && segs[i].size <= segs[i].room
  }

  lemma FitFirst(image: seq<byte>, segs: seq<Segment>, rest: seq<Segment>)
    requires segs != [] && rest == segs[1..]
    ensures AllFit(image, segs) <==>
      segs[0].off + segs[0].size <= |image| && segs[0].size <= segs[0].room && AllFit(image, rest)
  {
    if AllFit(image, segs) {
      forall i | 0 <= i < |rest|
        ensures rest[i].off + rest[i].size <= |image| && rest[i].size <= rest[i].room
      {
        assert rest[i] == segs[i + 1];
      }
    }
    if segs[0].off + segs[0].size <= |image| && segs[0].size <= segs[0].room && AllFit(image, rest) {
      forall i | 0 <= i < |segs|
        ensures segs[i].off + segs[i].size <= |image| && segs[i].size <= segs[i].room
      {
        if i > 0 {
          assert segs[i] == rest[i - 1];
        }
      }
    }
  }

  lemma SaneFirst(segs: seq<Segment>, rest: seq<Segment>, size: nat)
    requires segs != [] && rest == segs[1..] && SegmentsSane(segs, size)
    ensures segs[0].off + segs[0].size < TWO64 && segs[0].addr + segs[0].room <= size && SegmentsSane(rest, size)
  {
    forall i | 0 <= i < |rest|
      ensures rest[i].off + rest[i].size < TWO64 && rest[i].addr + rest[i].room <= size
    {
      assert rest[i] == segs[i + 1];
    }
  }

  lemma {:induction false} SegmentsOk(image: seq<byte>, mem: seq<byte>, segs: seq<Segment>)
    requires |image| < TWO64 && SegmentsSane(segs, |mem|)
    ensures Segments(image, mem, segs).ok <==> AllFit(image, segs)
    decreases |segs|
  {
    if segs != [] {
      var rest := segs[1..];
      SaneFirst(segs, rest, |mem|);
      FitFirst(image, segs, rest);
      SumFits(segs[0].off, segs[0].size);
      if !BadSegment(segs[0], |image|) {
        SegmentsOk(image, Place(mem, segs[0].addr, Contents(image, segs[0])), rest);
      }
    }
  }

  /** Byte `k` of memory as the segment has it: from the image, or zero behind its bytes. */
  function ByteOf(image: seq<byte>, s: Segment, k: nat): byte {
    if s.addr <= k < s.addr + s.size && s.off + s.size <= |image| then image[s.off + (k - s.addr)] else 0
  }

  lemma PlacedByte(mem: seq<byte>, image: seq<byte>, s: Segment, k: nat)
    requires s.off + s.size <= |image| && s.size <= s.room && s.addr + s.room <= |mem| && k < |mem|
    ensures Place(mem, s.addr, Contents(image, s))[k] == if Covers(s, k) then ByteOf(image, s, k) else mem[k]
  {
    var front, t := image[s.off..s.off + s.size], Contents(image, s);
    assert |t| == s.room;
    if Covers(s, k) {
      var n := k - s.addr;
      assert Place(mem, s.addr, t)[k] == t[n];
      assert t[n] == if n < s.size then front[n] else 0;
    }
  }

  lemma FirstPlaced(image: seq<byte>, mem: seq<byte>, segs: seq<Segment>, mem': seq<byte>, rest: seq<Segment>)
    requires |image| < TWO64 && SegmentsSane(segs, |mem|) && AllFit(image, segs) && segs != []
    requires mem' == Place(mem, segs[0].addr, Contents(image, segs[0])) && rest == segs[1..]
    ensures Segments(image, mem, segs) == Segments(image, mem', rest)
    ensures |mem'| == |mem| && SegmentsSane(rest, |mem'|) && AllFit(image, rest)
  {
    SaneFirst(segs, rest, |mem|);
    FitFirst(image, segs, rest);
    SumFits(segs[0].off, segs[0].size);
  }

  /** A byte that no segment covers is as it was. */
  lemma {:induction false} UncoveredByte(image: seq<byte>, mem: seq<byte>, segs: seq<Segment>, k: nat)
    requires |image| < TWO64 && SegmentsSane(segs, |mem|) && AllFit(image, segs) && k < |mem|
    requires forall j :: 0 <= j < |segs| ==> !Covers(segs[j], k)
    ensures Segments(image, mem, segs).mem[k] == mem[k]
    decreases |segs|
  {
    if segs != [] {
      var mem', rest := Place(mem, segs[0].addr, Contents(image, segs[0])), segs[1..];
      FirstPlaced(image, mem, segs, mem', rest);
      PlacedByte(mem, image, segs[0], k);
      UncoveredByte(image, mem', rest, k);
    }
  }

  /** A byte comes from the last segment that covers it. */
  lemma {:induction false} CoveredByte(image: seq<byte>, mem: seq<byte>, segs: seq<Segment>, i: nat, k: nat)
    requires |image| < TWO64 && SegmentsSane(segs, |mem|) && AllFit(image, segs) && i < |segs| && k < |mem|
    requires Covers(segs[i], k) && forall j :: i < j < |segs| ==> !Covers(segs[j], k)
    ensures Segments(image, mem, segs).mem[k] == ByteOf(image, segs[i], k)
    decreases |segs|
  {
    var mem', rest := Place(mem, segs[0].addr, Contents(image, segs[0])), segs[1..];
    FirstPlaced(image, mem, segs, mem', rest);
    if i == 0 {
      PlacedByte(mem, image, segs[0], k);
      UncoveredByte(image, mem', rest, k);
    } else {
      assert rest[i - 1] == segs[i];
      CoveredByte(image, mem', rest, i - 1, k);
    }
  }

  // Relocations.

  function Site(base: nat, r: Rela): nat { Sum64(base, r.offset) }

  predicate Touches(base: nat, r: Rela, k: nat) { Site(base, r) <= k < Site(base, r) + 8 }

  lemma {:induction false} RelocatedOk(mem: seq<byte>, base: nat, relas: seq<Rela>)
    ensures Relocated(mem, base, relas).ok <==> forall i :: 0 <= i < |relas| ==> relas[i].typ == 1
    decreases |relas|
  {
    if relas != [] && relas[0].typ == 1 {
      var mem1 := Place(mem, Site(base, relas[0]), Le64(Sum64(base, relas[0].addend)));
      RelocatedOk(mem1, base, relas[1..]);
      assert forall i :: 0 < i < |relas| ==> relas[i] == relas[1..][i - 1];
    }
  }

  /** A byte of no site is as it was. */
  lemma {:induction false} UntouchedByte(mem: seq<byte>, base: nat, relas: seq<Rela>, k: nat)
    requires RelasSane(relas, base, |mem|) && Relocated(mem, base, relas).ok && k < |mem|
    requires forall j :: 0 <= j < |relas| ==> !Touches(base, relas[j], k)
    ensures Relocated(mem, base, relas).mem[k] == mem[k]
    decreases |relas|
  {
    if relas != [] {
      var mem1 := Place(mem, Site(base, relas[0]), Le64(Sum64(base, relas[0].addend)));
      assert !Touches(base, relas[0], k);
      assert mem1[k] == mem[k];
      UntouchedByte(mem1, base, relas[1..], k);
    }
  }

  predicate Disjoint(base: nat, r: Rela, s: Rela) {
    Site(base, r) + 8 <= Site(base, s) || Site(base, s) + 8 <= Site(base, r)
  }

  /** A site holds base plus addend, if no later relocation writes there. */
  lemma {:induction false} SiteValue(mem: seq<byte>, base: nat, relas: seq<Rela>, i: nat)
    requires RelasSane(relas, base, |mem|) && Relocated(mem, base, relas).ok && i < |relas|
    requires forall j :: i < j < |relas| ==> Disjoint(base, relas[i], relas[j])
    ensures Site(base, relas[i]) + 8 <= |mem|
    ensures U64(Relocated(mem, base, relas).mem, Site(base, relas[i])) == Sum64(base, relas[i].addend)
    decreases |relas|
  {
    var site, v := Site(base, relas[0]), Sum64(base, relas[0].addend);
    var mem1 := Place(mem, site, Le64(v));
    if i == 0 {
      PlacedNumber(mem, site, v);
      KeptNumber(mem1, base, relas[1..], site);
    } else {
      SiteValue(mem1, base, relas[1..], i - 1);
    }
  }

  lemma PlacedNumber(mem: seq<byte>, at: nat, v: nat)
    requires at + 8 <= |mem| && v < TWO64
    ensures U64(Place(mem, at, Le64(v)), at) == v
  {
    ReadLe64(mem[..at], v, mem[at + 8..]);
    assert Place(mem, at, Le64(v)) == mem[..at] + Le64(v) + mem[at + 8..];
  }

  lemma KeptNumber(mem: seq<byte>, base: nat, relas: seq<Rela>, at: nat)
    requires RelasSane(relas, base, |mem|) && Relocated(mem, base, relas).ok && at + 8 <= |mem|
    requires forall j :: 0 <= j < |relas| ==> at + 8 <= Site(base, relas[j]) || Site(base, relas[j]) + 8 <= at
    ensures U64(Relocated(mem, base, relas).mem, at) == U64(mem, at)
  {
    forall k | at <= k < at + 8
      ensures Relocated(mem, base, relas).mem[k] == mem[k]
    {
      UntouchedByte(mem, base, relas, k);
    }
  }

  // Images.

  function Segs(image: seq<byte>): seq<Segment>
    requires |image| >= 64
  {
    SegmentsOf(image, ReadImage(image))
  }

  function Relas(image: seq<byte>): seq<Rela>
    requires |image| >= 64
  {
    RelasOf(image, ReadImage(image))
  }

  lemma SegmentIs(image: seq<byte>, i: nat)
    requires |image| >= 64 && SegmentAt(image, U32(image, 32)) <= |image| && i < U32(image, 32)
    ensures SegmentAt(image, i) + 40 <= |image| && |Segs(image)| == U32(image, 32)
    ensures Segs(image)[i] == ReadSegment(image, SegmentAt(image, i))
  {
    assert SegmentAt(image, i) == U64(image, 40) + i * SEGMENT;
  }

  lemma RelaIs(image: seq<byte>, i: nat)
    requires |image| >= 64 && RelaAt(image, U32(image, 36)) <= |image| && i < U32(image, 36)
    ensures RelaAt(image, i) + 24 <= |image| && |Relas(image)| == U32(image, 36)
    ensures Relas(image)[i] == ReadRela(image, RelaAt(image, i))
  {
    assert RelaAt(image, i) == U64(image, 48) + i * RELA;
  }

  lemma AllGood(image: seq<byte>)
    requires |image| >= 64 && SegmentAt(image, U32(image, 32)) <= |image|
    ensures |Segs(image)| == U32(image, 32)
    ensures AllFit(image, Segs(image)) <==> forall i: nat :: i < U32(image, 32) ==> GoodSegment(image, i)
  {
    forall i: nat | i < U32(image, 32)
      ensures SegmentAt(image, i) + 40 <= |image|
      ensures GoodSegment(image, i)
         <==> Segs(image)[i].off + Segs(image)[i].size <= |image| && Segs(image)[i].size <= Segs(image)[i].room
    {
      SegmentIs(image, i);
    }
  }

  lemma AllRelative(image: seq<byte>)
    requires |image| >= 64 && RelaAt(image, U32(image, 36)) <= |image|
    ensures |Relas(image)| == U32(image, 36)
    ensures (forall i :: 0 <= i < |Relas(image)| ==> Relas(image)[i].typ == 1)
       <==> forall i: nat :: i < U32(image, 36) ==> GoodRela(image, i)
  {
    forall i: nat | i < U32(image, 36)
      ensures RelaAt(image, i) + 24 <= |image| && (GoodRela(image, i) <==> Relas(image)[i].typ == 1)
    {
      RelaIs(image, i);
    }
  }

  lemma AcceptedIs(image: seq<byte>)
    requires 64 <= |image| < TWO64 && TablesFit(ReadImage(image))
    ensures Accepted(ReadImage(image), |image|) <==> GoodImage(image)
    ensures Sum64(ReadImage(image).relasAt, ReadImage(image).relas * RELA) <= |image|
       <==> RelaAt(image, U32(image, 36)) <= |image|
  {
    var h := ReadImage(image);
    SumFits(h.segmentsAt, h.segments * SEGMENT);
    SumFits(h.relasAt, h.relas * RELA);
  }

  /**
   The flat loader takes exactly the images that the numbers in them make loadable, and enters them at base plus
   entry offset.
   */
  lemma LoadsExactly(image: seq<byte>, mem: seq<byte>)
    requires |image| < TWO64 && Sane(image, |mem|)
    ensures Load(image, mem).ok <==> Loadable(image)
    ensures Loadable(image) ==> Load(image, mem).entry == (U64(image, 24) + U64(image, 16)) % 0x1_0000_0000_0000_0000
  {
    if |image| >= 64 {
      AcceptedIs(image);
      if GoodImage(image) {
        AllGood(image);
        SegmentsOk(image, mem, Segs(image));
        if RelaAt(image, U32(image, 36)) <= |image| {
          AllRelative(image);
          RelocatedOk(Segments(image, mem, Segs(image)).mem, ReadImage(image).base, Relas(image));
        }
      }
    }
  }

  /** Segment `i` covers byte `k` of memory. */
  predicate InSegment(image: seq<byte>, i: nat, k: nat) {
    && |image| >= 64 && i < U32(image, 32) && SegmentAt(image, i) + 40 <= |image|
    && var at := SegmentAt(image, i); U64(image, at + 8) <= k < U64(image, at + 8) + U64(image, at + 24)
  }

  /** The byte that segment `i` has for byte `k` of memory: a byte of the image, or zero behind those. */
  function SegmentByte(image: seq<byte>, i: nat, k: nat): byte
    requires InSegment(image, i, k)
  {
    var at := SegmentAt(image, i);
    var n := k - U64(image, at + 8);
    if n < U64(image, at + 16) && U64(image, at) + n < |image| then image[U64(image, at) + n] else 0
  }

  /** The place that relocation `i` changes. */
  function SiteAt(image: seq<byte>, i: nat): nat
    requires |image| >= 64 && RelaAt(image, i) + 24 <= |image|
  {
    (U64(image, 24) + U64(image, RelaAt(image, i))) % 0x1_0000_0000_0000_0000
  }

  predicate OnSite(image: seq<byte>, i: nat, k: nat) {
    && |image| >= 64 && i < U32(image, 36) && RelaAt(image, i) + 24 <= |image|
    && SiteAt(image, i) <= k < SiteAt(image, i) + 8
  }

  lemma InSegmentIs(image: seq<byte>, i: nat, k: nat)
    requires |image| >= 64 && SegmentAt(image, U32(image, 32)) <= |image| && i < U32(image, 32)
    ensures |Segs(image)| == U32(image, 32) && (InSegment(image, i, k) <==> Covers(Segs(image)[i], k))
    ensures InSegment(image, i, k) && Segs(image)[i].off + Segs(image)[i].size <= |image| ==>
      ByteOf(image, Segs(image)[i], k) == SegmentByte(image, i, k)
  {
    SegmentIs(image, i);
  }

  lemma OnSiteIs(image: seq<byte>, i: nat, k: nat)
    requires |image| >= 64 && RelaAt(image, U32(image, 36)) <= |image| && i < U32(image, 36)
    ensures |Relas(image)| == U32(image, 36)
    ensures OnSite(image, i, k) <==> Touches(ReadImage(image).base, Relas(image)[i], k)
  {
    RelaIs(image, i);
  }

  lemma NoneLater(image: seq<byte>, i: nat, k: nat)
    requires |image| >= 64 && SegmentAt(image, U32(image, 32)) <= |image|
    requires forall j: nat :: i <= j < U32(image, 32) ==> !InSegment(image, j, k)
    ensures |Segs(image)| == U32(image, 32) && forall j :: i <= j < |Segs(image)| ==> !Covers(Segs(image)[j], k)
  {
    forall j: nat | i <= j < U32(image, 32)
      ensures |Segs(image)| == U32(image, 32) && !Covers(Segs(image)[j], k)
    {
      InSegmentIs(image, j, k);
    }
  }

  lemma NoneTouches(image: seq<byte>, k: nat)
    requires |image| >= 64 && RelaAt(image, U32(image, 36)) <= |image|
    requires forall j: nat :: j < U32(image, 36) ==> !OnSite(image, j, k)
    ensures forall j :: 0 <= j < |Relas(image)| ==> !Touches(ReadImage(image).base, Relas(image)[j], k)
  {
    forall j: nat | j < |Relas(image)|
      ensures !Touches(ReadImage(image).base, Relas(image)[j], k)
    {
      OnSiteIs(image, j, k);
    }
  }

  /** The two phases of a load that succeeds. */
  ghost predicate Phases(image: seq<byte>, mem: seq<byte>, mem': seq<byte>, out: seq<byte>) {
    && 64 <= |image| < TWO64 && |mem'| == |mem| == |out|
    && SegmentAt(image, U32(image, 32)) <= |image| && AllFit(image, Segs(image)) && SegmentsSane(Segs(image), |mem|)
    && mem' == Segments(image, mem, Segs(image)).mem
    && (U32(image, 36) == 0 ==> out == mem')
    && (U32(image, 36) > 0 ==> RelaAt(image, U32(image, 36)) <= |image| && Linked(image, mem', out))
  }

  ghost predicate Linked(image: seq<byte>, mem': seq<byte>, out: seq<byte>)
    requires |image| >= 64
  {
    var base := ReadImage(image).base;
    && RelasSane(Relas(image), base, |mem'|) && Relocated(mem', base, Relas(image)).ok
    && out == Relocated(mem', base, Relas(image)).mem
  }

  lemma LoadPhases(image: seq<byte>, mem: seq<byte>) returns (mem': seq<byte>)
    requires |image| < TWO64 && Sane(image, |mem|) && Loadable(image)
    ensures Phases(image, mem, mem', Load(image, mem).mem)
  {
    mem' := Segments(image, mem, Segs(image)).mem;
    LoadsExactly(image, mem);
    AcceptedIs(image);
    AllGood(image);
  }

  lemma KeptByte(image: seq<byte>, mem: seq<byte>, mem': seq<byte>, out: seq<byte>, k: nat)
    requires Phases(image, mem, mem', out) && k < |mem|
    requires forall j: nat :: j < U32(image, 36) ==> !OnSite(image, j, k)
    ensures out[k] == mem'[k]
  {
    if U32(image, 36) > 0 {
      NoneTouches(image, k);
      UntouchedByte(mem', ReadImage(image).base, Relas(image), k);
    }
  }

  /** Away from relocations a byte is that of the last segment over it. */
  lemma LoadedByte(image: seq<byte>, mem: seq<byte>, i: nat, k: nat)
    requires |image| < TWO64 && Sane(image, |mem|) && Loadable(image) && k < |mem|
    requires forall j: nat :: j < U32(image, 36) ==> !OnSite(image, j, k)
    requires InSegment(image, i, k) && forall j: nat :: i < j < U32(image, 32) ==> !InSegment(image, j, k)
    ensures Load(image, mem).mem[k] == SegmentByte(image, i, k)
  {
    var mem' := LoadPhases(image, mem);
    PhasedByte(image, mem, mem', Load(image, mem).mem, i, k);
  }

  lemma PhasedByte(image: seq<byte>, mem: seq<byte>, mem': seq<byte>, out: seq<byte>, i: nat, k: nat)
    requires Phases(image, mem, mem', out) && k < |mem|
    requires forall j: nat :: j < U32(image, 36) ==> !OnSite(image, j, k)
    requires InSegment(image, i, k) && forall j: nat :: i < j < U32(image, 32) ==> !InSegment(image, j, k)
    ensures out[k] == SegmentByte(image, i, k)
  {
    KeptByte(image, mem, mem', out, k);
    NoneLater(image, i + 1, k);
    InSegmentIs(image, i, k);
    CoveredByte(image, mem, Segs(image), i, k);
  }

  /** A byte under no segment and no relocation is as it was. */
  lemma ByteOutside(image: seq<byte>, mem: seq<byte>, k: nat)
    requires |image| < TWO64 && Sane(image, |mem|) && Loadable(image) && k < |mem|
    requires forall j: nat :: j < U32(image, 36) ==> !OnSite(image, j, k)
    requires forall j: nat :: j < U32(image, 32) ==> !InSegment(image, j, k)
    ensures Load(image, mem).mem[k] == mem[k]
  {
    var mem' := LoadPhases(image, mem);
    KeptByte(image, mem, mem', Load(image, mem).mem, k);
    NoneLater(image, 0, k);
    UncoveredByte(image, mem, Segs(image), k);
  }

  /** Relocation `i` is not overwritten by a later one. */
  ghost predicate LastThere(image: seq<byte>, i: nat) {
    && |image| >= 64 && i < U32(image, 36) && RelaAt(image, U32(image, 36)) <= |image|
    && forall j: nat :: i < j < U32(image, 36) ==>
         SiteAt(image, i) + 8 <= SiteAt(image, j) || SiteAt(image, j) + 8 <= SiteAt(image, i)
  }

  /** A relocation leaves base plus addend at base plus offset, if no later one writes there. */
  lemma LoadedSite(image: seq<byte>, mem: seq<byte>, i: nat)
    requires |image| < TWO64 && Sane(image, |mem|) && Loadable(image) && LastThere(image, i)
    ensures SiteAt(image, i) + 8 <= |mem|
    ensures U64(Load(image, mem).mem, SiteAt(image, i))
         == (U64(image, 24) + U64(image, RelaAt(image, i) + 8)) % 0x1_0000_0000_0000_0000
  {
    var mem' := LoadPhases(image, mem);
    PhasedSite(image, mem', Load(image, mem).mem, i);
  }

  lemma SiteIs(image: seq<byte>, i: nat)
    requires |image| >= 64 && RelaAt(image, U32(image, 36)) <= |image| && i < U32(image, 36)
    ensures |Relas(image)| == U32(image, 36) && RelaAt(image, i) + 24 <= |image|
    ensures Site(ReadImage(image).base, Relas(image)[i]) == SiteAt(image, i)
    ensures Sum64(ReadImage(image).base, Relas(image)[i].addend)
         == (U64(image, 24) + U64(image, RelaAt(image, i) + 8)) % 0x1_0000_0000_0000_0000
  {
    RelaIs(image, i);
  }

  lemma OthersDisjoint(image: seq<byte>, i: nat)
    requires LastThere(image, i)
    ensures |Relas(image)| == U32(image, 36)
    ensures forall j :: i < j < |Relas(image)| ==>
      Disjoint(ReadImage(image).base, Relas(image)[i], Relas(image)[j])
  {
    SiteIs(image, i);
    forall j | i < j < |Relas(image)|
      ensures Disjoint(ReadImage(image).base, Relas(image)[i], Relas(image)[j])
    {
      SiteIs(image, j);
    }
  }

  lemma PhasedSite(image: seq<byte>, mem': seq<byte>, out: seq<byte>, i: nat)
    requires LastThere(image, i) && Linked(image, mem', out)
    ensures |out| == |mem'| && SiteAt(image, i) + 8 <= |mem'|
    ensures U64(out, SiteAt(image, i))
         == (U64(image, 24) + U64(image, RelaAt(image, i) + 8)) % 0x1_0000_0000_0000_0000
  {
    SiteIs(image, i);
    OthersDisjoint(image, i);
    SiteValue(mem', ReadImage(image).base, Relas(image), i);
  }
}
