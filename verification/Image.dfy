/**
 Program images: the image wrapper of the build scripts and the kernel's two loaders, which place the
 segments of an image into memory.
 */
module Image {
  import opened Bytes
  import opened Seqs
  import opened Package

  const CHUNK := 2048
  const MAX_SEGMENTS := 16
  const RELA := 24
  const RELATIVE64 := 1

  datatype ImageHeader = ImageHeader(magic: nat, major: nat, minor: nat, size: nat, rva: nat, base: nat,
                                     segments: nat, relas: nat, segmentsAt: nat, relasAt: nat)

  datatype Segment = Segment(off: nat, addr: nat, size: nat, room: nat)

  function ReadImage(image: seq<byte>): ImageHeader
    requires |image| >= CNIM_HEADER
  {
    ImageHeader(U32(image, 0), U16(image, 4), U16(image, 6), U32(image, 8), U64(image, 16), U64(image, 24),
                U32(image, 32), U32(image, 36), U64(image, 40), U64(image, 48))
  }

  datatype Rela = Rela(offset: nat, addend: nat, typ: nat)

  function ReadSegment(image: seq<byte>, at: nat): Segment
    requires at + SEGMENT <= |image|
  {
    Segment(U64(image, at), U64(image, at + 8), U64(image, at + 16), U64(image, at + 24))
  }

  function ReadRela(image: seq<byte>, at: nat): Rela
    requires at + RELA <= |image|
  {
    Rela(U64(image, at), U64(image, at + 8), U32(image, at + 16))
  }

  /** The segment table of an image. */
  function SegmentTable(image: seq<byte>, at: nat, n: nat): (t: seq<Segment>)
    requires at + n * SEGMENT <= |image|
    ensures |t| == n && forall i: nat :: i < n ==> t[i] == ReadSegment(image, at + i * SEGMENT)
  {
    seq(n, i requires 0 <= i < n => ReadSegment(image, at + i * SEGMENT))
  }

  function RelaTable(image: seq<byte>, at: nat, n: nat): (t: seq<Rela>)
    requires at + n * RELA <= |image|
    ensures |t| == n && forall i: nat :: i < n ==> t[i] == ReadRela(image, at + i * RELA)
  {
    seq(n, i requires 0 <= i < n => ReadRela(image, at + i * RELA))
  }

  /** A sum of 64-bit numbers, as the machine computes it. */
  function Sum64(a: nat, b: nat): nat {
    (a + b) % TWO64
  }

  lemma SumFits(a: nat, b: nat)
    requires a + b < TWO64
    ensures Sum64(a, b) == a + b
  {
  }

  /**
   A check of a machine sum against a size passes something that does not fit exactly if the sum wraps around to a
   small one.
   */
  lemma WrongPass(off: nat, size: nat, total: nat)
    requires off < TWO64 && size < TWO64 && total < TWO64
    ensures Sum64(off, size) <= total && off + size > total <==> TWO64 <= off + size <= TWO64 + total
  {
  }

  /** The header checks of both loaders. */
  predicate Accepted(h: ImageHeader, size: nat) {
    h.magic == MAGIC_CNIM && h.major == 1 && h.minor == 0 && h.size == CNIM_HEADER
    && Sum64(h.segmentsAt, h.segments * SEGMENT) <= size
  }

  predicate BadSegment(s: Segment, size: nat) {
    Sum64(s.off, s.size) > size || s.size > s.room
  }

  /** Memory with `t` written at `addr`. */
  function Place(mem: seq<byte>, addr: nat, t: seq<byte>): (r: seq<byte>)
    ensures |r| == |mem|
  {
    if addr + |t| <= |mem| then Patch(mem, addr, t) else mem
  }

  /** The bytes of a segment: those of the file, then zeros. */
  function Contents(image: seq<byte>, s: Segment): seq<byte> {
    if s.off + s.size <= |image| && s.size <= s.room then image[s.off..s.off + s.size] + Zeros(s.room - s.size) else []
  }

  datatype Loaded = Loaded(ok: bool, mem: seq<byte>, entry: nat)

  /** Memory after the segments, up to the first bad one. */
  function Segments(image: seq<byte>, mem: seq<byte>, segs: seq<Segment>): (r: Loaded)
    ensures |r.mem| == |mem| && r.entry == 0
    decreases |segs|
  {
    if segs == [] then Loaded(true, mem, 0)
    else if BadSegment(segs[0], |image|) then Loaded(false, mem, 0)
    else Segments(image, Place(mem, segs[0].addr, Contents(image, segs[0])), segs[1..])
  }

  /** Memory after the relocations, up to the first of another type. */
  function Relocated(mem: seq<byte>, base: nat, relas: seq<Rela>): (r: Loaded)
    ensures |r.mem| == |mem| && r.entry == 0
    decreases |relas|
  {
    if relas == [] then Loaded(true, mem, 0)
    else if relas[0].typ != RELATIVE64 then Loaded(false, mem, 0)
    else Relocated(Place(mem, Sum64(base, relas[0].offset), Le64(Sum64(base, relas[0].addend))), base, relas[1..])
  }

  function Entered(r: Loaded, h: ImageHeader): Loaded {
    if r.ok then Loaded(true, r.mem, Sum64(h.base, h.rva)) else r
  }

  /** Nothing that the header, the segments and the relocations name wraps around, and all of it is memory. */
  ghost predicate SegmentsSane(segs: seq<Segment>, size: nat) {
    forall i :: 0 <= i < |segs| ==> segs[i].off + segs[i].size < TWO64 && segs[i].addr + segs[i].room <= size
  }

  ghost predicate RelasSane(relas: seq<Rela>, base: nat, size: nat) {
    forall i :: 0 <= i < |relas| ==> Sum64(base, relas[i].offset) + 8 <= size
  }

  ghost predicate TablesFit(h: ImageHeader) {
    h.segmentsAt + h.segments * SEGMENT < TWO64 && h.relasAt + h.relas * RELA < TWO64
  }

  function SegmentsOf(image: seq<byte>, h: ImageHeader): seq<Segment> {
    if h.segmentsAt + h.segments * SEGMENT <= |image| then SegmentTable(image, h.segmentsAt, h.segments) else []
  }

  function RelasOf(image: seq<byte>, h: ImageHeader): seq<Rela> {
    if h.relasAt + h.relas * RELA <= |image| then RelaTable(image, h.relasAt, h.relas) else []
  }

  ghost predicate Sane(image: seq<byte>, size: nat) {
    |image| >= CNIM_HEADER ==>
      var h := ReadImage(image);
      TablesFit(h) && SegmentsSane(SegmentsOf(image, h), size) && RelasSane(RelasOf(image, h), h.base, size)
  }

  /** What loading an image with this header and these tables does to memory. */
  function LoadTables(image: seq<byte>, h: ImageHeader, segs: seq<Segment>, relas: seq<Rela>,
      mem: seq<byte>): (r: Loaded)
    ensures |r.mem| == |mem|
  {
    if !Accepted(h, |image|) then Loaded(false, mem, 0)
    else
      var s := Segments(image, mem, segs);
      if !s.ok || h.relas == 0 then Entered(s, h)
      else if Sum64(h.relasAt, h.relas * RELA) > |image| then Loaded(false, s.mem, 0)
      else Entered(Relocated(s.mem, h.base, relas), h)
  }

  function Load(image: seq<byte>, mem: seq<byte>): (r: Loaded)
    ensures |r.mem| == |mem|
  {
    if |image| < CNIM_HEADER then Loaded(false, mem, 0)
    else
      var h := ReadImage(image);
      LoadTables(image, h, SegmentsOf(image, h), RelasOf(image, h), mem)
  }

  lemma PatchMore(mem: seq<byte>, addr: nat, s: seq<byte>, t: seq<byte>)
    requires addr + |s| + |t| <= |mem|
    ensures Patch(Patch(mem, addr, s), addr + |s|, t) == Patch(mem, addr, s + t)
  {
  }

  /** `mem_copy` */
  method Copy(mem: array<byte>, dest: nat, src: seq<byte>)
    requires dest + |src| <= mem.Length
    modifies mem
    ensures mem[..] == Patch(old(mem[..]), dest, src)
  {
    for k := 0 to |src|
      invariant mem[..] == Patch(old(mem[..]), dest, src[..k])
    {
      mem[dest + k] := src[k];
    }
    assert src[..|src|] == src;
  }

  method Clear(mem: array<byte>, addr: nat, from: nat, to: nat)
    requires from <= to && addr + to <= mem.Length
    modifies mem
    ensures mem[..] == Patch(old(mem[..]), addr + from, Zeros(to - from))
  {
    for j := from to to
      invariant mem[..] == Patch(old(mem[..]), addr + from, Zeros(j - from))
    {
      mem[addr + j] := 0;
    }
  }

  lemma ContentsPlaced(was: seq<byte>, now: seq<byte>, next: seq<byte>, image: seq<byte>, s: Segment)
    requires s.off + s.size <= |image| && s.size <= s.room && s.addr + s.room <= |was|
    requires now == Patch(was, s.addr, image[s.off..s.off + s.size])
    requires next == Patch(now, s.addr + s.size, Zeros(s.room - s.size))
    ensures next == Place(was, s.addr, Contents(image, s))
  {
    PatchMore(was, s.addr, image[s.off..s.off + s.size], Zeros(s.room - s.size));
  }

  method PlaceSegment(image: seq<byte>, mem: array<byte>, s: Segment)
    requires s.off + s.size <= |image| && s.size <= s.room && s.addr + s.room <= mem.Length
    modifies mem
    ensures mem[..] == Place(old(mem[..]), s.addr, Contents(image, s))
  {
    Copy(mem, s.addr, image[s.off..s.off + s.size]);
    ghost var now := mem[..];
    Clear(mem, s.addr, s.size, s.room);
    ContentsPlaced(old(mem[..]), now, mem[..], image, s);
  }

  method FetchSegment(image: seq<byte>, at: nat, n: nat, i: nat, ghost segs: seq<Segment>) returns (s: Segment)
    requires at + n * SEGMENT <= |image| && segs == SegmentTable(image, at, n) && i < n
    ensures s == segs[i]
  {
    s := ReadSegment(image, at + i * SEGMENT);
  }

  method FetchRela(image: seq<byte>, at: nat, n: nat, i: nat, ghost relas: seq<Rela>) returns (r: Rela)
    requires at + n * RELA <= |image| && relas == RelaTable(image, at, n) && i < n
    ensures r == relas[i]
  {
    r := ReadRela(image, at + i * RELA);
  }

  lemma SegmentsStep(image: seq<byte>, mem: seq<byte>, segs: seq<Segment>, i: nat)
    requires i < |segs|
    ensures Segments(image, mem, segs[i..]) ==
            if BadSegment(segs[i], |image|) then Loaded(false, mem, 0)
            else Segments(image, Place(mem, segs[i].addr, Contents(image, segs[i])), segs[i + 1..])
  {
    assert segs[i..][1..] == segs[i + 1..];
  }

  lemma RelocatedStep(mem: seq<byte>, base: nat, relas: seq<Rela>, i: nat)
    requires i < |relas|
    ensures Relocated(mem, base, relas[i..]) ==
            if relas[i].typ != RELATIVE64 then Loaded(false, mem, 0)
            else Relocated(Place(mem, Sum64(base, relas[i].offset), Le64(Sum64(base, relas[i].addend))), base,
              relas[i + 1..])
  {
    assert relas[i..][1..] == relas[i + 1..];
  }

  method LoadSegments(image: seq<byte>, mem: array<byte>, at: nat, n: nat, ghost segs: seq<Segment>) returns (ok: bool)
    requires |image| < TWO64 && at + n * SEGMENT <= |image|
    requires |segs| == n && segs == SegmentTable(image, at, n) && SegmentsSane(segs, mem.Length)
    modifies mem
    ensures var r := Segments(image, old(mem[..]), segs); ok == r.ok && mem[..] == r.mem
  {
    assert segs[0..] == segs;
    for i := 0 to n
      invariant Segments(image, old(mem[..]), segs) == Segments(image, mem[..], segs[i..])
    {
      var s := FetchSegment(image, at, n, i, segs);
      SegmentsStep(image, mem[..], segs, i);
      SumFits(s.off, s.size);
      if BadSegment(s, |image|) {
        return false;
      }
      PlaceSegment(image, mem, s);
    }
    return true;
  }

  /** `cnim_apply_rela` */
  method ApplyRelas(image: seq<byte>, mem: array<byte>, base: nat, at: nat, n: nat, ghost relas: seq<Rela>)
    returns (ok: bool)
    requires at + n * RELA <= |image|
    requires |relas| == n && relas == RelaTable(image, at, n) && RelasSane(relas, base, mem.Length)
    modifies mem
    ensures var r := Relocated(old(mem[..]), base, relas); ok == r.ok && mem[..] == r.mem
  {
    assert relas[0..] == relas;
    for i := 0 to n
      invariant Relocated(old(mem[..]), base, relas) == Relocated(mem[..], base, relas[i..])
    {
      var r := FetchRela(image, at, n, i, relas);
      RelocatedStep(mem[..], base, relas, i);
      if r.typ != RELATIVE64 {
        return false;
      }
      Copy(mem, Sum64(base, r.offset), Le64(Sum64(base, r.addend)));
    }
    return true;
  }

  /** `cnim_load_flat` */
  method LoadFlat(image: seq<byte>, mem: array<byte>) returns (ok: bool, entry: nat)
    requires |image| < TWO64 && Sane(image, mem.Length)
    modifies mem
    ensures Loaded(ok, mem[..], entry) == Load(image, old(mem[..]))
  {
    if |image| < CNIM_HEADER {
      return false, 0;
    }
    ok, entry := LoadFrom(image, ReadImage(image), mem);
  }

  method LoadFrom(image: seq<byte>, h: ImageHeader, mem: array<byte>) returns (ok: bool, entry: nat)
    requires |image| < TWO64 && TablesFit(h)
    requires SegmentsSane(SegmentsOf(image, h), mem.Length) && RelasSane(RelasOf(image, h), h.base, mem.Length)
    modifies mem
    ensures Loaded(ok, mem[..], entry) == LoadTables(image, h, SegmentsOf(image, h), RelasOf(image, h), old(mem[..]))
  {
    if !Accepted(h, |image|) {
      return false, 0;
    }
    SumFits(h.segmentsAt, h.segments * SEGMENT);
    ok := LoadSegments(image, mem, h.segmentsAt, h.segments, SegmentsOf(image, h));
    if !ok {
      return false, 0;
    }
    if h.relas != 0 {
      if Sum64(h.relasAt, h.relas * RELA) > |image| {
        return false, 0;
      }
      SumFits(h.relasAt, h.relas * RELA);
      ok := ApplyRelas(image, mem, h.base, h.relasAt, h.relas, RelasOf(image, h));
      if !ok {
        return false, 0;
      }
    }
    return true, Sum64(h.base, h.rva);
  }

  // The streaming loader reads the image through a function that may fail.

  type Reader = (nat, nat) -> Option<seq<byte>>

  ghost predicate Reads(read: Reader, image: seq<byte>) {
    forall off: nat, n: nat :: off + n <= |image| && read(off, n).Some? ==> read(off, n).value == image[off..off + n]
  }

  ghost predicate NeverFails(read: Reader, image: seq<byte>) {
    forall off: nat, n: nat :: off + n <= |image| ==> read(off, n).Some?
  }

  /** `now` is `was` with `n` bytes of the image written at `dest`. */
  ghost predicate WrittenTo(was: seq<byte>, now: seq<byte>, dest: nat, image: seq<byte>, off: nat, n: nat) {
    off + n <= |image| && dest + n <= |was| && now == Patch(was, dest, image[off..off + n])
  }

  /** The same, folded: the bound variable keeps the definition from being expanded at every mention. */
  ghost predicate Written(was: seq<byte>, now: seq<byte>, dest: nat, image: seq<byte>, off: nat, n: nat) {
    forall k: nat :: k == n ==> WrittenTo(was, now, dest, image, off, k)
  }

  /** One chunk of a segment. */
  method StreamChunk(read: Reader, ghost image: seq<byte>, off: nat, mem: array<byte>, dest: nat, remain: nat)
    returns (ok: bool, chunk: nat)
    requires Reads(read, image) && off + remain <= |image| && dest + remain <= mem.Length && remain > 0
    modifies mem
    ensures 0 < chunk <= remain
    ensures ok ==> Written(old(mem[..]), mem[..], dest, image, off, chunk)
    ensures NeverFails(read, image) ==> ok
  {
    chunk := if remain > CHUNK then CHUNK else remain;
    var bytes := read(off, chunk);
    if bytes.None? {
      return false, chunk;
    }
    Copy(mem, dest, bytes.value);
    return true, chunk;
  }

  lemma MoreStreamed(was: seq<byte>, now: seq<byte>, next: seq<byte>, dest: nat, image: seq<byte>, off: nat,
      done: nat, chunk: nat)
    requires Written(was, now, dest, image, off, done) && Written(now, next, dest + done, image, off + done, chunk)
    ensures Written(was, next, dest, image, off, done + chunk)
  {
    assert WrittenTo(was, now, dest, image, off, done) && WrittenTo(now, next, dest + done, image, off + done, chunk);
    assert WrittenTo(was, next, dest, image, off, done + chunk);
  }

  method StreamBytes(read: Reader, ghost image: seq<byte>, off: nat, mem: array<byte>, dest: nat, size: nat)
    returns (ok: bool)
    requires Reads(read, image) && off + size <= |image| && dest + size <= mem.Length
    modifies mem
    ensures ok ==> Written(old(mem[..]), mem[..], dest, image, off, size)
    ensures NeverFails(read, image) ==> ok
  {
    var done := 0;
    assert WrittenTo(mem[..], mem[..], dest, image, off, 0);
    while done < size
      invariant done <= size
      invariant Written(old(mem[..]), mem[..], dest, image, off, done)
    {
      ghost var now := mem[..];
      var chunk;
      ok, chunk := StreamChunk(read, image, off + done, mem, dest + done, size - done);
      if !ok {
        return false;
      }
      MoreStreamed(old(mem[..]), now, mem[..], dest, image, off, done, chunk);
      done := done + chunk;
    }
    return true;
  }

  method StreamSegment(read: Reader, ghost image: seq<byte>, mem: array<byte>, s: Segment) returns (ok: bool)
    requires Reads(read, image) && s.off + s.size <= |image| && s.size <= s.room && s.addr + s.room <= mem.Length
    modifies mem
    ensures ok ==> mem[..] == Place(old(mem[..]), s.addr, Contents(image, s))
    ensures NeverFails(read, image) ==> ok
  {
    ok := StreamBytes(read, image, s.off, mem, s.addr, s.size);
    if !ok {
      return false;
    }
    ghost var now := mem[..];
    assert WrittenTo(old(mem[..]), now, s.addr, image, s.off, s.size);
    Clear(mem, s.addr, s.size, s.room);
    ContentsPlaced(old(mem[..]), now, mem[..], image, s);
  }

  lemma SegmentOfSlice(image: seq<byte>, at: nat, n: nat, i: nat)
    requires at + n * SEGMENT <= |image| && i < n
    ensures ReadSegment(image[at..at + n * SEGMENT], i * SEGMENT) == ReadSegment(image, at + i * SEGMENT)
  {
  }

  method BufferedSegment(table: seq<byte>, i: nat, n: nat, ghost image: seq<byte>, ghost at: nat,
      ghost segs: seq<Segment>)
    returns (s: Segment)
    requires at + n * SEGMENT <= |image| && segs == SegmentTable(image, at, n) && i < n
    requires table == image[at..at + n * SEGMENT]
    ensures s == segs[i]
  {
    SegmentOfSlice(image, at, n, i);
    s := ReadSegment(table, i * SEGMENT);
  }

  method StreamSegments(read: Reader, ghost image: seq<byte>, size: nat, mem: array<byte>, at: nat, n: nat,
                        ghost segs: seq<Segment>) returns (ok: bool)
    requires Reads(read, image) && size == |image| < TWO64 && at + n * SEGMENT <= |image|
    requires |segs| == n && segs == SegmentTable(image, at, n) && SegmentsSane(segs, mem.Length)
    modifies mem
    ensures ok ==> Segments(image, old(mem[..]), segs) == Loaded(true, mem[..], 0)
    ensures NeverFails(read, image) ==> ok == Segments(image, old(mem[..]), segs).ok
  {
    var table := read(at, n * SEGMENT);
    if table.None? {
      return false;
    }
    assert segs[0..] == segs;
    for i := 0 to n
      invariant Segments(image, old(mem[..]), segs) == Segments(image, mem[..], segs[i..])
    {
      var s := BufferedSegment(table.value, i, n, image, at, segs);
      SegmentsStep(image, mem[..], segs, i);
      SumFits(s.off, s.size);
      if BadSegment(s, size) {
        return false;
      }
      ok := StreamSegment(read, image, mem, s);
      if !ok {
        return false;
      }
    }
    return true;
  }

  lemma HeaderOfSlice(image: seq<byte>)
    requires |image| >= CNIM_HEADER
    ensures ReadImage(image[0..CNIM_HEADER]) == ReadImage(image)
  {
  }

  /** The images that the streaming loader takes: at most 16 segments and no relocation. */
  predicate Streamable(h: ImageHeader) {
    h.segments <= MAX_SEGMENTS && h.relas == 0
  }

  /** `cnim_load_streaming`: it agrees with the flat loader on what it accepts. */
  method LoadStreaming(read: Reader, ghost image: seq<byte>, size: nat, mem: array<byte>) returns (ok: bool, entry: nat)
    requires Reads(read, image) && size == |image| < TWO64 && Sane(image, mem.Length)
    modifies mem
    ensures ok ==> Loaded(ok, mem[..], entry) == Load(image, old(mem[..]))
    ensures ok ==> |image| >= CNIM_HEADER && Streamable(ReadImage(image))
    ensures NeverFails(read, image) && |image| >= CNIM_HEADER && Streamable(ReadImage(image)) ==>
              ok == Load(image, old(mem[..])).ok
  {
    if size < CNIM_HEADER {
      return false, 0;
    }
    var hdr := read(0, CNIM_HEADER);
    if hdr.None? {
      return false, 0;
    }
    HeaderOfSlice(image);
    ok, entry := StreamFrom(read, image, size, ReadImage(hdr.value), mem);
  }

  method StreamFrom(read: Reader, ghost image: seq<byte>, size: nat, h: ImageHeader, mem: array<byte>)
    returns (ok: bool, entry: nat)
    requires Reads(read, image) && size == |image| < TWO64
    requires TablesFit(h) && SegmentsSane(SegmentsOf(image, h), mem.Length)
    modifies mem
    ensures ok ==>
      Streamable(h) && LoadTables(image, h, SegmentsOf(image, h), RelasOf(image, h), old(mem[..])) ==
        Loaded(true, mem[..], entry)
    ensures NeverFails(read, image) && Streamable(h) ==>
              ok == LoadTables(image, h, SegmentsOf(image, h), RelasOf(image, h), old(mem[..])).ok
  {
    if !Accepted(h, size) {
      return false, 0;
    }
    SumFits(h.segmentsAt, h.segments * SEGMENT);
    if h.segments > MAX_SEGMENTS {
      return false, 0;
    }
    ok := StreamSegments(read, image, size, mem, h.segmentsAt, h.segments, SegmentsOf(image, h));
    if !ok {
      return false, 0;
    }
    if h.relas != 0 {
      return false, 0;
    }
    return true, Sum64(h.base, h.rva);
  }

  // The image wrapper.

  function WrapFront(): (s: seq<byte>)
    ensures |s| == 16
  {
    Le32(MAGIC_CNIM) + Le16(1) + Le16(0) + Le32(CNIM_HEADER) + Le32(0)
  }

  function WrapTables(): (s: seq<byte>)
    ensures |s| == 32
  {
    Le32(1) + Le32(0) + Le64(CNIM_HEADER) + Le64(0) + Le64(0)
  }

  function WrapBack(base: nat, rva: nat): (s: seq<byte>)
    ensures |s| == CNIM_HEADER - 16
  {
    Le64(rva) + Le64(base) + WrapTables()
  }

  function WrapSegment(off: nat, base: nat, size: nat): (s: seq<byte>)
    ensures |s| == SEGMENT
  {
    Le64(off) + Le64(base) + Le64(size) + Le64(size) + Le32(5) + Le32(16)
  }

  /** `wrap_cnim` */
  function Wrap(raw: seq<byte>, base: nat, rva: nat): seq<byte> {
    ImageWith(CNIM_HEADER + SEGMENT, |raw|, raw, base, rva)
  }

  /** An image of one segment that says where its bytes are and how many. */
  function ImageWith(off: nat, size: nat, raw: seq<byte>, base: nat, rva: nat): seq<byte> {
    WrapFront() + WrapBack(base, rva) + WrapSegment(off, base, size) + raw
  }

  lemma FrontFields()
    ensures var f := WrapFront();
            U32(f, 0) == MAGIC_CNIM && U16(f, 4) == 1 && U16(f, 6) == 0 && U32(f, 8) == CNIM_HEADER
  {
    var f0, f1, f2, f3, f4 := Le32(MAGIC_CNIM), Le16(1), Le16(0), Le32(CNIM_HEADER), Le32(0);
    var f := WrapFront();
    assert f == [] + f0 + (f1 + f2 + f3 + f4) && f == f0 + f1 + (f2 + f3 + f4) && f == f0 + f1 + f2 + (f3 + f4);
    ReadLe32([], MAGIC_CNIM, f1 + f2 + f3 + f4);
    ReadLe16(f0, 1, f2 + f3 + f4);
    ReadLe16(f0 + f1, 0, f3 + f4);
    ReadLe32(f0 + f1 + f2, CNIM_HEADER, f4);
  }

  lemma TablesFields()
    ensures var t := WrapTables(); U32(t, 0) == 1 && U32(t, 4) == 0 && U64(t, 8) == CNIM_HEADER && U64(t, 16) == 0
  {
    var f0, f1, f2, f3, f4 := Le32(1), Le32(0), Le64(CNIM_HEADER), Le64(0), Le64(0);
    var t := WrapTables();
    assert t == [] + f0 + (f1 + f2 + f3 + f4) && t == f0 + f1 + (f2 + f3 + f4);
    assert t == f0 + f1 + f2 + (f3 + f4);
    ReadLe32([], 1, f1 + f2 + f3 + f4);
    ReadLe32(f0, 0, f2 + f3 + f4);
    ReadLe64(f0 + f1, CNIM_HEADER, f3 + f4);
    ReadLe64(f0 + f1 + f2, 0, f4);
  }

  lemma BackFields(base: nat, rva: nat)
    requires base < TWO64 && rva < TWO64
    ensures var b := WrapBack(base, rva);
            && U64(b, 0) == rva && U64(b, 8) == base && U32(b, 16) == 1 && U32(b, 20) == 0
            && U64(b, 24) == CNIM_HEADER && U64(b, 32) == 0
  {
    var f0, f1, t := Le64(rva), Le64(base), WrapTables();
    assert WrapBack(base, rva) == [] + f0 + (f1 + t);
    ReadLe64([], rva, f1 + t);
    ReadLe64(f0, base, t);
    TablesFields();
    Back32(f0 + f1, t, 0);
    Back32(f0 + f1, t, 4);
    Back64(f0 + f1, t, 8);
    Back64(f0 + f1, t, 16);
  }

  lemma SegmentFields(off: nat, base: nat, size: nat)
    requires off < TWO64 && base < TWO64 && size < TWO64
    ensures ReadSegment(WrapSegment(off, base, size), 0) == Segment(off, base, size, size)
  {
    var f0, f1, f2, f3, f4, f5 := Le64(off), Le64(base), Le64(size), Le64(size), Le32(5), Le32(16);
    var s := WrapSegment(off, base, size);
    assert s == [] + f0 + (f1 + f2 + f3 + f4 + f5);
    assert s == f0 + f1 + (f2 + f3 + f4 + f5);
    assert s == f0 + f1 + f2 + (f3 + f4 + f5);
    assert s == f0 + f1 + f2 + f3 + (f4 + f5);
    ReadLe64([], off, f1 + f2 + f3 + f4 + f5);
    ReadLe64(f0, base, f2 + f3 + f4 + f5);
    ReadLe64(f0 + f1, size, f3 + f4 + f5);
    ReadLe64(f0 + f1 + f2, size, f4 + f5);
  }

  /** Where the fields of an image lie when it is built of parts. */
  lemma FrontPart(f: seq<byte>, t: seq<byte>)
    requires |f| == 16
    ensures U32(f + t, 0) == U32(f, 0) && U16(f + t, 4) == U16(f, 4)
    ensures U16(f + t, 6) == U16(f, 6) && U32(f + t, 8) == U32(f, 8)
  {
    Front32(f, t, 0);
    Front16(f, t, 4);
    Front16(f, t, 6);
    Front32(f, t, 8);
  }

  lemma MiddlePart64(f: seq<byte>, b: seq<byte>, t: seq<byte>, k: nat)
    requires k + 8 <= |b|
    ensures U64(f + b + t, |f| + k) == U64(b, k)
  {
    Front64(f + b, t, |f| + k);
    Back64(f, b, k);
  }

  lemma MiddlePart32(f: seq<byte>, b: seq<byte>, t: seq<byte>, k: nat)
    requires k + 4 <= |b|
    ensures U32(f + b + t, |f| + k) == U32(b, k)
  {
    Front32(f + b, t, |f| + k);
    Back32(f, b, k);
  }

  lemma BackPart(f: seq<byte>, b: seq<byte>, t: seq<byte>)
    requires |f| == 16 && |b| == CNIM_HEADER - 16
    ensures var i := f + b + t;
            && U64(i, 16) == U64(b, 0) && U64(i, 24) == U64(b, 8) && U32(i, 32) == U32(b, 16)
                 && U32(i, 36) == U32(b, 20)
            && U64(i, 40) == U64(b, 24) && U64(i, 48) == U64(b, 32)
  {
    MiddlePart64(f, b, t, 0);
    MiddlePart64(f, b, t, 8);
    MiddlePart32(f, b, t, 16);
    MiddlePart32(f, b, t, 20);
    MiddlePart64(f, b, t, 24);
    MiddlePart64(f, b, t, 32);
  }

  lemma SegmentPart(h: seq<byte>, s: seq<byte>, t: seq<byte>)
    requires |h| == CNIM_HEADER && |s| == SEGMENT
    ensures ReadSegment(h + s + t, CNIM_HEADER) == ReadSegment(s, 0)
  {
    MiddlePart64(h, s, t, 0);
    MiddlePart64(h, s, t, 8);
    MiddlePart64(h, s, t, 16);
    MiddlePart64(h, s, t, 24);
  }

  function WrappedHeader(base: nat, rva: nat): ImageHeader {
    ImageHeader(MAGIC_CNIM, 1, 0, CNIM_HEADER, rva, base, 1, 0, CNIM_HEADER, 0)
  }

  lemma WrapParts(f: seq<byte>, b: seq<byte>, s: seq<byte>, raw: seq<byte>, image: seq<byte>)
    requires image == f + b + s + raw
    ensures image == f + (b + (s + raw)) && image == f + b + (s + raw) && image == (f + b) + s + raw
    ensures |image| == |f| + |b| + |s| + |raw| && image[|f| + |b| + |s|..] == raw
  {
  }

  lemma WrappedFields(off: nat, size: nat, raw: seq<byte>, base: nat, rva: nat, image: seq<byte>)
    requires off < TWO64 && size < TWO64 && base < TWO64 && rva < TWO64 && image == ImageWith(off, size, raw, base, rva)
    ensures |image| == CNIM_HEADER + SEGMENT + |raw| && image[CNIM_HEADER + SEGMENT..] == raw
    ensures ReadImage(image) == WrappedHeader(base, rva)
    ensures ReadSegment(image, CNIM_HEADER) == Segment(off, base, size, size)
  {
    var f, b, s := WrapFront(), WrapBack(base, rva), WrapSegment(off, base, size);
    WrapParts(f, b, s, raw, image);
    FrontFields();
    BackFields(base, rva);
    SegmentFields(off, base, size);
    FrontPart(f, b + (s + raw));
    BackPart(f, b, s + raw);
    SegmentPart(f + b, s, raw);
  }

  lemma OneSegment(off: nat, size: nat, raw: seq<byte>, base: nat, rva: nat, image: seq<byte>)
    requires off < TWO64 && size < TWO64 && base < TWO64 && rva < TWO64 && image == ImageWith(off, size, raw, base, rva)
    ensures |image| >= CNIM_HEADER && ReadImage(image) == WrappedHeader(base, rva)
    ensures SegmentsOf(image, WrappedHeader(base, rva)) == [Segment(off, base, size, size)]
    ensures RelasOf(image, WrappedHeader(base, rva)) == []
  {
    WrappedFields(off, size, raw, base, rva, image);
  }

  /** An image whose only segment lies outside it, and that passes every check of the header and of the segment. */
  lemma OutsidePasses(raw: seq<byte>, base: nat, rva: nat)
    requires base < TWO64 && rva < TWO64 && CNIM_HEADER + SEGMENT + |raw| < TWO64
    ensures var image := ImageWith(TWO64 - 1, 1, raw, base, rva);
            && CNIM_HEADER <= |image| <= TWO64 - 1 && Accepted(ReadImage(image), |image|)
            && SegmentsOf(image, ReadImage(image)) == [Segment(TWO64 - 1, base, 1, 1)]
            && !BadSegment(Segment(TWO64 - 1, base, 1, 1), |image|)
  {
    var image := ImageWith(TWO64 - 1, 1, raw, base, rva);
    OneSegment(TWO64 - 1, 1, raw, base, rva, image);
    WrappedFields(TWO64 - 1, 1, raw, base, rva, image);
    SumFits(CNIM_HEADER, SEGMENT);
  }

  lemma LoadOne(image: seq<byte>, mem: seq<byte>, base: nat, rva: nat, raw: seq<byte>)
    requires |image| == CNIM_HEADER + SEGMENT + |raw| < TWO64
    requires image[CNIM_HEADER + SEGMENT..] == raw && base + |raw| <= |mem|
    ensures LoadTables(image, WrappedHeader(base, rva), [Segment(CNIM_HEADER + SEGMENT, base, |raw|, |raw|)], [], mem)
            == Loaded(true, Patch(mem, base, raw), Sum64(base, rva))
  {
    var seg := Segment(CNIM_HEADER + SEGMENT, base, |raw|, |raw|);
    SumFits(seg.off, seg.size);
    SumFits(CNIM_HEADER, SEGMENT);
    assert Contents(image, seg) == raw;
    SegmentsStep(image, mem, [seg], 0);
    assert [seg][0..] == [seg] && [seg][1..] == [];
  }

  /** A wrapped payload loads as itself, at its base and nowhere else, and is entered at base plus entry offset. */
  lemma WrapLoad(raw: seq<byte>, base: nat, rva: nat, mem: seq<byte>)
    requires base < TWO64 && rva < TWO64 && |Wrap(raw, base, rva)| < TWO64 && base + |raw| <= |mem|
    ensures Sane(Wrap(raw, base, rva), |mem|) && Streamable(ReadImage(Wrap(raw, base, rva)))
    ensures Load(Wrap(raw, base, rva), mem) == Loaded(true, Patch(mem, base, raw), Sum64(base, rva))
  {
    var image := Wrap(raw, base, rva);
    WrappedFields(CNIM_HEADER + SEGMENT, |raw|, raw, base, rva, image);
    OneSegment(CNIM_HEADER + SEGMENT, |raw|, raw, base, rva, image);
    LoadOne(image, mem, base, rva, raw);
  }

  /** Packing a wrapped program, extracting its image and loading it puts the program where it was built for. */
  lemma PackLoad(kind: Kind, manifest: seq<byte>, raw: seq<byte>, base: nat, rva: nat, mem: seq<byte>)
    requires base < TWO64 && rva < TWO64 && base + |raw| <= |mem|
    requires |Pack(kind, manifest, Wrap(raw, base, rva))| < TWO64
    ensures var data := Pack(kind, manifest, Wrap(raw, base, rva));
            && Extract(data, SECTION_MANIFEST) == Ok(manifest) && Extract(data, SECTION_IMAGE).Ok?
            && Load(Extract(data, SECTION_IMAGE).value, mem) == Loaded(true, Patch(mem, base, raw), Sum64(base, rva))
  {
    PackExtract(kind, manifest, Wrap(raw, base, rva));
    PackParts(FileHeader(kind, ManifestAt(), 2) + Entry(SECTION_MANIFEST, ManifestAt(), |manifest|)
              + Entry(SECTION_IMAGE, ImageAt(manifest), |Wrap(raw, base, rva)|), manifest,
              Zeros(ImageAt(manifest) - (ManifestAt() + |manifest|)), Wrap(raw, base, rva),
                Pack(kind, manifest, Wrap(raw, base, rva)));
    WrapLoad(raw, base, rva, mem);
  }
}
