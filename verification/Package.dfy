/**
 Program packages: the packer of the build scripts, and the kernel's parser (`cnaf_validate.c`,
 `cnaf_image.c`).
 */
module Package {
  import opened Bytes
  import opened Seqs

  const MAGIC_CNPK := 0x4B50_4E43
  const MAGIC_CNLK := 0x4B4C_4E43
  const MAGIC_CNIM := 0x4D49_4E43
  const HEADER := 40
  const ENTRY := 24
  const CNIM_HEADER := 64
  const SEGMENT := 40
  const SECTION_MANIFEST := 1
  const SECTION_IMAGE := 2

  /** A field read back at the place where it was written. */
  lemma ReadLe16(a: seq<byte>, v: nat, b: seq<byte>)
    requires v < 0x1_0000
    ensures U16(a + Le16(v) + b, |a|) == v
  {
    Le16RoundTrip(v);
    var s := a + Le16(v) + b;
    assert s[|a|] == Le16(v)[0] && s[|a| + 1] == Le16(v)[1];
  }

  lemma ReadLe32(a: seq<byte>, v: nat, b: seq<byte>)
    requires v < TWO32
    ensures U32(a + Le32(v) + b, |a|) == v
  {
    Le32RoundTrip(v);
    var s := a + Le32(v) + b;
    assert forall i :: 0 <= i < 4 ==> s[|a| + i] == Le32(v)[i];
  }

  lemma ReadLe64(a: seq<byte>, v: nat, b: seq<byte>)
    requires v < TWO64
    ensures U64(a + Le64(v) + b, |a|) == v
  {
    var lo, hi := v % TWO32, v / TWO32;
    ReadLe32(a, lo, Le32(hi) + b);
    ReadLe32(a + Le32(lo), hi, b);
    assert a + Le64(v) + b == a + Le32(lo) + (Le32(hi) + b);
    assert a + Le64(v) + b == a + Le32(lo) + Le32(hi) + b;
  }

  function Align8(v: nat): nat {
    (v + 7) / 8 * 8
  }

  /** A section entry: type, flags, offset and size. */
  function Entry(typ: nat, off: nat, size: nat): (s: seq<byte>)
    ensures |s| == ENTRY
  {
    Le32(typ) + Le32(0) + Le64(off) + Le64(size)
  }

  /** The two kinds of package, each with a packing script of its own. */
  datatype Kind = Program | Library {
    function Magic(): nat { if Program? then MAGIC_CNPK else MAGIC_CNLK }

    function Code(): nat { if Program? then 1 else 2 }
  }

  function FileHeader(kind: Kind, headerBytes: nat, sections: nat): (s: seq<byte>)
    ensures |s| == HEADER
  {
    Le32(kind.Magic()) + Le16(1) + Le16(0) + Le32(kind.Code()) + Le32(headerBytes) + Le32(0) + Le32(sections)
    + Zeros(16)
  }

  function ManifestAt(): nat { HEADER + 2 * ENTRY }

  function ImageAt(manifest: seq<byte>): nat { Align8(ManifestAt() + |manifest|) }

  /** `pack` of the packing scripts. */
  function Pack(kind: Kind, manifest: seq<byte>, image: seq<byte>): seq<byte> {
    var manOff, imgOff := ManifestAt(), ImageAt(manifest);
    FileHeader(kind, manOff, 2) + Entry(SECTION_MANIFEST, manOff, |manifest|) + Entry(SECTION_IMAGE, imgOff, |image|)
    + manifest + Zeros(imgOff - (manOff + |manifest|)) + image
  }

  datatype Error = BadMagic | BadVersion | Truncated | BadKind | BadSection

  datatype Result<T> = Ok(value: T) | Err(error: Error)

  datatype Header = Header(magic: nat, major: nat, minor: nat, kind: nat, headerBytes: nat, flags: nat, sections: nat)

  function ReadHeader(data: seq<byte>): Header
    requires |data| >= HEADER
  {
    Header(U32(data, 0), U16(data, 4), U16(data, 6), U32(data, 8), U32(data, 12), U32(data, 16), U32(data, 20))
  }

  /** `cnpkg_probe_header` */
  function Probe(data: seq<byte>): Result<Header> {
    if |data| < HEADER then Err(Truncated)
    else
      var h := ReadHeader(data);
      if h.magic != MAGIC_CNPK && h.magic != MAGIC_CNLK then Err(BadMagic)
      else if h.major != 1 then Err(BadVersion)
      else if h.minor > 0 then Err(BadVersion)
      else if h.kind != 1 && h.kind != 2 then Err(BadKind)
      else if h.headerBytes < HEADER then Err(Truncated)
      else if h.headerBytes > |data| then Err(Truncated)
      else if h.headerBytes % 8 != 0 then Err(BadSection)
      else if h.sections > 256 then Err(BadSection)
      else Ok(h)
  }

  datatype Range = Range(off: nat, size: nat)

  /** The answer for the i-th section entry, if it is of the type. */
  function AtEntry(prefix: seq<byte>, total: nat, typ: nat, i: nat): Option<Result<Range>> {
    var e := HEADER + i * ENTRY;
    if e + ENTRY > |prefix| then Some(Err(BadSection))
    else if U32(prefix, e) != typ then None
    else
      var off, size := U64(prefix, e + 8), U64(prefix, e + 16);
      if (off + size) % TWO64 > total || (off + size) % TWO64 < off then Some(Err(BadSection))
      else Some(Ok(Range(off, size)))
  }

  /** The answer of the entries from the i-th on. */
  function FromEntry(prefix: seq<byte>, total: nat, typ: nat, i: nat, n: nat): Result<Range>
    decreases n - i
  {
    if i >= n then Err(BadSection)
    else match AtEntry(prefix, total, typ, i)
      case Some(r) => r
      case None => FromEntry(prefix, total, typ, i + 1, n)
  }

  predicate IsEntry(prefix: seq<byte>, i: nat, typ: nat) {
    HEADER + i * ENTRY + ENTRY <= |prefix| && U32(prefix, HEADER + i * ENTRY) == typ
  }

  /** Entry `i` is the first one of the type, and `r` is the range that it gives. */
  predicate FirstEntry(prefix: seq<byte>, typ: nat, i: nat, r: Range) {
    && IsEntry(prefix, i, typ) && (forall j: nat :: j < i ==> !IsEntry(prefix, j, typ))
    && r == Range(U64(prefix, HEADER + i * ENTRY + 8), U64(prefix, HEADER + i * ENTRY + 16))
  }

  lemma U64Small(s: seq<byte>, off: nat)
    requires off + 8 <= |s|
    ensures U64(s, off) < TWO64
  {
    U32Small(s, off);
    U32Small(s, off + 4);
  }

  lemma U32Small(s: seq<byte>, off: nat)
    requires off + 4 <= |s|
    ensures U32(s, off) < TWO32
  {
  }

  /** The two comparisons of a machine sum: together they do rule out that it wraps around. */
  lemma BothChecks(off: nat, size: nat, total: nat)
    requires off < TWO64 && size < TWO64 && (off + size) % TWO64 <= total && (off + size) % TWO64 >= off
    ensures off + size <= total
  {
  }

  /**
   `cnpkg_locate_section`: for every byte string, a range that it returns lies in the file and is that of the first
   entry of the type.
   */
  method LocateSection(prefix: seq<byte>, total: nat, typ: nat) returns (r: Result<Range>)
    ensures r == Locate(prefix, total, typ)
    ensures r.Ok? ==> r.value.off + r.value.size <= total && exists i: nat :: FirstEntry(prefix, typ, i, r.value)
    ensures total < TWO64 ==>
      (r.Ok? <==> GoodHeader(prefix) && U32(prefix, 12) <= total && exists i: nat :: FoundAt(prefix, total, typ, i))
    ensures forall i: nat ::
      total < TWO64 && GoodHeader(prefix) && U32(prefix, 12) <= total && FoundAt(prefix, total, typ, i) ==>
        r == Ok(Range(U64(prefix, 48 + 24 * i), U64(prefix, 56 + 24 * i)))
  {
    if total < TWO64 {
      LocateExact(prefix, total, typ);
    }
    var p := Probe(prefix);
    if p.Err? {
      return Err(p.error);
    }
    var h := p.value;
    if h.headerBytes > |prefix| || h.headerBytes > total {
      return Err(Truncated);
    }
    for i := 0 to h.sections
      invariant FromEntry(prefix, total, typ, 0, h.sections) == FromEntry(prefix, total, typ, i, h.sections)
      invariant forall j: nat :: j < i ==> !IsEntry(prefix, j, typ)
    {
      var e := HEADER + i * ENTRY;
      if e + ENTRY > |prefix| {
        return Err(BadSection);
      }
      if U32(prefix, e) == typ {
        r := EntryRange(prefix, total, typ, i);
        return;
      }
    }
    return Err(BadSection);
  }

  /** The range of the entry found, checked against the file. */
  method EntryRange(prefix: seq<byte>, total: nat, typ: nat, i: nat) returns (r: Result<Range>)
    requires IsEntry(prefix, i, typ) && forall j: nat :: j < i ==> !IsEntry(prefix, j, typ)
    ensures AtEntry(prefix, total, typ, i) == Some(r)
    ensures r.Ok? ==> r.value.off + r.value.size <= total && FirstEntry(prefix, typ, i, r.value)
  {
    var e := HEADER + i * ENTRY;
    var off, size := U64(prefix, e + 8), U64(prefix, e + 16);
    if (off + size) % TWO64 > total || (off + size) % TWO64 < off {
      return Err(BadSection);
    }
    U64Small(prefix, e + 8);
    U64Small(prefix, e + 16);
    BothChecks(off, size, total);
    return Ok(Range(off, size));
  }

  function Locate(prefix: seq<byte>, total: nat, typ: nat): Result<Range> {
    var p := Probe(prefix);
    if p.Err? then Err(p.error)
    else if p.value.headerBytes > |prefix| || p.value.headerBytes > total then Err(Truncated)
    else FromEntry(prefix, total, typ, 0, p.value.sections)
  }

  /** A header that the kernel takes, byte by byte. */
  predicate GoodHeader(data: seq<byte>) {
    && |data| >= 40 && (U32(data, 0) == 0x4B50_4E43 || U32(data, 0) == 0x4B4C_4E43)
    && U16(data, 4) == 1 && U16(data, 6) == 0 && (U32(data, 8) == 1 || U32(data, 8) == 2)
    && 40 <= U32(data, 12) <= |data| && U32(data, 12) % 8 == 0 && U32(data, 20) <= 256
  }

  /** Entry `i` is in the prefix, the first one of the type, and its range lies in the file. */
  predicate FoundAt(data: seq<byte>, total: nat, typ: nat, i: nat) {
    && 64 + 24 * i <= |data| && i < U32(data, 20) && U32(data, 40 + 24 * i) == typ
    && (forall j: nat :: j < i ==> U32(data, 40 + 24 * j) != typ)
    && U64(data, 48 + 24 * i) + U64(data, 56 + 24 * i) <= total
  }

  lemma {:induction false} FromEntryExact(data: seq<byte>, total: nat, typ: nat, i: nat)
    requires total < TWO64 && |data| >= 40 && i <= U32(data, 20)
    requires forall j: nat :: j < i ==> 64 + 24 * j <= |data| && U32(data, 40 + 24 * j) != typ
    ensures FromEntry(data, total, typ, i, U32(data, 20)).Ok? ==> exists k: nat :: FoundAt(data, total, typ, k)
    ensures forall k: nat :: FoundAt(data, total, typ, k) ==>
      FromEntry(data, total, typ, i, U32(data, 20)) == Ok(Range(U64(data, 48 + 24 * k), U64(data, 56 + 24 * k)))
    decreases U32(data, 20) - i
  {
    if i < U32(data, 20) && 64 + 24 * i <= |data| {
      if U32(data, 40 + 24 * i) == typ {
        EntryExact(data, total, typ, i);
      } else {
        assert AtEntry(data, total, typ, i) == None;
        FromEntryExact(data, total, typ, i + 1);
      }
    }
  }

  /** The first entry of the type decides. */
  lemma EntryExact(data: seq<byte>, total: nat, typ: nat, i: nat)
    requires total < TWO64 && 64 + 24 * i <= |data| && i < U32(data, 20) && U32(data, 40 + 24 * i) == typ
    requires forall j: nat :: j < i ==> U32(data, 40 + 24 * j) != typ
    ensures AtEntry(data, total, typ, i)
         == Some(if FoundAt(data, total, typ, i) then Ok(Range(U64(data, 48 + 24 * i), U64(data, 56 + 24 * i)))
                 else Err(BadSection))
    ensures forall k: nat :: FoundAt(data, total, typ, k) ==> k == i
  {
    var off, size := U64(data, 48 + 24 * i), U64(data, 56 + 24 * i);
    U64Small(data, 48 + 24 * i);
    U64Small(data, 56 + 24 * i);
    if (off + size) % TWO64 <= total && (off + size) % TWO64 >= off {
      BothChecks(off, size, total);
    }
  }

  /** Why a header is refused. */
  lemma Refusals(data: seq<byte>, total: nat, typ: nat)
    ensures |data| < 40 ==> Locate(data, total, typ) == Err(Truncated)
    ensures |data| >= 40 && U32(data, 0) != 0x4B50_4E43 && U32(data, 0) != 0x4B4C_4E43 ==>
      Locate(data, total, typ) == Err(BadMagic)
    ensures |data| >= 40 && (U32(data, 0) == 0x4B50_4E43 || U32(data, 0) == 0x4B4C_4E43) ==>
      && (U16(data, 4) != 1 || U16(data, 6) > 0 ==> Locate(data, total, typ) == Err(BadVersion))
      && (U16(data, 4) == 1 && U16(data, 6) == 0 && U32(data, 8) != 1 && U32(data, 8) != 2 ==>
           Locate(data, total, typ) == Err(BadKind))
  {
  }

  lemma LocateExact(data: seq<byte>, total: nat, typ: nat)
    requires total < TWO64
    ensures Locate(data, total, typ).Ok?
       <==> GoodHeader(data) && U32(data, 12) <= total && exists i: nat :: FoundAt(data, total, typ, i)
    ensures forall i: nat :: GoodHeader(data) && U32(data, 12) <= total && FoundAt(data, total, typ, i) ==>
      Locate(data, total, typ) == Ok(Range(U64(data, 48 + 24 * i), U64(data, 56 + 24 * i)))
  {
    if GoodHeader(data) && U32(data, 12) <= total {
      FromEntryExact(data, total, typ, 0);
    }
  }

  /** `cnpkg_extract_section` */
  function Extract(data: seq<byte>, typ: nat): Result<seq<byte>> {
    var r := Locate(data, |data|, typ);
    if r.Err? then Err(r.error)
    else if r.value.off + r.value.size > |data| then Err(BadSection)
    else Ok(data[r.value.off..r.value.off + r.value.size])
  }

  // Reading back what the packer wrote.

  lemma Front16(a: seq<byte>, b: seq<byte>, off: nat)
    requires off + 2 <= |a|
    ensures U16(a + b, off) == U16(a, off)
  {
  }

  lemma Front32(a: seq<byte>, b: seq<byte>, off: nat)
    requires off + 4 <= |a|
    ensures U32(a + b, off) == U32(a, off)
  {
  }

  lemma Front64(a: seq<byte>, b: seq<byte>, off: nat)
    requires off + 8 <= |a|
    ensures U64(a + b, off) == U64(a, off)
  {
    Front32(a, b, off);
    Front32(a, b, off + 4);
  }

  lemma Back32(a: seq<byte>, b: seq<byte>, off: nat)
    requires off + 4 <= |b|
    ensures U32(a + b, |a| + off) == U32(b, off)
  {
    var s := a + b;
    assert forall i :: 0 <= i < |b| ==> s[|a| + i] == b[i];
  }

  lemma Back64(a: seq<byte>, b: seq<byte>, off: nat)
    requires off + 8 <= |b|
    ensures U64(a + b, |a| + off) == U64(b, off)
  {
    Back32(a, b, off);
    Back32(a, b, off + 4);
  }

  lemma EntryFields(typ: nat, off: nat, size: nat)
    requires typ < TWO32 && off < TWO64 && size < TWO64
    ensures var e := Entry(typ, off, size); U32(e, 0) == typ && U64(e, 8) == off && U64(e, 16) == size
  {
    var e := Entry(typ, off, size);
    ReadLe32([], typ, Le32(0) + Le64(off) + Le64(size));
    assert e == [] + Le32(typ) + (Le32(0) + Le64(off) + Le64(size));
    ReadLe64(Le32(typ) + Le32(0), off, Le64(size));
    ReadLe64(Le32(typ) + Le32(0) + Le64(off), size, []);
    assert e == Le32(typ) + Le32(0) + Le64(off) + Le64(size) + [];
  }

  lemma HeaderFields(kind: Kind, headerBytes: nat, sections: nat)
    requires headerBytes < TWO32 && sections < TWO32
    ensures ReadHeader(FileHeader(kind, headerBytes, sections))
         == Header(kind.Magic(), 1, 0, kind.Code(), headerBytes, 0, sections)
  {
    var front := Le32(kind.Magic()) + Le16(1) + Le16(0) + Le32(kind.Code());
    var back := Le32(headerBytes) + Le32(0) + Le32(sections) + Zeros(16);
    var h := FileHeader(kind, headerBytes, sections);
    assert h == front + back;
    FrontHalf(kind.Magic(), kind.Code(), front, back);
    BackHalf(headerBytes, sections, front, back);
  }

  lemma FrontHalf(magic: nat, code: nat, front: seq<byte>, back: seq<byte>)
    requires magic < TWO32 && code < TWO32 && front == Le32(magic) + Le16(1) + Le16(0) + Le32(code)
    ensures var h := front + back; U32(h, 0) == magic && U16(h, 4) == 1 && U16(h, 6) == 0 && U32(h, 8) == code
  {
    var h, f0, f1, f2, f3 := front + back, Le32(magic), Le16(1), Le16(0), Le32(code);
    assert h == [] + f0 + (f1 + f2 + f3 + back);
    assert h == f0 + f1 + (f2 + f3 + back);
    assert h == f0 + f1 + f2 + (f3 + back);
    assert h == f0 + f1 + f2 + f3 + back;
    ReadLe32([], magic, f1 + f2 + f3 + back);
    ReadLe16(f0, 1, f2 + f3 + back);
    ReadLe16(f0 + f1, 0, f3 + back);
    ReadLe32(f0 + f1 + f2, code, back);
  }

  lemma BackHalf(headerBytes: nat, sections: nat, front: seq<byte>, back: seq<byte>)
    requires headerBytes < TWO32 && sections < TWO32 && |front| == 12
    requires back == Le32(headerBytes) + Le32(0) + Le32(sections) + Zeros(16)
    ensures var h := front + back; U32(h, 12) == headerBytes && U32(h, 16) == 0 && U32(h, 20) == sections
  {
    var h, f4, f5, f6, f7 := front + back, Le32(headerBytes), Le32(0), Le32(sections), Zeros(16);
    assert h == front + f4 + (f5 + f6 + f7);
    assert h == front + f4 + f5 + (f6 + f7);
    assert h == front + f4 + f5 + f6 + f7;
    ReadLe32(front, headerBytes, f5 + f6 + f7);
    ReadLe32(front + f4, 0, f6 + f7);
    ReadLe32(front + f4 + f5, sections, f7);
  }

  /** What a parser sees of a package: header, two entries, and the rest. */
  lemma Parsed(h: seq<byte>, e1: seq<byte>, e2: seq<byte>, rest: seq<byte>)
    requires |h| == HEADER && |e1| == |e2| == ENTRY
    ensures var data := h + e1 + e2 + rest;
            && ReadHeader(data) == ReadHeader(h)
            && U32(data, HEADER) == U32(e1, 0) && U64(data, HEADER + 8) == U64(e1, 8)
                 && U64(data, HEADER + 16) == U64(e1, 16)
            && U32(data, HEADER + ENTRY) == U32(e2, 0) && U64(data, HEADER + ENTRY + 8) == U64(e2, 8)
            && U64(data, HEADER + ENTRY + 16) == U64(e2, 16)
  {
    var data := h + e1 + e2 + rest;
    var t1, t2 := e1 + (e2 + rest), e2 + rest;
    assert data == h + t1 && data == (h + e1) + t2;
    Front32(h, t1, 0);
    Front16(h, t1, 4);
    Front16(h, t1, 6);
    Front32(h, t1, 8);
    Front32(h, t1, 12);
    Front32(h, t1, 16);
    Front32(h, t1, 20);
    Back32(h, t1, 0);
    Back64(h, t1, 8);
    Back64(h, t1, 16);
    Front32(e1, t2, 0);
    Front64(e1, t2, 8);
    Front64(e1, t2, 16);
    Back32(h + e1, t2, 0);
    Back64(h + e1, t2, 8);
    Back64(h + e1, t2, 16);
    Front32(e2, rest, 0);
    Front64(e2, rest, 8);
    Front64(e2, rest, 16);
  }

  /** The fields of a package with a manifest and an image section. */
  predicate TwoSections(data: seq<byte>, kind: Kind, man: Range, img: Range) {
    && |data| >= HEADER + 2 * ENTRY
    && ReadHeader(data) == Header(kind.Magic(), 1, 0, kind.Code(), ManifestAt(), 0, 2)
    && U32(data, HEADER) == SECTION_MANIFEST && U64(data, HEADER + 8) == man.off && U64(data, HEADER + 16) == man.size
    && U32(data, HEADER + ENTRY) == SECTION_IMAGE && U64(data, HEADER + ENTRY + 8) == img.off
    && U64(data, HEADER + ENTRY + 16) == img.size
  }

  lemma ExtractManifest(data: seq<byte>, kind: Kind, man: Range, img: Range)
    requires TwoSections(data, kind, man, img) && |data| < TWO64 && man.off + man.size <= |data|
    ensures Extract(data, SECTION_MANIFEST) == Ok(data[man.off..man.off + man.size])
  {
    assert Probe(data) == Ok(ReadHeader(data));
    assert AtEntry(data, |data|, SECTION_MANIFEST, 0) == Some(Ok(man));
  }

  lemma ExtractImage(data: seq<byte>, kind: Kind, man: Range, img: Range)
    requires TwoSections(data, kind, man, img) && |data| < TWO64 && img.off + img.size <= |data|
    ensures Extract(data, SECTION_IMAGE) == Ok(data[img.off..img.off + img.size])
  {
    assert Probe(data) == Ok(ReadHeader(data));
    assert AtEntry(data, |data|, SECTION_IMAGE, 0) == None;
    assert AtEntry(data, |data|, SECTION_IMAGE, 1) == Some(Ok(img));
    assert FromEntry(data, |data|, SECTION_IMAGE, 0, 2) == FromEntry(data, |data|, SECTION_IMAGE, 1, 2);
  }

  lemma HeadFields(kind: Kind, man: Range, img: Range, rest: seq<byte>)
    requires man.off < TWO64 && man.size < TWO64 && img.off < TWO64 && img.size < TWO64
    ensures TwoSections(FileHeader(kind, ManifestAt(), 2) + Entry(SECTION_MANIFEST, man.off, man.size)
                        + Entry(SECTION_IMAGE, img.off, img.size) + rest, kind, man, img)
  {
    HeaderFields(kind, ManifestAt(), 2);
    EntryFields(SECTION_MANIFEST, man.off, man.size);
    EntryFields(SECTION_IMAGE, img.off, img.size);
    Parsed(FileHeader(kind, ManifestAt(), 2), Entry(SECTION_MANIFEST, man.off, man.size),
      Entry(SECTION_IMAGE, img.off, img.size), rest);
  }

  lemma SectionsOf(head: seq<byte>, manifest: seq<byte>, pad: seq<byte>, image: seq<byte>, data: seq<byte>,
      kind: Kind, man: Range, img: Range)
    requires data == head + manifest + pad + image && |data| < TWO64 && TwoSections(data, kind, man, img)
    requires man == Range(|head|, |manifest|) && img == Range(|head| + |manifest| + |pad|, |image|)
    ensures Extract(data, SECTION_MANIFEST) == Ok(manifest) && Extract(data, SECTION_IMAGE) == Ok(image)
  {
    PackParts(head, manifest, pad, image, data);
    ExtractManifest(data, kind, man, img);
    ExtractImage(data, kind, man, img);
  }

  /** Extracting the sections of a package returns what was packed. */
  lemma PackExtract(kind: Kind, manifest: seq<byte>, image: seq<byte>)
    requires |Pack(kind, manifest, image)| < TWO64
    ensures Extract(Pack(kind, manifest, image), SECTION_MANIFEST) == Ok(manifest)
    ensures Extract(Pack(kind, manifest, image), SECTION_IMAGE) == Ok(image)
    ensures |Pack(kind, manifest, image)| >= 40
    ensures U32(Pack(kind, manifest, image), 0) == if kind.Program? then 0x4B50_4E43 else 0x4B4C_4E43
    ensures U32(Pack(kind, manifest, image), 8) == if kind.Program? then 1 else 2
  {
    var data := Pack(kind, manifest, image);
    var man, img := Range(ManifestAt(), |manifest|), Range(ImageAt(manifest), |image|);
    var head := FileHeader(kind, ManifestAt(), 2) + Entry(SECTION_MANIFEST, man.off, man.size)
      + Entry(SECTION_IMAGE, img.off, img.size);
    var pad := Zeros(img.off - (man.off + man.size));
    HeadFields(kind, man, img, manifest + pad + image);
    PackParts(head, manifest, pad, image, data);
    SectionsOf(head, manifest, pad, image, data, kind, man, img);
  }

  lemma PackParts(front: seq<byte>, manifest: seq<byte>, pad: seq<byte>, image: seq<byte>, data: seq<byte>)
    requires data == front + manifest + pad + image
    ensures data == front + (manifest + pad + image)
    ensures |data| == |front| + |manifest| + |pad| + |image|
    ensures data[|front|..|front| + |manifest|] == manifest
    ensures data[|front| + |manifest| + |pad|..|front| + |manifest| + |pad| + |image|] == image
  {
  }
}
