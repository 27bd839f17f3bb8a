/** PE32+ images as bytes: named header fields at their offsets, section headers as 40-byte
    records, the loader's view of an image, and section names through the COFF string table. */
module PeImage {
  import opened Bytes

  // ----- Writing over part of a buffer --------------------------------------------------

  function Put(s: bytes, off: nat, d: bytes): (r: bytes)
    requires off + |d| <= |s|
    ensures |r| == |s|
  {
    s[..off] + d + s[off + |d|..]
  }

  lemma PutMiddle(a: bytes, b: bytes, c: bytes, d: bytes)
    requires |b| == |d|
    ensures Put(a + b + c, |a|, d) == a + d + c
  {
  }

  lemma PutOther(s: bytes, off: nat, d: bytes, lo: nat, hi: nat)
    requires off + |d| <= |s| && lo <= hi <= |s|
    requires hi <= off || off + |d| <= lo
    ensures Put(s, off, d)[lo..hi] == s[lo..hi]
  {
  }

  lemma PutSame(s: bytes, off: nat, d: bytes)
    requires off + |d| <= |s|
    ensures Put(s, off, d)[off..off + |d|] == d
  {
  }

  function Zeros(n: nat): (r: bytes)
    ensures |r| == n && forall i | 0 <= i < n :: r[i] == 0
  {
    seq(n, i => 0)
  }

  // ----- Header fields -----------------------------------------------------------------

  function Field(s: bytes, off: nat, n: nat): nat
    requires off + n <= |s|
  {
    FromLe(s[off..off + n])
  }

  lemma {:induction false} LeFromLe(s: bytes)
    ensures Le(FromLe(s), |s|) == s
  {
    if s != [] {
      LeFromLe(s[1..]);
      var v := FromLe(s);
      ModUnique(v, 256, FromLe(s[1..]), s[0]);
      assert s == [s[0]] + s[1..];
    }
  }

  lemma FieldOfPut(s: bytes, off: nat, v: nat, n: nat)
    requires off + n <= |s| && InWidth(v, n)
    ensures Field(Put(s, off, Le(v, n)), off, n) == v
  {
    hide Put;
    PutSame(s, off, Le(v, n));
    LeRoundTrip(v, n);
    Pow256Values();
    SmallMod(v, Pow256(n));
  }

  lemma FieldOfOther(s: bytes, off: nat, d: bytes, at: nat, n: nat)
    requires off + |d| <= |s| && at + n <= |s|
    requires at + n <= off || off + |d| <= at
    ensures Field(Put(s, off, d), at, n) == Field(s, at, n)
  {
    hide Put, FromLe;
    PutOther(s, off, d, at, at + n);
  }

  const DOS_MAGIC := 0x5A4D
  const PE_SIGNATURE := 0x4550
  const MACHINE_AMD64 := 0x8664
  const DOS_HEADER_SIZE := 64
  const NT_HEADERS_SIZE := 264
  const OPTIONAL_AT := 24
  const OPTIONAL_SIZE := 240

  /** The header fields the injectors read or write. */
  datatype HdrField =
    | NSections | SymPtr | NSymbols | OptSize | SectAlign | FileAlign
    | SizeOfImage | SizeOfHeaders | CheckSum | DebugVa | DebugSize

  /** Where `IMAGE_NT_HEADERS64` has the field: the file header at 4, the optional header at 24,
      and entry 6 of the data directory at 112 + 6 * 8 in the optional header. */
  function At(f: HdrField): nat {
    match f
    case NSections => 6
    case SymPtr => 12
    case NSymbols => 16
    case OptSize => 20
    case SectAlign => OPTIONAL_AT + 32
    case FileAlign => OPTIONAL_AT + 36
    case SizeOfImage => OPTIONAL_AT + 56
    case SizeOfHeaders => OPTIONAL_AT + 60
    case CheckSum => OPTIONAL_AT + 64
    case DebugVa => OPTIONAL_AT + 160
    case DebugSize => OPTIONAL_AT + 164
  }

  function Width(f: HdrField): nat {
    if f == NSections || f == OptSize then 2 else 4
  }

  /** The fields lie where those in front of them end: those of the file header behind the signature and the machine,
      those of the optional header behind its first fields, and the data directory behind the rest. */
  lemma FieldPlaces()
    ensures At(NSections) == 4 + 2 && At(SymPtr) == At(NSections) + 2 + 4 && At(NSymbols) == At(SymPtr) + 4
    ensures At(OptSize) == At(NSymbols) + 4 && OPTIONAL_AT == At(OptSize) + 2 + 2
    ensures At(SectAlign) == OPTIONAL_AT + 2 + 2 * 1 + 5 * 4 + 8 && At(FileAlign) == At(SectAlign) + 4
    ensures At(SizeOfImage) == At(FileAlign) + 4 + 6 * 2 + 4 && At(SizeOfHeaders) == At(SizeOfImage) + 4
    ensures At(CheckSum) == At(SizeOfHeaders) + 4
    ensures At(DebugVa) == At(CheckSum) + 4 + 2 * 2 + 4 * 8 + 2 * 4 + 6 * 8 && At(DebugSize) == At(DebugVa) + 4
    ensures OPTIONAL_AT + OPTIONAL_SIZE == NT_HEADERS_SIZE == At(DebugVa) + 10 * 8
    ensures forall f: HdrField :: Width(f) == (if f in {NSections, OptSize} then 2 else 4)
  {
  }

  function HeaderField(s: bytes, e: nat, f: HdrField): nat
    requires e + NT_HEADERS_SIZE <= |s|
  {
    Field(s, e + At(f), Width(f))
  }

  datatype Hdr = Hdr(
    nSections: nat, symPtr: nat, nSymbols: nat, optSize: nat, sectAlign: nat, fileAlign: nat,
    sizeOfImage: nat, sizeOfHeaders: nat, checkSum: nat, debugVa: nat, debugSize: nat)

  function ReadHdr(s: bytes, e: nat): Hdr
    requires e + NT_HEADERS_SIZE <= |s|
  {
    Hdr(HeaderField(s, e, NSections), HeaderField(s, e, SymPtr), HeaderField(s, e, NSymbols), HeaderField(s, e, OptSize),
        HeaderField(s, e, SectAlign), HeaderField(s, e, FileAlign), HeaderField(s, e, SizeOfImage),
        HeaderField(s, e, SizeOfHeaders), HeaderField(s, e, CheckSum), HeaderField(s, e, DebugVa), HeaderField(s, e, DebugSize))
  }

  function SetHdr(h: Hdr, f: HdrField, v: nat): Hdr {
    match f
    case NSections => h.(nSections := v)
    case SymPtr => h.(symPtr := v)
    case NSymbols => h.(nSymbols := v)
    case OptSize => h.(optSize := v)
    case SectAlign => h.(sectAlign := v)
    case FileAlign => h.(fileAlign := v)
    case SizeOfImage => h.(sizeOfImage := v)
    case SizeOfHeaders => h.(sizeOfHeaders := v)
    case CheckSum => h.(checkSum := v)
    case DebugVa => h.(debugVa := v)
    case DebugSize => h.(debugSize := v)
  }

  /** The checks both injectors make before they trust the headers. */
  predicate HeadersOk(s: bytes) {
    && |s| >= DOS_HEADER_SIZE && Field(s, 0, 2) == DOS_MAGIC
    && 0 < Lfanew(s) < 0x8000_0000 && Lfanew(s) + NT_HEADERS_SIZE <= |s|
    && Field(s, Lfanew(s), 4) == PE_SIGNATURE && Field(s, Lfanew(s) + 4, 2) == MACHINE_AMD64
  }

  function Lfanew(s: bytes): nat
    requires |s| >= DOS_HEADER_SIZE
  {
    Field(s, 60, 4)
  }

  lemma PutHdr(s: bytes, e: nat, f: HdrField, v: nat)
    requires HeadersOk(s) && Lfanew(s) == e >= DOS_HEADER_SIZE && InWidth(v, Width(f))
    ensures var t := Put(s, e + At(f), Le(v, Width(f)));
            HeadersOk(t) && Lfanew(t) == e && ReadHdr(t, e) == SetHdr(ReadHdr(s, e), f, v)
  {
    hide Put, Le, Field;
    var d := Le(v, Width(f));
    var t := Put(s, e + At(f), d);
    FieldOfOther(s, e + At(f), d, 0, 2);
    FieldOfOther(s, e + At(f), d, 60, 4);
    FieldOfOther(s, e + At(f), d, e, 4);
    FieldOfOther(s, e + At(f), d, e + 4, 2);
    forall g ensures HeaderField(t, e, g) == if g == f then v else HeaderField(s, e, g) {
      if g == f {
        FieldOfPut(s, e + At(f), v, Width(f));
      } else {
        FieldOfOther(s, e + At(f), d, e + At(g), Width(g));
      }
    }
  }

  // ----- Section headers -------------------------------------------------------------------

  const SECTION_SIZE := 40

  datatype Section = Section(name: bytes, vSize: nat, va: nat, rawSize: nat, rawPtr: nat, rest: bytes)

  predicate SectionFits(s: Section) {
    |s.name| == 8 && |s.rest| == 16 && InWidth(s.vSize, 4) && InWidth(s.va, 4) && InWidth(s.rawSize, 4)
    && InWidth(s.rawPtr, 4)
  }

  function EncSection(s: Section): (r: bytes)
    requires SectionFits(s)
    ensures |r| == SECTION_SIZE
  {
    s.name + Le(s.vSize, 4) + Le(s.va, 4) + Le(s.rawSize, 4) + Le(s.rawPtr, 4) + s.rest
  }

  function ReadSection(s: bytes, off: nat): Section
    requires off + SECTION_SIZE <= |s|
  {
    Section(s[off..off + 8], Field(s, off + 8, 4), Field(s, off + 12, 4), Field(s, off + 16, 4), Field(s, off + 20, 4),
            s[off + 24..off + 40])
  }

  predicate AllFit(secs: seq<Section>) {
    forall i | 0 <= i < |secs| :: SectionFits(secs[i])
  }

  function EncSections(secs: seq<Section>): (r: bytes)
    requires AllFit(secs)
    ensures |r| == SECTION_SIZE * |secs|
  {
    if secs == [] then [] else EncSection(secs[0]) + EncSections(secs[1..])
  }

  function ReadSections(s: bytes, off: nat, n: nat): (r: seq<Section>)
    requires off + SECTION_SIZE * n <= |s|
    ensures |r| == n
    decreases n
  {
    if n == 0 then [] else [ReadSection(s, off)] + ReadSections(s, off + SECTION_SIZE, n - 1)
  }

  lemma FieldBound(s: bytes, off: nat)
    requires off + 4 <= |s|
    ensures InWidth(Field(s, off, 4), 4)
    ensures Le(Field(s, off, 4), 4) == s[off..off + 4]
  {
    hide FromLe;
    FromLeBound(s[off..off + 4]);
    Pow256Values();
    LeFromLe(s[off..off + 4]);
  }

  lemma ReadSectionFits(s: bytes, off: nat)
    requires off + SECTION_SIZE <= |s|
    ensures SectionFits(ReadSection(s, off)) && EncSection(ReadSection(s, off)) == s[off..off + SECTION_SIZE]
  {
    hide Le, Field;
    FieldBound(s, off + 8);
    FieldBound(s, off + 12);
    FieldBound(s, off + 16);
    FieldBound(s, off + 20);
    var t := s[off..off + SECTION_SIZE];
    assert t == s[off..off + 8] + s[off + 8..off + 12] + s[off + 12..off + 16] + s[off + 16..off + 20]
                + s[off + 20..off + 24] + s[off + 24..off + 40];
  }

  lemma FieldEncoded(a: bytes, v: nat, b: bytes)
    requires InWidth(v, 4)
    ensures Field(a + Le(v, 4) + b, |a|, 4) == v
  {
    hide FromLe, Le;
    assert (a + Le(v, 4) + b)[|a|..|a| + 4] == Le(v, 4);
    LeRoundTrip(v, 4);
    Pow256Values();
    SmallMod(v, Pow256(4));
  }

  lemma ReadSectionEncoded(a: bytes, sec: Section, b: bytes)
    requires SectionFits(sec)
    ensures ReadSection(a + EncSection(sec) + b, |a|) == sec
  {
    hide Le, Field, SectionFits;
    assert SectionFits(sec);
    var s := a + EncSection(sec) + b;
    var w1, w2, w3, w4 := Le(sec.vSize, 4), Le(sec.va, 4), Le(sec.rawSize, 4), Le(sec.rawPtr, 4);
    FieldsWidth(sec);
    assert s == (a + sec.name) + w1 + (w2 + w3 + w4 + sec.rest + b);
    FieldEncoded(a + sec.name, sec.vSize, w2 + w3 + w4 + sec.rest + b);
    assert s == (a + sec.name + w1) + w2 + (w3 + w4 + sec.rest + b);
    FieldEncoded(a + sec.name + w1, sec.va, w3 + w4 + sec.rest + b);
    assert s == (a + sec.name + w1 + w2) + w3 + (w4 + sec.rest + b);
    FieldEncoded(a + sec.name + w1 + w2, sec.rawSize, w4 + sec.rest + b);
    assert s == (a + sec.name + w1 + w2 + w3) + w4 + (sec.rest + b);
    FieldEncoded(a + sec.name + w1 + w2 + w3, sec.rawPtr, sec.rest + b);
    assert s[|a|..|a| + 8] == sec.name;
    assert s[|a| + 24..|a| + 40] == sec.rest;
  }

  lemma FieldsWidth(sec: Section)
    requires SectionFits(sec)
    ensures |sec.name| == 8 && |sec.rest| == 16
    ensures InWidth(sec.vSize, 4) && InWidth(sec.va, 4) && InWidth(sec.rawSize, 4) && InWidth(sec.rawPtr, 4)
  {
  }

  lemma {:induction false} ReadSectionsEncoded(a: bytes, secs: seq<Section>, b: bytes)
    requires AllFit(secs)
    ensures ReadSections(a + EncSections(secs) + b, |a|, |secs|) == secs
    decreases |secs|
  {
    hide EncSection, ReadSection, SectionFits;
    if secs != [] {
      var first := EncSection(secs[0]);
      var s := a + EncSections(secs) + b;
      assert s == a + first + (EncSections(secs[1..]) + b);
      ReadSectionEncoded(a, secs[0], EncSections(secs[1..]) + b);
      assert s == (a + first) + EncSections(secs[1..]) + b;
      ReadSectionsEncoded(a + first, secs[1..], b);
      assert secs == [secs[0]] + secs[1..];
    }
  }

  lemma {:induction false} ReadSectionsFit(s: bytes, off: nat, n: nat)
    requires off + SECTION_SIZE * n <= |s|
    ensures AllFit(ReadSections(s, off, n))
    ensures EncSections(ReadSections(s, off, n)) == s[off..off + SECTION_SIZE * n]
    decreases n
  {
    hide EncSection, ReadSection, SectionFits;
    if n > 0 {
      ReadSectionFits(s, off);
      ReadSectionsFit(s, off + SECTION_SIZE, n - 1);
      var secs, rest := ReadSections(s, off, n), ReadSections(s, off + SECTION_SIZE, n - 1);
      assert secs[1..] == rest;
      assert s[off..off + SECTION_SIZE] + s[off + SECTION_SIZE..off + SECTION_SIZE * n]
      == s[off..off + SECTION_SIZE * n];
    }
  }

  // ----- Writing over part of the section table ------------------------------------------------

  lemma PutWithin(a: bytes, b: bytes, c: bytes, off: nat, d: bytes)
    requires off + |d| <= |b|
    ensures Put(a + b + c, |a| + off, d) == a + Put(b, off, d) + c
  {
  }

  lemma PutRawPtr(s: Section, v: nat)
    requires SectionFits(s) && InWidth(v, 4)
    ensures Put(EncSection(s), 20, Le(v, 4)) == EncSection(s.(rawPtr := v))
  {
    hide Le;
    PutMiddle(s.name + Le(s.vSize, 4) + Le(s.va, 4) + Le(s.rawSize, 4), Le(s.rawPtr, 4), s.rest, Le(v, 4));
  }

  lemma PutName(s: Section, name: bytes)
    requires SectionFits(s) && |name| == 8
    ensures Put(EncSection(s), 0, name) == EncSection(s.(name := name))
  {
    hide Le;
    var w := Le(s.vSize, 4) + Le(s.va, 4) + Le(s.rawSize, 4) + Le(s.rawPtr, 4) + s.rest;
    assert EncSection(s) == [] + s.name + w;
    PutMiddle([], s.name, w, name);
    assert EncSection(s.(name := name)) == [] + name + w;
  }

  lemma {:induction false} EncSectionsSplit(secs: seq<Section>, i: nat)
    requires AllFit(secs) && i < |secs|
    ensures EncSections(secs) == EncSections(secs[..i]) + EncSection(secs[i]) + EncSections(secs[i + 1..])
    ensures |EncSections(secs[..i])| == SECTION_SIZE * i
  {
    hide EncSection, SectionFits;
    if i == 0 {
      assert secs[..0] == [];
    } else {
      EncSectionsSplit(secs[1..], i - 1);
      assert secs[..i][1..] == secs[1..][..i - 1];
      assert secs[1..][i..] == secs[i + 1..];
    }
  }

  /** Replacing bytes of one section header replaces that section. */
  lemma PutInSection(a: bytes, secs: seq<Section>, b: bytes, i: nat, off: nat, d: bytes, sec: Section)
    requires AllFit(secs) && i < |secs| && SectionFits(sec) && off + |d| <= SECTION_SIZE
    requires Put(EncSection(secs[i]), off, d) == EncSection(sec)
    ensures AllFit(secs[i := sec])
    ensures Put(a + EncSections(secs) + b, |a| + SECTION_SIZE * i + off, d) == a + EncSections(secs[i := sec]) + b
  {
    hide Put, EncSection, SectionFits, EncSections;
    var before, after := EncSections(secs[..i]), EncSections(secs[i + 1..]);
    EncSectionsSplit(secs, i);
    assert AllFit(secs[i := sec]);
    EncSectionsSplit(secs[i := sec], i);
    assert secs[i := sec][..i] == secs[..i] && secs[i := sec][i + 1..] == secs[i + 1..];
    assert a + EncSections(secs) + b == (a + before) + EncSection(secs[i]) + (after + b);
    PutWithin(a + before, EncSection(secs[i]), after + b, off, d);
    assert a + EncSections(secs[i := sec]) + b == (a + before) + EncSection(sec) + (after + b);
  }

  lemma EncSectionsAdd(secs: seq<Section>, sec: Section)
    requires AllFit(secs) && SectionFits(sec)
    ensures AllFit(secs + [sec])
    ensures EncSections(secs + [sec]) == EncSections(secs) + EncSection(sec)
  {
    hide EncSection, SectionFits;
    var all := secs + [sec];
    EncSectionsSplit(all, |secs|);
    assert all[..|secs|] == secs && all[|secs| + 1..] == [];
    assert EncSections([]) == [];
  }
}
