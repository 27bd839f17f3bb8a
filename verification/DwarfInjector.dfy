/** The DWARF injector: adds `.debug_*` sections to an image. Loaders see the old image unchanged,
    and debuggers find exactly one section under each injected name, holding the injected bytes. */
module DwarfInjector {
  import opened Bytes
  import opened PeImage
  import opened PeView
  import opened PeEdit
  import opened PeNames

  datatype Error =
    | NothingToInject | TooSmall | BadDosMagic | BadLfanew | BadNtSignature | NotX64 | SymbolsOutOfBounds

  datatype Result = Ok(image: bytes) | Err(error: Error)

  // ----- What is injected -------------------------------------------------------------------

  datatype DwarfSections = DwarfSections(abbrev: bytes, str: bytes, lineStr: bytes, line: bytes, info: bytes)

  datatype Entry = Entry(name: bytes, data: bytes)

  // ".debug", and the endings of the injected names.
  const DEBUG: bytes := [0x2E, 0x64, 0x65, 0x62, 0x75, 0x67]
  const ABBREV: bytes := DEBUG + [0x5F, 0x61, 0x62, 0x62, 0x72, 0x65, 0x76]
  const STR: bytes := DEBUG + [0x5F, 0x73, 0x74, 0x72]
  const LINE_STR: bytes := DEBUG + [0x5F, 0x6C, 0x69, 0x6E, 0x65, 0x5F, 0x73, 0x74, 0x72]
  const LINE: bytes := DEBUG + [0x5F, 0x6C, 0x69, 0x6E, 0x65]
  const INFO: bytes := DEBUG + [0x5F, 0x69, 0x6E, 0x66, 0x6F]
  // ".old_dw" and a NUL.
  const OLD_DW: bytes := [0x2E, 0x6F, 0x6C, 0x64, 0x5F, 0x64, 0x77, 0]

  lemma NamesSpelled()
    ensures DEBUG == Ascii(".debug") && OLD_DW == Ascii(".old_dw") + [0]
    ensures ABBREV == Ascii(".debug_abbrev") && STR == Ascii(".debug_str") && LINE_STR == Ascii(".debug_line_str")
            && LINE == Ascii(".debug_line") && INFO == Ascii(".debug_info")
  {
  }

  function IfAny(name: bytes, data: bytes): seq<Entry> {
    if data == [] then [] else [Entry(name, data)]
  }

  /** The nonempty sections, in the order they are laid out. */
  function Entries(d: DwarfSections): seq<Entry> {
    IfAny(ABBREV, d.abbrev) + IfAny(STR, d.str) + IfAny(LINE_STR, d.lineStr) + IfAny(LINE, d.line) + IfAny(INFO, d.info)
  }

  function NamesOf(es: seq<Entry>): (r: seq<bytes>)
    ensures |r| == |es| && forall i | 0 <= i < |es| :: r[i] == es[i].name
  {
    seq(|es|, i requires 0 <= i < |es| => es[i].name)
  }

  function DatasOf(es: seq<Entry>): (r: seq<bytes>)
    ensures |r| == |es| && forall i | 0 <= i < |es| :: r[i] == es[i].data
  {
    seq(|es|, i requires 0 <= i < |es| => es[i].data)
  }

  predicate IsDebugName(name: bytes) {
    DEBUG <= name
  }

  lemma DebugNames(name: bytes)
    ensures IsDebugName(name) <==> exists rest :: name == Ascii(".debug") + rest
  {
    NamesSpelled();
    hide Ascii;
    if IsDebugName(name) {
      assert name == DEBUG + name[|DEBUG|..];
    }
  }

  /** Names are distinct, NUL-free and start with `.debug`; no section is empty. */
  predicate EntriesOk(es: seq<Entry>) {
    && (forall i | 0 <= i < |es| :: NoNul(es[i].name) && IsDebugName(es[i].name) && es[i].data != [])
    && forall i, j | 0 <= i < j < |es| :: es[i].name != es[j].name
  }

  lemma AddEntry(es: seq<Entry>, name: bytes, data: bytes, used: set<bytes>)
    requires EntriesOk(es) && (forall i | 0 <= i < |es| :: es[i].name in used)
    requires name !in used && NoNul(name) && IsDebugName(name)
    ensures EntriesOk(es + IfAny(name, data))
    ensures forall i | 0 <= i < |es + IfAny(name, data)| :: (es + IfAny(name, data))[i].name in used + {name}
  {
    hide NoNul, IsDebugName;
  }

  lemma NamesDiffer()
    ensures forall n <- {ABBREV, STR, LINE_STR, LINE, INFO} :: NoNul(n) && IsDebugName(n)
    ensures |{ABBREV, STR, LINE_STR, LINE, INFO}| == 5
    ensures STR != ABBREV && LINE_STR !in {ABBREV, STR} && LINE !in {ABBREV, STR, LINE_STR}
            && INFO !in {ABBREV, STR, LINE_STR, LINE}
  {
    assert |ABBREV| == 13 && |STR| == 10 && |LINE_STR| == 15 && |LINE| == |INFO| == 11 && LINE[7] != INFO[7];
    assert {ABBREV, STR, LINE_STR, LINE, INFO} == {ABBREV} + {STR} + {LINE_STR} + {LINE} + {INFO};
  }

  lemma EntriesAreOk(d: DwarfSections)
    ensures EntriesOk(Entries(d)) && |Entries(d)| <= 5
    ensures Entries(d) == [] <==> d == DwarfSections([], [], [], [], [])
  {
    NamesDiffer();
    EntriesAreOkFor(d, ABBREV, STR, LINE_STR, LINE, INFO);
  }

  lemma EntriesAreOkFor(d: DwarfSections, n1: bytes, n2: bytes, n3: bytes, n4: bytes, n5: bytes)
    requires forall n <- {n1, n2, n3, n4, n5} :: NoNul(n) && IsDebugName(n)
    requires n2 != n1 && n3 !in {n1, n2} && n4 !in {n1, n2, n3} && n5 !in {n1, n2, n3, n4}
    ensures EntriesOk(IfAny(n1, d.abbrev) + IfAny(n2, d.str) + IfAny(n3, d.lineStr) + IfAny(n4, d.line) + IfAny(n5, d.info))
  {
    hide EntriesOk, IfAny, NoNul, IsDebugName;
    assert EntriesOk([]) by { NoEntries(); }
    AddEntry([], n1, d.abbrev, {});
    assert [] + IfAny(n1, d.abbrev) == IfAny(n1, d.abbrev);
    AddEntry(IfAny(n1, d.abbrev), n2, d.str, {n1});
    var two := IfAny(n1, d.abbrev) + IfAny(n2, d.str);
    assert {n1} + {n2} == {n1, n2};
    AddEntry(two, n3, d.lineStr, {n1, n2});
    assert {n1, n2} + {n3} == {n1, n2, n3};
    AddEntry(two + IfAny(n3, d.lineStr), n4, d.line, {n1, n2, n3});
    assert {n1, n2, n3} + {n4} == {n1, n2, n3, n4};
    AddEntry(two + IfAny(n3, d.lineStr) + IfAny(n4, d.line), n5, d.info, {n1, n2, n3, n4});
  }

  lemma NoEntries()
    ensures EntriesOk([])
  {
  }

  // ----- Errors ----------------------------------------------------------------------------------

  /** The first header check that fails. */
  function CheckHeaders(s: bytes): (r: Option<Error>)
    ensures r.None? <==> HeadersOk(s)
  {
    if |s| < DOS_HEADER_SIZE then Some(TooSmall)
    else if Field(s, 0, 2) != DOS_MAGIC then Some(BadDosMagic)
    else if Lfanew(s) == 0 || Lfanew(s) >= 0x8000_0000 || Lfanew(s) + NT_HEADERS_SIZE > |s| then Some(BadLfanew)
    else if Field(s, Lfanew(s), 4) != PE_SIGNATURE then Some(BadNtSignature)
    else if Field(s, Lfanew(s) + 4, 2) != MACHINE_AMD64 then Some(NotX64)
    else None
  }

  /** What each error means. */
  predicate HasError(s: bytes, error: Error) {
    match error
    case TooSmall => |s| < 64
    case BadDosMagic => |s| >= 64 && s[..2] != [0x4D, 0x5A]
    case BadLfanew => |s| >= 64 && var e := Field(s, 60, 4); e == 0 || e >= 0x8000_0000 || e + 264 > |s|
    case BadNtSignature => |s| >= 64 && var e := Field(s, 60, 4); e + 264 <= |s| && s[e..e + 4] != [0x50, 0x45, 0, 0]
    case NotX64 => |s| >= 64 && var e := Field(s, 60, 4); e + 264 <= |s| && s[e + 4..e + 6] != [0x64, 0x86]
    case _ => false
  }

  /** The checks, in their order. */
  const CHECKS: seq<Error> := [TooSmall, BadDosMagic, BadLfanew, BadNtSignature, NotX64]

  lemma FieldIs(s: bytes, at: nat, n: nat, d: bytes)
    requires at + n <= |s| && |d| == n
    ensures Field(s, at, n) == FromLe(d) <==> s[at..at + n] == d
  {
    LeFromLe(d);
    LeFromLe(s[at..at + n]);
  }

  lemma Magics()
    ensures FromLe([0x4D, 0x5A]) == DOS_MAGIC && FromLe([0x64, 0x86]) == MACHINE_AMD64
    ensures FromLe([0x50, 0x45, 0, 0]) == PE_SIGNATURE
  {
    assert FromLe([0x5A]) == 0x5A && FromLe([0x86]) == 0x86 && FromLe([0]) == 0;
    assert [0x4D, 0x5A][1..] == [0x5A] && [0x64, 0x86][1..] == [0x86];
    assert [0x50, 0x45, 0, 0][1..] == [0x45, 0, 0] && [0x45, 0, 0][1..] == [0, 0] && [0, 0][1..] == [0];
    assert FromLe([0, 0]) == 0 && FromLe([0x45, 0, 0]) == 0x45;
  }

  /** The error that is reported is the first that the image has. */
  lemma FirstError(s: bytes, k: nat)
    requires k <= |CHECKS| && forall j | 0 <= j < k :: !HasError(s, CHECKS[j])
    ensures k == |CHECKS| ==> CheckHeaders(s).None?
    ensures k < |CHECKS| && HasError(s, CHECKS[k]) ==> CheckHeaders(s) == Some(CHECKS[k])
  {
    hide FromLe, Field;
    Magics();
    assert k > 0 ==> !HasError(s, CHECKS[0]);
    assert k > 1 ==> !HasError(s, CHECKS[1]);
    assert k > 2 ==> !HasError(s, CHECKS[2]);
    assert k > 3 ==> !HasError(s, CHECKS[3]);
    assert k > 4 ==> !HasError(s, CHECKS[4]);
    if |s| >= 64 {
      FieldIs(s, 0, 2, [0x4D, 0x5A]);
      assert s[..2] == s[0..2];
      var e := Field(s, 60, 4);
      if e + 264 <= |s| {
        FieldIs(s, e, 4, [0x50, 0x45, 0, 0]);
        FieldIs(s, e + 4, 2, [0x64, 0x86]);
      }
    }
  }

  function Wrap32(n: nat): nat {
    n % 0x1_0000_0000
  }

  /** The bounds check on the symbol table, in 32-bit arithmetic. */
  predicate SymbolsInBounds(s: bytes)
    requires HeadersOk(s)
  {
    var hdr := ReadHdr(s, Lfanew(s));
    hdr.symPtr == 0 || Wrap32(hdr.symPtr + Wrap32(SYMBOL_SIZE * hdr.nSymbols) + 4) <= |s|
  }

  /** Short of a wrap-around the check asks for room for the symbols and the size of their string table. */
  lemma SymbolsChecked(s: bytes)
    requires HeadersOk(s) && var hdr := ReadHdr(s, Lfanew(s)); hdr.symPtr + 18 * hdr.nSymbols + 4 < 0x1_0000_0000
    ensures var hdr := ReadHdr(s, Lfanew(s));
            SymbolsInBounds(s) <==> hdr.symPtr != 0 ==> hdr.symPtr + 18 * hdr.nSymbols + 4 <= |s|
  {
    hide HeadersOk, ReadHdr, Lfanew;
  }

  // ----- The sections that are added ----------------------------------------------------------------

  // Readable, initialised data, discardable.
  const CHARACTERISTICS := 0x4200_0040

  /** The sum of the flags for initialised data, discardable and readable. */
  lemma FlagsAre()
    ensures CHARACTERISTICS == 0x40 + 0x0200_0000 + 0x4000_0000
  {
  }

  function NewSection(name: bytes, size: nat, va: nat, offset: nat, fileAlign: nat, characteristics: nat): Section
    requires IsPow2(fileAlign)
  {
    Section(name, size, va, RoundUp(size, fileAlign), offset, Zeros(12) + Le(characteristics, 4))
  }

  /** Headers for `es`, whose names start at `strOff` in the string table, laid out from `va` and `offset`. */
  function AddedFrom(es: seq<Entry>, strOff: nat, va: nat, offset: nat, fa: nat, sa: nat): (r: seq<Section>)
    requires IsPow2(fa) && IsPow2(sa) && strOff + |NamesBytes(NamesOf(es))| <= MAX_STRTAB
    ensures |r| == |es|
  {
    if es == [] then []
    else
      var size := |es[0].data|;
      NamesOfTail(es);
      [NewSection(LongName(strOff), size, va, offset, fa, CHARACTERISTICS)]
      + AddedFrom(es[1..], strOff + |es[0].name| + 1, RoundUp(va + size, sa), RoundUp(offset + size, fa), fa, sa)
  }

  lemma NamesOfTail(es: seq<Entry>)
    requires es != []
    ensures NamesOf(es)[1..] == NamesOf(es[1..])
    ensures |NamesBytes(NamesOf(es))| == |es[0].name| + 1 + |NamesBytes(NamesOf(es[1..]))|
  {
    assert NamesOf(es)[1..] == NamesOf(es[1..]);
  }

  function VaAfter(es: seq<Entry>, va: nat, align: nat): (end: nat)
    requires IsPow2(align)
    ensures end >= va
  {
    if es == [] then va else VaAfter(es[1..], RoundUp(va + |es[0].data|, align), align)
  }

  /** The end of the data area, as it is computed before the writing loop. */
  function OffsetAfter(es: seq<Entry>, offset: nat, align: nat): (end: nat)
    requires IsPow2(align)
    ensures end >= offset
  {
    if es == [] then offset else OffsetAfter(es[1..], offset + RoundUp(|es[0].data|, align), align)
  }

  /** Added sections are aligned, hold their data's size, and are disjoint in the file; their virtual contents
      are disjoint in memory. */
  ghost predicate LaidOut(es: seq<Entry>, added: seq<Section>, va: nat, offset: nat, vaEnd: nat, offsetEnd: nat,
                          fa: nat, sa: nat)
    requires IsPow2(fa) && IsPow2(sa)
  {
    && |added| == |es|
    && (forall j | 0 <= j < |es| ::
          && added[j].vSize == |es[j].data| <= added[j].rawSize
          && va <= added[j].va && added[j].va % sa == 0 && added[j].va + added[j].vSize <= vaEnd
          && offset <= added[j].rawPtr && added[j].rawPtr % fa == 0 && added[j].rawSize % fa == 0
          && added[j].rawPtr + added[j].rawSize <= offsetEnd)
    && forall j, k | 0 <= j < k < |es| ::
         added[j].va + added[j].vSize <= added[k].va && added[j].rawPtr + added[j].rawSize <= added[k].rawPtr
  }

  lemma {:induction false} AddedLaidOut(es: seq<Entry>, strOff: nat, va: nat, offset: nat, fa: nat, sa: nat)
    requires IsPow2(fa) && IsPow2(sa)
    requires strOff + |NamesBytes(NamesOf(es))| <= MAX_STRTAB
    requires va % sa == 0 && offset % fa == 0
    ensures LaidOut(es, AddedFrom(es, strOff, va, offset, fa, sa), va, offset,
                    VaAfter(es, va, sa), OffsetAfter(es, offset, fa), fa, sa)
  {
    hide RoundUp, NamesBytes, LongName, Le, Zeros, LaidOut;
    var added := AddedFrom(es, strOff, va, offset, fa, sa);
    if es != [] {
      NamesOfTail(es);
      var size := |es[0].data|;
      var va1, offset1 := RoundUp(va + size, sa), RoundUp(offset + size, fa);
      RoundUpFrom(va, size, sa);
      RoundUpFrom(offset, size, fa);
      AddedLaidOut(es[1..], strOff + |es[0].name| + 1, va1, offset1, fa, sa);
      LaidOutFirst(es, added, va, offset, va1, offset1, VaAfter(es, va, sa), OffsetAfter(es, offset, fa), fa, sa);
    } else {
      NoneLaidOut(va, offset, fa, sa);
    }
  }

  lemma NoneLaidOut(va: nat, offset: nat, fa: nat, sa: nat)
    requires IsPow2(fa) && IsPow2(sa)
    ensures LaidOut([], [], va, offset, va, offset, fa, sa)
  {
  }

  lemma LaidOutFirst(es: seq<Entry>, added: seq<Section>, va: nat, offset: nat, va1: nat, offset1: nat,
                     vaEnd: nat, offsetEnd: nat, fa: nat, sa: nat)
    requires IsPow2(fa) && IsPow2(sa) && |added| == |es| > 0
    requires LaidOut(es[1..], added[1..], va1, offset1, vaEnd, offsetEnd, fa, sa)
    requires var x := added[0];
             && x.vSize == |es[0].data| <= x.rawSize
             && x.va == va && va % sa == 0 && va + x.vSize <= va1 <= vaEnd
             && x.rawPtr == offset && offset % fa == 0 && x.rawSize % fa == 0
             && offset + x.rawSize <= offset1 <= offsetEnd
    ensures LaidOut(es, added, va, offset, vaEnd, offsetEnd, fa, sa)
  {
    forall j | 0 < j < |es|
      ensures added[j] == added[1..][j - 1] && es[j] == es[1..][j - 1]
    {
    }
    assert forall j, k | 0 < j < k < |es| :: added[j] == added[1..][j - 1] && added[k] == added[1..][k - 1];
  }

  /** Each added section's name field is the offset where its name is in the string table. */
  lemma {:induction false} AddedNames(es: seq<Entry>, strOff: nat, va: nat, offset: nat, fa: nat, sa: nat, j: nat)
    requires IsPow2(fa) && IsPow2(sa) && strOff + |NamesBytes(NamesOf(es))| <= MAX_STRTAB
    requires j < |es|
    ensures strOff + |NamesBytes(NamesOf(es)[..j])| < MAX_STRTAB
    ensures AddedFrom(es, strOff, va, offset, fa, sa)[j].name == LongName(strOff + |NamesBytes(NamesOf(es)[..j])|)
  {
    hide RoundUp, LongName;
    var names := NamesOf(es);
    NamesOfTail(es);
    if j == 0 {
      assert names[..0] == [];
    } else {
      AddedNames(es[1..], strOff + |es[0].name| + 1, RoundUp(va + |es[0].data|, sa),
                 RoundUp(offset + |es[0].data|, fa), fa, sa, j - 1);
      assert names[..j][1..] == names[1..][..j - 1] == NamesOf(es[1..])[..j - 1];
      assert |NamesBytes(names[..j])| == |es[0].name| + 1 + |NamesBytes(NamesOf(es[1..])[..j - 1])|;
    }
  }

  lemma {:induction false} AddedFit(es: seq<Entry>, strOff: nat, va: nat, offset: nat, fa: nat, sa: nat)
    requires IsPow2(fa) && IsPow2(sa) && strOff + |NamesBytes(NamesOf(es))| <= MAX_STRTAB
    requires VaAfter(es, va, sa) < 0x1_0000_0000 && OffsetAfter(es, offset, fa) < 0x1_0000_0000
    requires offset % fa == 0
    ensures AllFit(AddedFrom(es, strOff, va, offset, fa, sa))
  {
    hide RoundUp, LongName, NamesBytes, Le, Zeros;
    if es != [] {
      NamesOfTail(es);
      var size := |es[0].data|;
      RoundUpFrom(offset, size, fa);
      AddedFit(es[1..], strOff + |es[0].name| + 1, RoundUp(va + size, sa), RoundUp(offset + size, fa), fa, sa);
    }
  }

  /** The raw data of the first `n` sections, padded to the file alignment, ends before the next section starts. */
  predicate SpansFit(es: seq<Entry>, n: int, fa: nat, sa: nat)
    requires IsPow2(fa) && IsPow2(sa) && n <= |es|
  {
    forall j | 0 <= j < n :: RoundUp(|es[j].data|, fa) <= RoundUp(|es[j].data|, sa)
  }

  /** They do whenever sections are aligned at least as coarsely in memory as in the file. */
  lemma CoarserSpansFit(es: seq<Entry>, n: int, fa: nat, sa: nat)
    requires IsPow2(fa) && IsPow2(sa) && n <= |es| && fa <= sa
    ensures SpansFit(es, n, fa, sa)
  {
    hide RoundUp, IsPow2;
    forall j | 0 <= j < n ensures RoundUp(|es[j].data|, fa) <= RoundUp(|es[j].data|, sa) {
      RoundUpCoarser(|es[j].data|, fa, sa);
    }
  }

  lemma {:induction false} AddedSpans(es: seq<Entry>, strOff: nat, va: nat, offset: nat, fa: nat, sa: nat, j: nat)
    requires IsPow2(fa) && IsPow2(sa) && strOff + |NamesBytes(NamesOf(es))| <= MAX_STRTAB
    requires va % sa == 0 && j < |es|
    ensures var added := AddedFrom(es, strOff, va, offset, fa, sa);
            && Span(added[j]) == RoundUp(|es[j].data|, fa)
            && (j == 0 ==> added[j].va == va)
            && (j + 1 < |es| ==> added[j + 1].va == added[j].va + RoundUp(|es[j].data|, sa))
  {
    hide RoundUp, IsPow2, LongName, NamesBytes, Le, Zeros;
    NamesOfTail(es);
    var size := |es[0].data|;
    RoundUpFrom(va, size, sa);
    if j > 0 {
      AddedSpans(es[1..], strOff + |es[0].name| + 1, RoundUp(va + size, sa), RoundUp(offset + size, fa), fa, sa, j - 1);
    } else if |es| > 1 {
      AddedSpans(es[1..], strOff + |es[0].name| + 1, RoundUp(va + size, sa), RoundUp(offset + size, fa), fa, sa, 0);
    }
  }

  /** `v` is the first multiple of `align` that is not below `least`. */
  predicate FirstFrom(v: nat, least: nat, align: nat)
    requires align > 0
  {
    v % align == 0 && least <= v < least + align
  }

  /** Each section starts at the first aligned address behind the contents of the one before it. */
  lemma {:induction false} NextIsFirst(es: seq<Entry>, strOff: nat, va: nat, offset: nat, fa: nat, sa: nat, j: nat)
    requires IsPow2(fa) && IsPow2(sa) && strOff + |NamesBytes(NamesOf(es))| <= MAX_STRTAB && j + 1 < |es|
    ensures var added := AddedFrom(es, strOff, va, offset, fa, sa);
            sa > 0 && FirstFrom(added[j + 1].va, added[j].va + added[j].vSize, sa)
    decreases j
  {
    hide RoundUp, IsPow2, LongName, NamesBytes, Le, Zeros;
    NamesOfTail(es);
    var size := |es[0].data|;
    var strOff1, va1, offset1 := strOff + |es[0].name| + 1, RoundUp(va + size, sa), RoundUp(offset + size, fa);
    if j > 0 {
      NextIsFirst(es[1..], strOff1, va1, offset1, fa, sa, j - 1);
    } else {
      assert AddedFrom(es[1..], strOff1, va1, offset1, fa, sa)[0].va == va1;
    }
  }

  /** The image ends at the first one behind the last section's contents. */
  lemma {:induction false} EndIsFirst(es: seq<Entry>, strOff: nat, va: nat, offset: nat, fa: nat, sa: nat)
    requires IsPow2(fa) && IsPow2(sa) && strOff + |NamesBytes(NamesOf(es))| <= MAX_STRTAB && es != []
    ensures var last := AddedFrom(es, strOff, va, offset, fa, sa)[|es| - 1];
            sa > 0 && FirstFrom(VaAfter(es, va, sa), last.va + last.vSize, sa)
  {
    hide RoundUp, IsPow2, LongName, NamesBytes, Le, Zeros;
    NamesOfTail(es);
    var size := |es[0].data|;
    if |es| > 1 {
      EndIsFirst(es[1..], strOff + |es[0].name| + 1, RoundUp(va + size, sa), RoundUp(offset + size, fa), fa, sa);
    }
  }

  lemma StartIs(es: seq<Entry>, strOff: nat, va: nat, offset: nat, fa: nat, sa: nat)
    requires IsPow2(fa) && IsPow2(sa) && strOff + |NamesBytes(NamesOf(es))| <= MAX_STRTAB && es != []
    ensures AddedFrom(es, strOff, va, offset, fa, sa)[0].va == va
  {
    hide RoundUp, IsPow2, LongName, NamesBytes, Le, Zeros;
  }

  /** A section of which all before it fit is not reached by any of them. */
  lemma FitIsClear(es: seq<Entry>, strOff: nat, va: nat, offset: nat, fa: nat, sa: nat, i: nat, j: nat)
    requires IsPow2(fa) && IsPow2(sa) && strOff + |NamesBytes(NamesOf(es))| <= MAX_STRTAB
    requires va % sa == 0 && offset % fa == 0 && i < j < |es| && SpansFit(es, j, fa, sa)
    ensures var added := AddedFrom(es, strOff, va, offset, fa, sa); added[i].va + Span(added[i]) <= added[j].va
  {
    hide RoundUp, IsPow2, AddedFrom, NamesBytes, VaAfter, OffsetAfter;
    AddedSpans(es, strOff, va, offset, fa, sa, i);
    AddedLaidOut(es, strOff, va, offset, fa, sa);
  }

  /** One that does not fit has the address of the next. */
  lemma UnfitOverlaps(es: seq<Entry>, strOff: nat, va: nat, offset: nat, fa: nat, sa: nat, j: nat)
    requires IsPow2(fa) && IsPow2(sa) && strOff + |NamesBytes(NamesOf(es))| <= MAX_STRTAB && EntriesOk(es)
    requires va % sa == 0 && offset % fa == 0 && j + 1 < |es|
    requires RoundUp(|es[j].data|, fa) > RoundUp(|es[j].data|, sa)
    ensures var added := AddedFrom(es, strOff, va, offset, fa, sa);
            && Contains(added[j], added[j + 1].va) && added[j + 1].vSize > 0
            && (forall k | 0 <= k <= j :: added[k].va < added[j + 1].va)
            && forall k | 0 <= k < |es| :: va <= added[k].va
  {
    hide RoundUp, IsPow2, AddedFrom, NamesBytes, VaAfter, OffsetAfter, NoNul, IsDebugName, Span;
    AddedSpans(es, strOff, va, offset, fa, sa, j);
    AddedLaidOut(es, strOff, va, offset, fa, sa);
    assert forall k | 0 <= k < |es| :: es[k].data != [];
  }

  lemma OneByteRounded()
    ensures IsPow2(0x200) && IsPow2(0x10) && RoundUp(1, 0x200) == 0x200 && RoundUp(1, 0x10) == 0x10
  {
    assert IsPow2(0x2) && IsPow2(0x4) && IsPow2(0x8) && IsPow2(0x10) && IsPow2(0x20) && IsPow2(0x40) && IsPow2(0x80);
    hide RoundUp;
    RoundUpIs(1, 0x200, 0x200);
    RoundUpIs(1, 0x10, 0x10);
  }

  /** Sections of one byte, padded to 512 in the file but 16 apart in memory, do not fit, and the first one covers
      the second one's address. */
  lemma FinerOverlaps(es: seq<Entry>)
    requires es == [Entry(ABBREV, [1]), Entry(LINE, [1])]
    ensures EntriesOk(es) && 4 + |NamesBytes(NamesOf(es))| <= MAX_STRTAB
    ensures IsPow2(0x200) && IsPow2(0x10) && !SpansFit(es, 1, 0x200, 0x10)
    ensures var added := AddedFrom(es, 4, 0x1000, 0x400, 0x200, 0x10);
            Contains(added[0], added[1].va) && added[1].vSize == 1
  {
    hide RoundUp, IsPow2, Zeros, Le, NoNul, IsDebugName, NamesBytes, Contains, Span;
    OneByteRounded();
    NamesDiffer();
    assert ABBREV in {ABBREV, STR, LINE_STR, LINE, INFO} && LINE in {ABBREV, STR, LINE_STR, LINE, INFO};
    TwoNames(NamesOf(es));
    assert es[0].data == es[1].data == [1] && |es[1].data| == 1;
    UnfitOverlaps(es, 4, 0x1000, 0x400, 0x200, 0x10, 0);
    AddedLaidOut(es, 4, 0x1000, 0x400, 0x200, 0x10);
  }

  lemma TwoNames(names: seq<bytes>)
    requires |names| == 2
    ensures |NamesBytes(names)| == |names[0]| + |names[1]| + 2
  {
    var last := names[1..];
    assert last[1..] == [] && NamesBytes(last) == last[0] + [0] + NamesBytes([]);
    assert NamesBytes(names) == names[0] + [0] + NamesBytes(last);
  }

  // ----- Renaming stale sections --------------------------------------------------------------------------

  function Rename(sec: Section, strtab: Option<bytes>): Section {
    if IsDebugName(ResolveName(sec.name, strtab)) then sec.(name := OLD_DW) else sec
  }

  function RenameAll(secs: seq<Section>, strtab: Option<bytes>): (r: seq<Section>)
    ensures |r| == |secs|
  {
    seq(|secs|, i requires 0 <= i < |secs| => Rename(secs[i], strtab))
  }

  lemma RenameOne(s: bytes, e: nat, hdr: Hdr, secs: seq<Section>, i: nat)
    requires HeadIs(s, e, hdr, secs) && i < |secs|
    ensures TableAt(e, hdr) + SECTION_SIZE * i + 8 <= |s|
    ensures var t := Put(s, TableAt(e, hdr) + SECTION_SIZE * i, OLD_DW);
            && HeadIs(t, e, hdr, secs[i := secs[i].(name := OLD_DW)])
            && SameFrom(s, t, TableAt(e, hdr) + SECTION_SIZE * |secs|)
  {
    hide Put, EncSection, HeadersOk, ReadHdr, EncSections;
    assert AllFit(secs) && SectionFits(secs[i]);
    PutName(secs[i], OLD_DW);
    hide HeadIs, SameFrom;
    PutSectionHead(s, e, hdr, secs, i, 0, OLD_DW, secs[i].(name := OLD_DW));
  }

  /** Gives sections that already have a `.debug` name another one. Names are the input's. */
  method RenameStale(image: bytes, peIn: bytes, e: nat, hdr: Hdr, ghost inHdr: Hdr, ghost inSecs: seq<Section>,
                     ghost secs: seq<Section>,
                     strtab: Option<bytes>) returns (out: bytes)
    requires HeadIs(image, e, hdr, secs) && |secs| == hdr.nSections == |inSecs|
    requires HeadIs(peIn, e, inHdr, inSecs) && inHdr.optSize == hdr.optSize
    requires forall i | 0 <= i < |secs| :: inSecs[i].name == secs[i].name
    ensures HeadIs(out, e, hdr, RenameAll(secs, strtab))
    ensures SameFrom(image, out, TableAt(e, hdr) + SECTION_SIZE * |secs|)
  {
    hide HeadIs, Put, EncSection, ReadSection, ResolveName, IsDebugName;
    out := image;
    ghost var now := secs;
    SameFromSelf(image, e, hdr, secs);
    for i := 0 to hdr.nSections
      invariant |now| == |secs| && HeadIs(out, e, hdr, now)
      invariant forall j | 0 <= j < |secs| :: now[j] == if j < i then Rename(secs[j], strtab) else secs[j]
      invariant SameFrom(image, out, TableAt(e, hdr) + SECTION_SIZE * |secs|)
    {
      var at := TableAt(e, hdr) + SECTION_SIZE * i;
      SectionOfHead(peIn, e, inHdr, inSecs, i);
      assert TableAt(e, inHdr) == TableAt(e, hdr);
      var sec := ReadSection(peIn, at);
      assert sec.name == secs[i].name;
      var name := ResolveName(sec.name, strtab);
      if IsDebugName(name) {
        ghost var before := out;
        RenameOne(out, e, hdr, now, i);
        out := Put(out, at, OLD_DW);
        now := now[i := now[i].(name := OLD_DW)];
        SameFromTrans(image, before, out, TableAt(e, hdr) + SECTION_SIZE * |secs|, TableAt(e, hdr) + SECTION_SIZE * |secs|,
                      TableAt(e, hdr) + SECTION_SIZE * |secs|);
      }
    }
    assert now == RenameAll(secs, strtab);
  }

  // ----- Writing the new sections ---------------------------------------------------------------------------

  /** The data of each added section is at its file offset. */
  predicate DataAt(s: bytes, added: seq<Section>, es: seq<Entry>) {
    && |added| == |es|
    && forall j | 0 <= j < |es| :: SliceIs(s, added[j].rawPtr, es[j].data)
  }

  /** Outside the new headers and the data area, nothing changes. */
  predicate OthersKept(s: bytes, t: bytes, headersEnd: nat, dataStart: nat, dataEnd: nat) {
    && |s| == |t| && headersEnd <= dataStart <= dataEnd <= |s|
    && s[headersEnd..dataStart] == t[headersEnd..dataStart] && s[dataEnd..] == t[dataEnd..]
  }

  /** One section: its header after the others, its data at `sec.rawPtr`. */
  lemma OneSection(s: bytes, e: nat, hdr: Hdr, secs: seq<Section>, sec: Section, data: bytes,
                   headersEnd: nat, start: nat, next: nat, end: nat)
    requires HeadIs(s, e, hdr, secs) && SectionFits(sec)
    requires TableAt(e, hdr) + SECTION_SIZE * (|secs| + 1) <= headersEnd <= start <= sec.rawPtr
    requires sec.rawPtr + |data| <= next <= end <= |s|
    ensures var t := Put(Put(s, TableAt(e, hdr) + SECTION_SIZE * |secs|, EncSection(sec)), sec.rawPtr, data);
            && HeadIs(t, e, hdr, secs + [sec]) && |t| == |s|
            && t[headersEnd..sec.rawPtr] == s[headersEnd..sec.rawPtr]
            && t[sec.rawPtr..sec.rawPtr + |data|] == data
            && t[end..] == s[end..]
  {
    hide HeadIs, Put, EncSection, SectionFits;
    var at := TableAt(e, hdr) + SECTION_SIZE * |secs|;
    var u := Put(s, at, EncSection(sec));
    AddSectionHead(s, e, hdr, secs, sec);
    PutBeyondHead(u, e, hdr, secs + [sec], sec.rawPtr, data);
    PutOther(u, sec.rawPtr, data, headersEnd, sec.rawPtr);
    PutOther(u, sec.rawPtr, data, end, |u|);
    PutSame(u, sec.rawPtr, data);
    PutOther(s, at, EncSection(sec), headersEnd, sec.rawPtr);
    PutOther(s, at, EncSection(sec), end, |s|);
    ToEnd(s, u, end);
    ToEnd(u, Put(u, sec.rawPtr, data), end);
  }

  lemma AddedStep(es: seq<Entry>, strOff: nat, va: nat, offset: nat, fa: nat, sa: nat)
    requires es != [] && IsPow2(fa) && IsPow2(sa) && strOff + |NamesBytes(NamesOf(es))| <= MAX_STRTAB
    requires offset % fa == 0
    ensures strOff < MAX_STRTAB
            && strOff + |es[0].name| + 1 + |NamesBytes(NamesOf(es[1..]))| == strOff + |NamesBytes(NamesOf(es))|
    ensures var size := |es[0].data|;
            var va1, offset1 := RoundUp(va + size, sa), RoundUp(offset + size, fa);
            && AddedFrom(es, strOff, va, offset, fa, sa)
               == [NewSection(LongName(strOff), size, va, offset, fa, CHARACTERISTICS)]
                  + AddedFrom(es[1..], strOff + |es[0].name| + 1, va1, offset1, fa, sa)
            && VaAfter(es, va, sa) == VaAfter(es[1..], va1, sa)
            && offset + size <= offset1 && offset1 % fa == 0
            && OffsetAfter(es, offset, fa) == OffsetAfter(es[1..], offset1, fa) >= offset1
  {
    hide RoundUp, LongName, NewSection, NamesBytes;
    NamesOfTail(es);
    RoundUpFrom(offset, |es[0].data|, fa);
  }

  lemma DataStep(s: bytes, t: bytes, all: seq<Section>, es: seq<Entry>, i: nat, lo: nat, cur: nat)
    requires i < |es| == |all| && |s| == |t| && DataAt(s, all[..i], es[..i])
    requires all[i].rawPtr == cur && lo <= cur && cur + |es[i].data| <= |t|
    requires forall j | 0 <= j < i :: lo <= all[j].rawPtr && all[j].rawPtr + |es[j].data| <= cur
    requires t[lo..cur] == s[lo..cur] && t[cur..cur + |es[i].data|] == es[i].data
    ensures DataAt(t, all[..i + 1], es[..i + 1])
  {
    forall j | 0 <= j < i
      ensures SliceIs(t, all[j].rawPtr, es[j].data)
    {
      var a, b := all[j].rawPtr, all[j].rawPtr + |es[j].data|;
      assert SliceIs(s, all[..i][j].rawPtr, es[..i][j].data);
      SubRange(t, lo, cur, a - lo, b - lo);
      SubRange(s, lo, cur, a - lo, b - lo);
    }
  }

  lemma OthersStep(r: bytes, s: bytes, t: bytes, headersEnd: nat, start: nat, cur: nat, end: nat)
    requires OthersKept(r, s, headersEnd, start, end) && start <= cur <= end && |t| == |s|
    requires t[headersEnd..cur] == s[headersEnd..cur] && t[end..] == s[end..]
    ensures OthersKept(r, t, headersEnd, start, end)
  {
    SubRange(t, headersEnd, cur, 0, start - headersEnd);
    SubRange(s, headersEnd, cur, 0, start - headersEnd);
  }

  /** The cursors of the writing loop at section `i`: what is left to lay out from them is the rest of `all`. */
  ghost predicate Cursors(es: seq<Entry>, all: seq<Section>, i: nat, str: nat, va: nat, cur: nat, vaEnd: nat, end: nat,
                          fa: nat, sa: nat)
    requires IsPow2(fa) && IsPow2(sa)
  {
    && i <= |es| == |all| && str + |NamesBytes(NamesOf(es[i..]))| <= MAX_STRTAB && cur % fa == 0
    && AddedFrom(es[i..], str, va, cur, fa, sa) == all[i..]
    && end == OffsetAfter(es[i..], cur, fa) && vaEnd == VaAfter(es[i..], va, sa)
  }

  lemma CursorsStep(es: seq<Entry>, all: seq<Section>, i: nat, str: nat, va: nat, cur: nat, vaEnd: nat, end: nat,
                    fa: nat, sa: nat)
    requires IsPow2(fa) && IsPow2(sa) && Cursors(es, all, i, str, va, cur, vaEnd, end, fa, sa) && i < |es|
    ensures var size := |es[i].data|;
            && str < MAX_STRTAB && all[i] == NewSection(LongName(str), size, va, cur, fa, CHARACTERISTICS)
            && cur + size <= RoundUp(cur + size, fa) <= end
            && Cursors(es, all, i + 1, str + |es[i].name| + 1, RoundUp(va + size, sa), RoundUp(cur + size, fa), vaEnd, end,
                       fa, sa)
  {
    hide RoundUp, IsPow2, AddedFrom, VaAfter, OffsetAfter, NamesBytes, LongName, NewSection;
    var rest := es[i..];
    AddedStep(rest, str, va, cur, fa, sa);
    assert rest[0] == es[i] && rest[1..] == es[i + 1..];
    assert all[i..][0] == all[i] && all[i..][1..] == all[i + 1..];
  }

  lemma CursorsStart(es: seq<Entry>, str: nat, va: nat, start: nat, fa: nat, sa: nat)
    requires IsPow2(fa) && IsPow2(sa) && str + |NamesBytes(NamesOf(es))| <= MAX_STRTAB && start % fa == 0
    ensures Cursors(es, AddedFrom(es, str, va, start, fa, sa), 0, str, va, start, VaAfter(es, va, sa),
                    OffsetAfter(es, start, fa), fa, sa)
  {
    hide RoundUp, IsPow2, AddedFrom, VaAfter, OffsetAfter, NamesBytes;
    assert es[0..] == es;
    var all := AddedFrom(es, str, va, start, fa, sa);
    assert all[0..] == all;
  }

  lemma CursorsEnd(es: seq<Entry>, all: seq<Section>, str: nat, va: nat, cur: nat, vaEnd: nat, end: nat, fa: nat, sa: nat)
    requires IsPow2(fa) && IsPow2(sa) && Cursors(es, all, |es|, str, va, cur, vaEnd, end, fa, sa)
    ensures va == vaEnd
  {
    hide RoundUp, IsPow2, AddedFrom, OffsetAfter, NamesBytes;
    assert es[|es|..] == [];
  }

  /** Writes the headers after the old ones and the data from `start`; the cursors end where the layout said. */
  method WriteSections(image: bytes, e: nat, hdr: Hdr, ghost secs: seq<Section>, es: seq<Entry>, offsets: seq<nat>,
                       ghost strOff: nat,
                       va: nat, start: nat, ghost headersEnd: nat, ghost end: nat)
    returns (out: bytes, endVa: nat)
    requires HeadIs(image, e, hdr, secs) && |secs| == hdr.nSections && |offsets| == |es|
    requires IsPow2(hdr.fileAlign) && IsPow2(hdr.sectAlign) && start % hdr.fileAlign == 0
    requires strOff + |NamesBytes(NamesOf(es))| <= MAX_STRTAB
    requires forall j | 0 <= j < |es| :: offsets[j] == strOff + |NamesBytes(NamesOf(es)[..j])|
    requires TableAt(e, hdr) + SECTION_SIZE * (|secs| + |es|) <= headersEnd <= start
    requires end == OffsetAfter(es, start, hdr.fileAlign) <= |image|
    requires AllFit(AddedFrom(es, strOff, va, start, hdr.fileAlign, hdr.sectAlign))
    ensures HeadIs(out, e, hdr, secs + AddedFrom(es, strOff, va, start, hdr.fileAlign, hdr.sectAlign))
    ensures DataAt(out, AddedFrom(es, strOff, va, start, hdr.fileAlign, hdr.sectAlign), es)
    ensures OthersKept(image, out, headersEnd, start, end)
    ensures endVa == VaAfter(es, va, hdr.sectAlign)
  {
    hide HeadIs, Put, EncSection, SectionFits, NamesBytes, LongName, RoundUp, IsPow2, AddedFrom, VaAfter, OffsetAfter,
         DataAt, Zeros, Le, Cursors, NewSection, OthersKept, TableAt;
    out := image;
    var curVa, cur := va, start;
    ghost var all, vaEnd := AddedFrom(es, strOff, va, start, hdr.fileAlign, hdr.sectAlign), VaAfter(es, va, hdr.sectAlign);
    ghost var curStr := strOff;
    assert secs + all[..0] == secs;
    assert NamesOf(es)[..0] == [];
    NoData(out, all[..0], es[..0]);
    NoNames(NamesOf(es)[..0]);
    CursorsStart(es, strOff, va, start, hdr.fileAlign, hdr.sectAlign);
    NothingTouched(out, headersEnd, start, end);
    for i := 0 to |es|
      invariant |out| == |image| && start <= cur <= end
      invariant curStr == strOff + |NamesBytes(NamesOf(es)[..i])|
      invariant Cursors(es, all, i, curStr, curVa, cur, vaEnd, end, hdr.fileAlign, hdr.sectAlign)
      invariant HeadIs(out, e, hdr, secs + all[..i])
      invariant forall j | 0 <= j < i :: headersEnd <= all[j].rawPtr && all[j].rawPtr + |es[j].data| <= cur
      invariant DataAt(out, all[..i], es[..i])
      invariant OthersKept(image, out, headersEnd, start, end)
    {
      CursorsStep(es, all, i, curStr, curVa, cur, vaEnd, end, hdr.fileAlign, hdr.sectAlign);
      var size := |es[i].data|;
      var sec := NewSection(LongName(offsets[i]), size, curVa, cur, hdr.fileAlign, CHARACTERISTICS);
      SectionPlace(LongName(offsets[i]), size, curVa, cur, hdr.fileAlign, CHARACTERISTICS);
      assert sec == all[i] && SectionFits(all[i]);
      ghost var before := out;
      OneSection(out, e, hdr, secs + all[..i], sec, es[i].data, headersEnd, start, RoundUp(cur + size, hdr.fileAlign), end);
      out := Put(out, TableAt(e, hdr) + SECTION_SIZE * (hdr.nSections + i), EncSection(sec));
      out := Put(out, cur, es[i].data);
      assert secs + all[..i] + [sec] == secs + all[..i + 1];
      DataStep(before, out, all, es, i, headersEnd, cur);
      OthersStep(image, before, out, headersEnd, start, cur, end);
      curVa := RoundUp(curVa + size, hdr.sectAlign);
      cur := RoundUp(cur + size, hdr.fileAlign);
      curStr := curStr + |es[i].name| + 1;
      assert NamesOf(es)[..i + 1] == NamesOf(es)[..i] + [es[i].name];
      NamesBytesAdd(NamesOf(es)[..i], es[i].name);
    }
    assert all[..|es|] == all && es[..|es|] == es;
    CursorsEnd(es, all, curStr, curVa, cur, vaEnd, end, hdr.fileAlign, hdr.sectAlign);
    endVa := curVa;
  }

  lemma SectionPlace(name: bytes, size: nat, va: nat, offset: nat, fa: nat, characteristics: nat)
    requires IsPow2(fa)
    ensures NewSection(name, size, va, offset, fa, characteristics).rawPtr == offset
  {
  }

  lemma NothingTouched(s: bytes, headersEnd: nat, start: nat, end: nat)
    requires headersEnd <= start <= end <= |s|
    ensures OthersKept(s, s, headersEnd, start, end)
  {
  }

  lemma NoData(s: bytes, added: seq<Section>, es: seq<Entry>)
    requires added == [] && es == []
    ensures DataAt(s, added, es)
  {
  }

  // ----- The layout of an injection ----------------------------------------------------------------------

  /** The string table, or the empty one that stands in for a missing table. */
  function OldTable(a: bytes, hdr: Hdr): (r: bytes)
    requires SymbolsOk(a, hdr)
    ensures |r| >= 4
  {
    if hdr.symPtr == 0 then [4, 0, 0, 0] else StrTab(a, hdr).value
  }

  datatype Layout = Layout(shift: nat, va: nat, start: nat, end: nat, strtab: bytes, added: seq<Section>)

  function StrTabSize(a: bytes, es: seq<Entry>): nat
    requires WellFormed(a)
  {
    |OldTable(a, ParsePe(a).hdr)| + |NamesBytes(NamesOf(es))|
  }

  function LayoutOf(a: bytes, es: seq<Entry>): Layout
    requires WellFormed(a) && StrTabSize(a, es) <= MAX_STRTAB
  {
    var pe := ParsePe(a);
    var shift := HeaderExpansion(pe, SECTION_SIZE * |es|);
    var va := RoundUp(VaEnd(pe.secs), pe.hdr.sectAlign);
    var start := RoundUp(FreeOffset(a, pe, shift), pe.hdr.fileAlign);
    var old_ := OldTable(a, pe.hdr);
    Layout(shift, va, start, OffsetAfter(es, start, pe.hdr.fileAlign), ExtendedStrTab(old_, NamesOf(es)),
           AddedFrom(es, |old_|, va, start, pe.hdr.fileAlign, pe.hdr.sectAlign))
  }

  /** A well-formed image whose extension overflows neither 32-bit fields nor the seven digits of a name field. */
  predicate Ready(a: bytes, es: seq<Entry>) {
    WellFormed(a) && StrTabSize(a, es) <= MAX_STRTAB &&
    var pe, l := ParsePe(a), LayoutOf(a, es);
    && l.end + SYMBOL_SIZE * pe.hdr.nSymbols + |l.strtab| < 0x1_0000_0000
    && VaAfter(es, l.va, pe.hdr.sectAlign) < 0x1_0000_0000
    && pe.hdr.nSections + |es| < 0x1_0000
  }

  /** The output: the input with its headers patched, extended as laid out. */
  ghost predicate IsInjected(a: bytes, b: bytes, es: seq<Entry>)
    requires Ready(a, es)
  {
    var pe, l := ParsePe(a), LayoutOf(a, es);
    && HasTable(b)
    && ParsePe(b) == Pe(pe.e,
                        FinalHdr(GrownHdr(pe.hdr, l.shift), pe.hdr.nSections + |es|, l.end,
                                 VaAfter(es, l.va, pe.hdr.sectAlign)),
                        RenameAll(ShiftAll(pe.secs, l.shift), StrTab(a, pe.hdr)) + l.added)
    && Moved(a, b, pe.hdr.sizeOfHeaders, l.shift)
    && DataAt(b, l.added, es)
    && SliceIs(b, l.end + SYMBOL_SIZE * pe.hdr.nSymbols, l.strtab)
    && SliceIs(b, l.end, SymbolBytes(a, pe.hdr))
  }

  /** Why an injection is refused, in the order of the checks. */
  function Refusal(a: bytes, es: seq<Entry>): Option<Error> {
    if es == [] then Some(NothingToInject)
    else
      match CheckHeaders(a)
      case Some(error) => Some(error)
      case None => if SymbolsInBounds(a) then None else Some(SymbolsOutOfBounds)
  }

  lemma ReadyBounds(a: bytes, es: seq<Entry>)
    requires Ready(a, es) && EntriesOk(es)
    ensures var pe, l := ParsePe(a), LayoutOf(a, es);
            && AllFit(pe.secs) && AllFit(ShiftAll(pe.secs, l.shift)) && AllFit(l.added)
            && (forall i | 0 <= i < |pe.secs| && pe.secs[i].rawPtr != 0 :: InWidth(pe.secs[i].rawPtr + l.shift, 4))
            && InWidth(pe.hdr.sizeOfHeaders + l.shift, 4) && InWidth(pe.hdr.symPtr + l.shift, 4)
            && TableEnd(pe) + SECTION_SIZE * |es| <= pe.hdr.sizeOfHeaders + l.shift <= |a| + l.shift <= l.start <= l.end
            && l.start % pe.hdr.fileAlign == 0 && l.va % pe.hdr.sectAlign == 0
            && InWidth(l.end, 4) && InWidth(|l.strtab|, 4)
            && InWidth(VaAfter(es, l.va, pe.hdr.sectAlign), 4) && InWidth(pe.hdr.nSections + |es|, 2)
            && LaidOut(es, l.added, l.va, l.start, VaAfter(es, l.va, pe.hdr.sectAlign), l.end,
                       pe.hdr.fileAlign, pe.hdr.sectAlign)
            && forall j | 0 <= j < |es| :: l.start <= l.added[j].rawPtr
  {
    hide RoundUp, HasTable, NameOk, StrTab, NamesBytes, Le, ReadSections, VaEnd, FileEnd, HeadersOk, ReadHdr,
         SectionFits, Field;
    var pe, l := ParsePe(a), LayoutOf(a, es);
    PeFits(a);
    AddedFit(es, |OldTable(a, pe.hdr)|, l.va, l.start, pe.hdr.fileAlign, pe.hdr.sectAlign);
    AddedLaidOut(es, |OldTable(a, pe.hdr)|, l.va, l.start, pe.hdr.fileAlign, pe.hdr.sectAlign);
    forall i | 0 <= i < |pe.secs|
      ensures SectionFits(Shift(pe.secs[i], l.shift))
      ensures pe.secs[i].rawPtr != 0 ==> InWidth(pe.secs[i].rawPtr + l.shift, 4)
    {
      assert RawOk(pe.secs[i], pe.hdr, |a|);
      ShiftFits(pe.secs[i], l.shift);
    }
  }

  lemma ShiftFits(sec: Section, shift: nat)
    requires SectionFits(sec) && (sec.rawPtr != 0 ==> sec.rawPtr + shift < 0x1_0000_0000)
    ensures SectionFits(Shift(sec, shift))
  {
  }

  lemma PeFits(a: bytes)
    requires HasTable(a)
    ensures AllFit(ParsePe(a).secs)
  {
    hide SectionFits, ReadSections;
    var pe := ParsePe(a);
    ReadSectionsFit(a, TableAt(pe.e, pe.hdr), pe.hdr.nSections);
  }

  /** Injects the nonempty sections, or says why not. */
  method InjectDwarfSections(peIn: bytes, sections: DwarfSections) returns (r: Result)
    requires Refusal(peIn, Entries(sections)).None? ==> Ready(peIn, Entries(sections))
    ensures Refusal(peIn, Entries(sections)).Some? ==> r == Err(Refusal(peIn, Entries(sections)).value)
    ensures Refusal(peIn, Entries(sections)).None? ==> r.Ok? && IsInjected(peIn, r.image, Entries(sections))
  {
    var es := Entries(sections);
    EntriesAreOk(sections);
    if es == [] {
      return Err(NothingToInject);
    }
    var bad := CheckHeaders(peIn);
    if bad.Some? {
      return Err(bad.value);
    }
    if !SymbolsInBounds(peIn) {
      return Err(SymbolsOutOfBounds);
    }
    var out := BuildInjected(peIn, es);
    r := Ok(out);
  }

  method BuildInjected(peIn: bytes, es: seq<Entry>) returns (out: bytes)
    requires Ready(peIn, es) && EntriesOk(es)
    ensures IsInjected(peIn, out, es)
  {
    hide WellFormed, LayoutOf, StrTabSize, OldTable, HeadIs, IsInjected, EntriesOk, HeaderExpansion, FreeOffset, VaEnd,
         NamesBytes, AddedFrom, OffsetAfter, VaAfter, RoundUp, ReadHdr, AllFit, ShiftAll, RenameAll, InWidth, Moved,
         DataAt, ExtendedStrTab, ReadSections;
    ReadyParts(peIn, es);
    ReadyBounds(peIn, es);
    HeadOfParsed(peIn);
    ghost var pe, l := ParsePe(peIn), LayoutOf(peIn, es);
    var e := Lfanew(peIn);
    var hdr := ReadHdr(peIn, e);
    assert pe.e == e && pe.hdr == hdr;
    var shift := HeaderExpansion(ParsePe(peIn), SECTION_SIZE * |es|);
    var oldTable := OldTable(peIn, hdr);
    var strtab, offsets := BuildStrTab(oldTable, NamesOf(es));
    var va, start := ComputeLayout(peIn, shift);
    var end := DataEnd(es, start, hdr.fileAlign);
    var copy := CopyAndGrow(peIn, e, hdr, pe.secs, shift, end + SYMBOL_SIZE * hdr.nSymbols + |strtab|);
    out := Populate(copy, peIn, e, hdr, pe.secs, shift, es, strtab, offsets, |oldTable|, va, start, end);
    InjectedAsLaidOut(peIn, out, es);
  }

  /** The layout, in terms of the parts that compute it. */
  lemma ReadyParts(a: bytes, es: seq<Entry>)
    requires Ready(a, es)
    ensures WellFormed(a) && HasTable(a) && StrTabSize(a, es) <= MAX_STRTAB && IsPow2(ParsePe(a).hdr.fileAlign)
            && IsPow2(ParsePe(a).hdr.sectAlign)
    ensures SymbolsOk(a, ParsePe(a).hdr) && TableEnd(ParsePe(a)) <= ParsePe(a).hdr.sizeOfHeaders <= |a|
    ensures var pe, l, old_ := ParsePe(a), LayoutOf(a, es), OldTable(a, ParsePe(a).hdr);
            && StrTabSize(a, es) == |old_| + |NamesBytes(NamesOf(es))|
            && l.shift == HeaderExpansion(pe, SECTION_SIZE * |es|) && l.va == RoundUp(VaEnd(pe.secs), pe.hdr.sectAlign)
            && l.start == RoundUp(FreeOffset(a, pe, l.shift), pe.hdr.fileAlign)
            && l.end == OffsetAfter(es, l.start, pe.hdr.fileAlign) && l.strtab == ExtendedStrTab(old_, NamesOf(es))
            && l.added == AddedFrom(es, |old_|, l.va, l.start, pe.hdr.fileAlign, pe.hdr.sectAlign)
  {
  }

  lemma InjectedAsLaidOut(a: bytes, b: bytes, es: seq<Entry>)
    requires Ready(a, es)
    requires var pe, l := ParsePe(a), LayoutOf(a, es);
             && HeadIs(b, pe.e,
                       FinalHdr(GrownHdr(pe.hdr, l.shift), pe.hdr.nSections + |es|, l.end,
                                VaAfter(es, l.va, pe.hdr.sectAlign)),
                       RenameAll(ShiftAll(pe.secs, l.shift), StrTab(a, pe.hdr)) + l.added)
             && Moved(a, b, pe.hdr.sizeOfHeaders, l.shift) && DataAt(b, l.added, es)
             && SliceIs(b, l.end + SYMBOL_SIZE * pe.hdr.nSymbols, l.strtab) && SliceIs(b, l.end, SymbolBytes(a, pe.hdr))
    ensures IsInjected(a, b, es)
  {
    hide HeadIs, Moved, DataAt, SliceIs, SymbolBytes, AddedFrom, ShiftAll, RenameAll, RoundUp, VaAfter, NamesBytes,
         OffsetAfter, ReadHdr, FreeOffset, HasTable, NameOk, ExtendedStrTab, LayoutOf, Ready, WellFormed, StrTabSize,
         GrownHdr, OldTable, IsPow2, SymbolsOk, TableAt;
    ReadyParts(a, es);
    var pe, l := ParsePe(a), LayoutOf(a, es);
    ParsedOfHead(b, pe.e,
                 FinalHdr(GrownHdr(pe.hdr, l.shift), pe.hdr.nSections + |es|, l.end,
                          VaAfter(es, l.va, pe.hdr.sectAlign)),
                 RenameAll(ShiftAll(pe.secs, l.shift), StrTab(a, pe.hdr)) + l.added);
  }

  method Populate(image: bytes, peIn: bytes, e: nat, hdr: Hdr, ghost secs: seq<Section>, shift: nat, es: seq<Entry>,
                  strtab: bytes, offsets: seq<nat>, ghost strOff: nat, va: nat, start: nat, end: nat)
    returns (out: bytes)
    requires HeadIs(peIn, e, hdr, secs) && |secs| == hdr.nSections && SymbolsOk(peIn, hdr)
    requires HeadIs(image, e, GrownHdr(hdr, shift), ShiftAll(secs, shift))
             && Moved(peIn, image, hdr.sizeOfHeaders, shift)
    requires IsPow2(hdr.fileAlign) && IsPow2(hdr.sectAlign) && start % hdr.fileAlign == 0
    requires |offsets| == |es| && strOff + |NamesBytes(NamesOf(es))| <= MAX_STRTAB
    requires forall j | 0 <= j < |es| :: offsets[j] == strOff + |NamesBytes(NamesOf(es)[..j])|
    requires TableAt(e, hdr) + SECTION_SIZE * (|secs| + |es|) <= hdr.sizeOfHeaders + shift <= |peIn| + shift <= start
    requires end == OffsetAfter(es, start, hdr.fileAlign) && |image| == end + SYMBOL_SIZE * hdr.nSymbols + |strtab|
    requires AllFit(AddedFrom(es, strOff, va, start, hdr.fileAlign, hdr.sectAlign))
    requires forall j | 0 <= j < |es| :: start <= AddedFrom(es, strOff, va, start, hdr.fileAlign, hdr.sectAlign)[j].rawPtr
    requires InWidth(end, 4) && InWidth(hdr.nSections + |es|, 2) && InWidth(VaAfter(es, va, hdr.sectAlign), 4)
    ensures HeadIs(out, e, FinalHdr(GrownHdr(hdr, shift), hdr.nSections + |es|, end, VaAfter(es, va, hdr.sectAlign)),
                   RenameAll(ShiftAll(secs, shift), StrTab(peIn, hdr))
                   + AddedFrom(es, strOff, va, start, hdr.fileAlign, hdr.sectAlign))
    ensures Moved(peIn, out, hdr.sizeOfHeaders, shift)
    ensures DataAt(out, AddedFrom(es, strOff, va, start, hdr.fileAlign, hdr.sectAlign), es)
    ensures SliceIs(out, end + SYMBOL_SIZE * hdr.nSymbols, strtab)
    ensures SliceIs(out, end, SymbolBytes(peIn, hdr))
  {
    hide HeadIs, Moved, SliceIs, SymbolBytes, StrTab, AddedFrom, OffsetAfter, VaAfter, SymbolsOk, RenameAll, DataAt,
         SameFrom, OthersKept, InWidth, AllFit, ShiftAll, NamesBytes, GrownHdr, FinalHdr;
    ghost var table := TableAt(e, hdr) + SECTION_SIZE * |secs|;
    ghost var headers := hdr.sizeOfHeaders + shift;
    var h1 := GrownHdr(hdr, shift);
    GrownSame(hdr, shift);
    SameNames(secs, shift);
    ghost var renamed := RenameAll(ShiftAll(secs, shift), StrTab(peIn, hdr));
    var s1 := RenameStale(image, peIn, e, h1, hdr, secs, ShiftAll(secs, shift), StrTab(peIn, hdr));
    MovedPast(peIn, image, s1, hdr.sizeOfHeaders, shift, table);
    var s2 := PlaceSymbols(s1, peIn, hdr, shift, end, strtab);
    HeadKept(s1, s2, e, h1, renamed, end);
    Prefixes(s1, s2, end, headers);
    MovedKept(peIn, s1, s2, hdr.sizeOfHeaders, shift, end);
    var s3, endVa := WriteSections(s2, e, h1, renamed, es, offsets, strOff, va, start, headers, end);
    ghost var added := AddedFrom(es, strOff, va, start, hdr.fileAlign, hdr.sectAlign);
    out := PatchHeaders(s3, e, h1, renamed + added, hdr.nSections + |es|, end, endVa);
    AllKept(peIn, s2, s3, out, hdr, shift, start, end, strtab, table + SECTION_SIZE * |es|, added, es);
  }

  /** Past the section table, the last two steps keep everything but the data they write. */
  lemma AllKept(a: bytes, s2: bytes, s3: bytes, out: bytes, hdr: Hdr, shift: nat, start: nat, end: nat, strtab: bytes,
                table: nat, added: seq<Section>, es: seq<Entry>)
    requires SymbolsOk(a, hdr) && Moved(a, s2, hdr.sizeOfHeaders, shift)
    requires table <= hdr.sizeOfHeaders + shift <= |a| + shift <= start <= end
    requires OthersKept(s2, s3, hdr.sizeOfHeaders + shift, start, end) && SameFrom(s3, out, table)
    requires SliceIs(s2, end + SYMBOL_SIZE * hdr.nSymbols, strtab) && SliceIs(s2, end, SymbolBytes(a, hdr))
    requires DataAt(s3, added, es) && forall j | 0 <= j < |es| :: table <= added[j].rawPtr
    ensures Moved(a, out, hdr.sizeOfHeaders, shift) && DataAt(out, added, es)
    ensures SliceIs(out, end + SYMBOL_SIZE * hdr.nSymbols, strtab) && SliceIs(out, end, SymbolBytes(a, hdr))
  {
    hide SymbolBytes, SymbolsOk;
    MovedKept(a, s2, s3, hdr.sizeOfHeaders, shift, start);
    RangeKept(s3, out, table, hdr.sizeOfHeaders + shift, |s3|);
    MovedKept(a, s3, out, hdr.sizeOfHeaders, shift, |s3|);
    SliceKept(s2, s3, end, end + SYMBOL_SIZE * hdr.nSymbols, strtab);
    SliceKept(s2, s3, end, end, SymbolBytes(a, hdr));
    SliceKept(s3, out, table, end + SYMBOL_SIZE * hdr.nSymbols, strtab);
    SliceKept(s3, out, table, end, SymbolBytes(a, hdr));
    forall j | 0 <= j < |es| ensures SliceIs(out, added[j].rawPtr, es[j].data) {
      SliceKept(s3, out, table, added[j].rawPtr, es[j].data);
    }
  }

  lemma GrownSame(hdr: Hdr, shift: nat)
    ensures var h := GrownHdr(hdr, shift);
            && h.nSections == hdr.nSections && h.optSize == hdr.optSize && h.fileAlign == hdr.fileAlign
            && h.sectAlign == hdr.sectAlign
  {
  }

  lemma SameNames(secs: seq<Section>, shift: nat)
    ensures forall i | 0 <= i < |secs| :: secs[i].name == ShiftAll(secs, shift)[i].name
  {
  }

  lemma MovedPast(a: bytes, s: bytes, t: bytes, headers: nat, shift: nat, at: nat)
    requires Moved(a, s, headers, shift) && SameFrom(s, t, at) && at <= headers + shift
    ensures Moved(a, t, headers, shift) && |t| == |s|
  {
    RangeKept(s, t, at, headers + shift, |s|);
    MovedKept(a, s, t, headers, shift, |s|);
  }

  method DataEnd(es: seq<Entry>, start: nat, align: nat) returns (end: nat)
    requires IsPow2(align)
    ensures end == OffsetAfter(es, start, align)
  {
    hide RoundUp;
    end := start;
    assert es[0..] == es;
    for i := 0 to |es|
      invariant OffsetAfter(es[i..], end, align) == OffsetAfter(es, start, align)
    {
      assert es[i..][1..] == es[i + 1..] && es[i..][0] == es[i];
      end := end + RoundUp(|es[i].data|, align);
    }
    assert es[|es|..] == [];
  }
}
