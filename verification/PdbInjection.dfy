/** What a PDB reference in an image means to a debugger, and that it lives side by side with injected
    DWARF sections, whichever comes first. */
module PdbInjection {
  import opened Bytes
  import opened PeImage
  import opened PeView
  import opened PeEdit
  import opened PeNames
  import opened DwarfInjector
  import opened DwarfInjection
  import opened PdbInjector

  // ----- Structure ----------------------------------------------------------------------------

  lemma OldTableReads(a: bytes, b: bytes, hdr: Hdr, at: nat)
    requires SymbolsOk(a, hdr) && SliceIs(b, at, OldTable(a, hdr)) && |OldTable(a, hdr)| < 0x1_0000_0000
    ensures Field(b, at, 4) == |OldTable(a, hdr)|
  {
    hide FromLe;
    var t := OldTable(a, hdr);
    SubRange(b, at, at + |t|, 0, 4);
    if hdr.symPtr == 0 {
      assert t == Le(4, 4) by { Four(); }
      SizeFieldReads(b, at, t);
    } else {
      var p := StrTabAt(hdr);
      SubRange(a, p, p + |t|, 0, 4);
    }
  }

  lemma Four()
    ensures Le(4, 4) == [4, 0, 0, 0]
  {
    assert Le(0, 1) == [0] + Le(0, 0);
    assert Le(0, 2) == [0] + Le(0, 1);
    assert Le(0, 3) == [0] + Le(0, 2);
    assert Le(4, 4) == [4] + Le(0, 3);
  }

  lemma ReferencedStrTab(a: bytes, b: bytes, ref: PdbRef)
    requires PdbReady(a, ref) && IsReferenced(a, b, ref)
    ensures ParsePe(b).hdr.symPtr > 0 && StrTab(b, ParsePe(b).hdr) == Some(OldTable(a, ParsePe(a).hdr))
  {
    hide HasTable, RoundUp, ShiftAll, Moved, SymbolBytes, ReadSections, NameOk, FreeOffset, ReadHdr, VaEnd, Le, Field,
         HeadersOk, OldTable, AllFit, SectionFits, NewSection, HeaderExpansion;
    PdbReadyParts(a, ref);
    PdbReadyBounds(a, ref);
    var hdr := ParsePe(b).hdr;
    OldTableReads(a, b, ParsePe(a).hdr, StrTabAt(hdr));
  }

  lemma ReferenceExtends(a: bytes, b: bytes, ref: PdbRef)
    requires PdbReady(a, ref) && IsReferenced(a, b, ref)
    ensures var l := PdbLayoutOf(a, ref);
            && WellFormed(a) && HasTable(a) && HasTable(b)
            && Extends(a, b, l.shift, [l.section], [Payload(ref, l.va, l.offset)], OldTable(a, ParsePe(a).hdr))
            && (forall i | 0 <= i < |ParsePe(a).secs| :: ParsePe(b).secs[i] == Shift(ParsePe(a).secs[i], l.shift))
            && ParsePe(b).secs[|ParsePe(a).secs|] == l.section
  {
    hide HasTable, RoundUp, Moved, SymbolBytes, ReadSections, NameOk, FreeOffset, ReadHdr, VaEnd, Le, Field, HeadersOk,
         OldTable, HeaderExpansion, StrTab, Payload, Shift, Zeros;
    PdbReadyParts(a, ref);
    PdbReadyBounds(a, ref);
    ReferencedStrTab(a, b, ref);
    var pa, pb, l := ParsePe(a), ParsePe(b), PdbLayoutOf(a, ref);
    PayloadLength(ref, l.va, l.offset);
    forall i | 0 <= i < |pa.secs| ensures SameButName(pb.secs[i], Shift(pa.secs[i], l.shift)) {
      assert SectionFits(pa.secs[i]);
      ShiftFits(pa.secs[i], l.shift);
      ShiftName(pa.secs[i], l.shift);
    }
  }

  lemma ShiftName(sec: Section, shift: nat)
    ensures Shift(sec, shift).name == sec.name
  {
  }

  /** The loader's view of the input is kept, headers expanded or not. */
  lemma ReferenceKeepsView(a: bytes, b: bytes, ref: PdbRef)
    requires PdbReady(a, ref) && IsReferenced(a, b, ref)
    ensures HasTable(a) && HasTable(b) && ViewKept(a, b)
  {
    hide PdbReady, IsReferenced, Extends, ViewKept, WellFormed, Payload, PdbLayoutOf, OldTable, HasTable, ParsePe,
         Shift, SymbolsOk, RefOk, VaEnd, RoundUp, FreeOffset, NewSection;
    PdbReadyParts(a, ref);
    ReferenceExtends(a, b, ref);
    var l := PdbLayoutOf(a, ref);
    ExtendedKeepsView(a, b, l.shift, [l.section], [Payload(ref, l.va, l.offset)], OldTable(a, ParsePe(a).hdr));
  }

  /** Names: the old sections keep theirs, and the new one is called `.debug`. */
  lemma ReferenceNames(a: bytes, b: bytes, ref: PdbRef)
    requires PdbReady(a, ref) && IsReferenced(a, b, ref)
    ensures HasTable(a) && HasTable(b) && |ParsePe(b).secs| == |ParsePe(a).secs| + 1
    ensures forall i | 0 <= i < |ParsePe(a).secs| ::
              && NameOk(ParsePe(b).secs[i].name, StrTab(b, ParsePe(b).hdr))
              && NameIn(b, ParsePe(b), i) == NameIn(a, ParsePe(a), i)
    ensures NameIn(b, ParsePe(b), |ParsePe(a).secs|) == DEBUG
    ensures NameOk(ParsePe(b).secs[|ParsePe(a).secs|].name, StrTab(b, ParsePe(b).hdr))
  {
    hide RoundUp, ShiftAll, Moved, SymbolBytes, ReadSections, FreeOffset, ReadHdr, VaEnd, Le, Field, HeadersOk,
         HasTable, AllFit, SectionFits, HeaderExpansion, StrTab, Extends, IsReferenced, TrimNul, Zeros, DecValue,
         NameOk, ResolveName, OldTable, PdbLayoutOf;
    PdbReadyParts(a, ref);
    ReferenceExtends(a, b, ref);
    ReferencedStrTab(a, b, ref);
    var pa, pb, l := ParsePe(a), ParsePe(b), PdbLayoutOf(a, ref);
    assert |pb.secs|
    == |pa.secs| + 1 by { ExtendsCount(a, b, l.shift, [l.section], [Payload(ref, l.va, l.offset)], OldTable(a, pa.hdr)); }
    forall i | 0 <= i < |pa.secs|
      ensures NameOk(pb.secs[i].name, StrTab(b, pb.hdr)) && NameIn(b, pb, i) == NameIn(a, pa, i)
    {
      assert NameOk(pa.secs[i].name, StrTab(a, pa.hdr));
      ShiftName(pa.secs[i], l.shift);
      OldNameOk(a, pa.hdr, pa.secs[i].name);
    }
    DebugNameReads(StrTab(b, pb.hdr));
  }

  /** A table to put in place of none changes no name, since no long name can refer to it. */
  lemma OldNameOk(a: bytes, hdr: Hdr, name: bytes)
    requires SymbolsOk(a, hdr) && NameOk(name, StrTab(a, hdr))
    ensures NameOk(name, Some(OldTable(a, hdr)))
    ensures ResolveName(name, Some(OldTable(a, hdr))) == ResolveName(name, StrTab(a, hdr))
  {
    hide TrimNul, DecValue;
  }

  lemma ExtendsCount(a: bytes, b: bytes, shift: nat, added: seq<Section>, data: seq<bytes>, strtab: bytes)
    requires Extends(a, b, shift, added, data, strtab)
    ensures |ParsePe(b).secs| == |ParsePe(a).secs| + |added|
  {
  }

  lemma DebugNameReads(strtab: Option<bytes>)
    ensures ResolveName(DEBUG_NAME, strtab) == DEBUG && NameOk(DEBUG_NAME, strtab)
  {
    TrimNulOfText(DEBUG, [0, 0]);
  }

  lemma ReferenceWellFormed(a: bytes, b: bytes, ref: PdbRef)
    requires PdbReady(a, ref) && IsReferenced(a, b, ref)
    ensures WellFormed(b)
  {
    hide RoundUp, SymbolBytes, ReadSections, FreeOffset, ReadHdr, VaEnd, Le, Field, HeadersOk, HasTable, Payload,
         AllFit, SectionFits, HeaderExpansion, StrTab, NameOk, OldTable, NameIn, Zeros;
    PdbReadyParts(a, ref);
    PdbReadyBounds(a, ref);
    ReferenceNames(a, b, ref);
    ReferencedStrTab(a, b, ref);
    var pa, pb, l := ParsePe(a), ParsePe(b), PdbLayoutOf(a, ref);
    PayloadLength(ref, l.va, l.offset);
    forall i | 0 <= i < |pb.secs| ensures RawOk(pb.secs[i], pb.hdr, |b|) {
      if i < |pa.secs| {
        assert RawOk(pa.secs[i], pa.hdr, |a|);
      }
    }
  }

  /** The headers grow by the least number of whole file alignments that makes room for one more section header, so
      an aligned header size and aligned raw data stay aligned. */
  lemma ReferenceAlignment(a: bytes, b: bytes, ref: PdbRef)
    requires PdbReady(a, ref) && IsReferenced(a, b, ref)
    ensures HasTable(a) && HasTable(b) && |ParsePe(b).secs| == |ParsePe(a).secs| + 1
    ensures var pa, pb := ParsePe(a), ParsePe(b); var align := pa.hdr.fileAlign;
            && align > 0 && pb.hdr.fileAlign == align && TableEnd(pb) == TableEnd(pa) + SECTION_SIZE
            && LeastGrowth(pa.hdr.sizeOfHeaders, pb.hdr.sizeOfHeaders, TableEnd(pb), align)
            && pb.hdr.sizeOfHeaders % align == pa.hdr.sizeOfHeaders % align
            && forall i | 0 <= i < |pa.secs| ::
                 pb.secs[i].rawPtr == (if pa.secs[i].rawPtr == 0 then 0
                                       else pa.secs[i].rawPtr + pb.hdr.sizeOfHeaders - pa.hdr.sizeOfHeaders)
                 && pb.secs[i].rawPtr % align == pa.secs[i].rawPtr % align
  {
    hide HasTable, PdbReady, IsReferenced, PdbLayoutOf, StrTab, IsPow2, ParsePe, WellFormed, HeaderExpansion, Moved, SliceIs,
         OldTable, LeastGrowth, RoundUp, Extends, NewSection, FreeOffset, Payload;
    PdbReadyParts(a, ref);
    ReferencedHeaders(a, b, ref);
    ReferenceExtends(a, b, ref);
    var pa, pb, l := ParsePe(a), ParsePe(b), PdbLayoutOf(a, ref);
    GrowthOf(pa, SECTION_SIZE);
    AlignedTogether(pa.hdr.sizeOfHeaders, l.shift, pa.hdr.fileAlign);
    forall i | 0 <= i < |pa.secs|
      ensures pb.secs[i].rawPtr == (if pa.secs[i].rawPtr == 0 then 0 else pa.secs[i].rawPtr + l.shift)
              && pb.secs[i].rawPtr % pa.hdr.fileAlign == pa.secs[i].rawPtr % pa.hdr.fileAlign
    {
      AlignedTogether(pa.secs[i].rawPtr, l.shift, pa.hdr.fileAlign);
    }
  }

  lemma ReferencedHeaders(a: bytes, b: bytes, ref: PdbRef)
    requires PdbReady(a, ref) && IsReferenced(a, b, ref)
    ensures HasTable(a) && HasTable(b) && |ParsePe(b).secs| == |ParsePe(a).secs| + 1
    ensures var pa, pb := ParsePe(a), ParsePe(b);
            && pb.hdr.fileAlign == pa.hdr.fileAlign && TableEnd(pb) == TableEnd(pa) + SECTION_SIZE
            && pb.hdr.sizeOfHeaders == pa.hdr.sizeOfHeaders + PdbLayoutOf(a, ref).shift
  {
    hide HasTable, WellFormed, PdbLayoutOf, ReadSections, ReadHdr, HeadersOk, Moved, SliceIs, AllFit, ShiftAll, IsPow2,
         RoundUp, SymbolBytes, OldTable, NewSection, Payload;
    PdbReadyParts(a, ref);
  }

  // ----- Following the reference -----------------------------------------------------------------

  /** A debugger's path to the PDB: data directory entry 6, the debug directory it points to, and the
      CodeView payload that points to, all by address. */
  function ReadPdbRef(s: bytes, pe: Pe): Option<PdbRef> {
    if pe.hdr.debugSize < 28 then None
    else
      var dir :- LoadBytes(s, pe.secs, pe.hdr.debugVa, 28);
      if |dir| != 28 || Field(dir, 12, 4) != 2 then None
      else
        var data :- LoadBytes(s, pe.secs, Field(dir, 20, 4), Field(dir, 16, 4));
        ParseRsds(data)
  }

  function ParseRsds(data: bytes): Option<PdbRef> {
    if |data| < 24 || data[..4] != [0x52, 0x53, 0x44, 0x53] then None
    else
      var age := Field(data, 20, 4);
      if age >= 0x1_0000_0000 then None else Some(PdbRef(data[4..20], age, TrimNul(data[24..])))
  }

  lemma RsdsParses(ref: PdbRef)
    requires RefOk(ref)
    ensures ParseRsds(Rsds(ref)) == Some(ref)
  {
    hide Le, Field;
    var d := Rsds(ref);
    assert d[..4] == RSDS_MAGIC && d[4..20] == ref.guid;
    assert d == (RSDS_MAGIC + ref.guid) + Le(ref.age, 4) + (ref.name + [0]);
    FieldEncoded(RSDS_MAGIC + ref.guid, ref.age, ref.name + [0]);
    assert d[24..] == ref.name + [0];
    TrimNulOfText(ref.name, [0]);
  }

  lemma DirectoryReads(size: nat, va: nat, offset: nat)
    requires InWidth(size, 4) && InWidth(va + DIRECTORY_SIZE, 4)
    ensures var d := Directory(size, va, offset);
            Field(d, 12, 4) == 2 && Field(d, 16, 4) == size && Field(d, 20, 4) == va + 28
  {
    hide Le, Field, Zeros;
    var z, t, s := Zeros(12), Le(TYPE_CODEVIEW, 4), Le(size, 4);
    var v, o := Le(va + DIRECTORY_SIZE, 4), Le(offset + DIRECTORY_SIZE, 4);
    var d := Directory(size, va, offset);
    assert d == z + t + (s + v + o);
    FieldEncoded(z, TYPE_CODEVIEW, s + v + o);
    assert d == (z + t) + s + (v + o);
    FieldEncoded(z + t, size, v + o);
    assert d == (z + t + s) + v + o;
    FieldEncoded(z + t + s, va + DIRECTORY_SIZE, o);
  }

  lemma {:induction false} LoadBytesPrefix(s: bytes, secs: seq<Section>, rva: nat, d: bytes, n: nat)
    requires LoadBytes(s, secs, rva, |d|) == Some(d) && n <= |d|
    ensures LoadBytes(s, secs, rva, n) == Some(d[..n])
    decreases n
  {
    hide LoadByte;
    if n > 0 {
      assert LoadBytes(s, secs, rva + 1, |d| - 1) == Some(d[1..]) by {
        assert LoadBytes(s, secs, rva + 1, |d| - 1).Some?;
        var rest := LoadBytes(s, secs, rva + 1, |d| - 1).value;
        assert d == [LoadByte(s, secs, rva).value] + rest;
        assert d[1..] == rest;
      }
      LoadBytesPrefix(s, secs, rva + 1, d[1..], n - 1);
      assert d[..n] == [d[0]] + d[1..][..n - 1];
    } else {
      assert d[..0] == [];
    }
  }

  /** Whatever the input, following the data directory gives exactly the reference that was injected. */
  lemma ReferenceReads(a: bytes, b: bytes, ref: PdbRef)
    requires PdbReady(a, ref) && IsReferenced(a, b, ref)
    ensures HasTable(b) && ReadPdbRef(b, ParsePe(b)) == Some(ref)
  {
    hide HasTable, RoundUp, ReadSections, ReadHdr, VaEnd, WellFormed, ShiftAll, Moved, SymbolBytes, HeaderExpansion,
         FreeOffset, OldTable, StrTab, LoadBytes, FindSection, Field, Payload, SectionFits, AllFit, Zeros, SameButName,
         Holds, ParseRsds, Directory, Span;
    ReferenceExtends(a, b, ref);
    PdbReadyParts(a, ref);
    PdbReadyBounds(a, ref);
    var pa, pb, l := ParsePe(a), ParsePe(b), PdbLayoutOf(a, ref);
    var payload := Payload(ref, l.va, l.offset);
    PayloadLength(ref, l.va, l.offset);
    forall k | 0 <= k < |pa.secs| ensures pb.secs[k].va == pa.secs[k].va && Span(pb.secs[k]) == Span(pa.secs[k]) {
      ShiftSpan(pa.secs[k], l.shift);
    }
    OneBeyond(pa.secs, l.section);
    BeyondFound(pa.secs, pb.secs, [l.section], 0);
    assert Holds(b, [l.section][0], [payload][0], pb.hdr);
    FoundLoads(b, pb.secs, |pa.secs|, payload, pb.hdr, 0);
    assert payload[0..] == payload;
    FoundLoads(b, pb.secs, |pa.secs|, payload, pb.hdr, DIRECTORY_SIZE);
    PayloadParts(ref, l.va, l.offset);
    LoadBytesPrefix(b, pb.secs, l.va, payload, DIRECTORY_SIZE);
    DirectoryReads(|Rsds(ref)|, l.va, l.offset);
    RsdsParses(ref);
  }

  lemma PayloadParts(ref: PdbRef, va: nat, offset: nat)
    ensures |Payload(ref, va, offset)| == DIRECTORY_SIZE + |Rsds(ref)|
    ensures Payload(ref, va, offset)[..DIRECTORY_SIZE] == Directory(|Rsds(ref)|, va, offset)
    ensures Payload(ref, va, offset)[DIRECTORY_SIZE..] == Rsds(ref)
  {
    hide Directory, Rsds;
  }

  lemma OneBeyond(old_: seq<Section>, sec: Section)
    requires VaEnd(old_) <= sec.va
    ensures Beyond(old_, [sec], 0)
  {
    hide VaEnd;
  }

  // ----- Coexistence -------------------------------------------------------------------------------

  /** A reference that reads in one image reads in any image that keeps its view and its data directory. */
  lemma RefSurvives(a: bytes, b: bytes)
    requires HasTable(a) && HasTable(b) && ViewKept(a, b)
    requires ParsePe(b).hdr.debugVa == ParsePe(a).hdr.debugVa && ParsePe(b).hdr.debugSize == ParsePe(a).hdr.debugSize
    requires ReadPdbRef(a, ParsePe(a)).Some?
    ensures ReadPdbRef(b, ParsePe(b)) == ReadPdbRef(a, ParsePe(a))
  {
    hide ParsePe, HasTable, ViewKept, LoadBytes, ParseRsds, Field;
    var pa := ParsePe(a);
    LoadBytesKept(a, b, pa.hdr.debugVa, DIRECTORY_SIZE);
    var dir := LoadBytes(a, pa.secs, pa.hdr.debugVa, DIRECTORY_SIZE).value;
    LoadBytesKept(a, b, Field(dir, 20, 4), Field(dir, 16, 4));
  }

  /** PDB first, DWARF second: the reference still reads, and every DWARF section is found by name. */
  lemma PdbThenDwarf(a: bytes, b: bytes, c: bytes, ref: PdbRef, es: seq<Entry>)
    requires PdbReady(a, ref) && IsReferenced(a, b, ref)
    requires Ready(b, es) && EntriesOk(es) && IsInjected(b, c, es)
    ensures WellFormed(b) && HasTable(c) && ReadPdbRef(c, ParsePe(c)) == Some(ref)
    ensures forall j | 0 <= j < |es| :: SectionByName(c, ParsePe(c), es[j].name, 0) == Some(es[j].data)
    ensures forall rva: nat | LoadByte(a, ParsePe(a).secs, rva).Some? ::
              LoadByte(c, ParsePe(c).secs, rva) == LoadByte(a, ParsePe(a).secs, rva)
  {
    hide PdbReady, Ready, IsReferenced, IsInjected, EntriesOk, ReadPdbRef, SectionByName, LoadByte, ParsePe, HasTable,
         WellFormed, LayoutOf;
    ReferenceWellFormed(a, b, ref);
    ReferenceReads(a, b, ref);
    ReferenceKeepsView(a, b, ref);
    InjectionKeepsView(b, c, es);
    DirectoryKept(b, c, es);
    RefSurvives(b, c);
    forall j | 0 <= j < |es| ensures SectionByName(c, ParsePe(c), es[j].name, 0) == Some(es[j].data) {
      InjectionFoundByName(b, c, es, j);
    }
  }

  lemma DirectoryKept(a: bytes, b: bytes, es: seq<Entry>)
    requires Ready(a, es) && IsInjected(a, b, es)
    ensures HasTable(a) && HasTable(b)
    ensures ParsePe(b).hdr.debugVa == ParsePe(a).hdr.debugVa && ParsePe(b).hdr.debugSize == ParsePe(a).hdr.debugSize
  {
    hide HasTable, RoundUp, ReadSections, ReadHdr, VaEnd, ShiftAll, RenameAll, Moved, SymbolBytes, HeaderExpansion,
         FreeOffset, OldTable, StrTab;
  }

  /** DWARF first, PDB second: every DWARF section is still found by name, and the reference reads. */
  lemma DwarfThenPdb(a: bytes, b: bytes, c: bytes, es: seq<Entry>, ref: PdbRef)
    requires Ready(a, es) && EntriesOk(es) && IsInjected(a, b, es)
    requires PdbReady(b, ref) && IsReferenced(b, c, ref)
    ensures WellFormed(b) && HasTable(c) && ReadPdbRef(c, ParsePe(c)) == Some(ref)
    ensures forall j | 0 <= j < |es| :: SectionByName(c, ParsePe(c), es[j].name, 0) == Some(es[j].data)
    ensures forall rva: nat | LoadByte(a, ParsePe(a).secs, rva).Some? ::
              LoadByte(c, ParsePe(c).secs, rva) == LoadByte(a, ParsePe(a).secs, rva)
  {
    hide PdbReady, Ready, IsReferenced, IsInjected, EntriesOk, ReadPdbRef, SectionByName, LoadByte, ParsePe, HasTable,
         WellFormed, LayoutOf, PdbLayoutOf, NameIn;
    InjectionWellFormed(a, b, es);
    InjectionKeepsView(a, b, es);
    ReferenceKeepsView(b, c, ref);
    ReferenceReads(b, c, ref);
    forall j | 0 <= j < |es| ensures SectionByName(c, ParsePe(c), es[j].name, 0) == Some(es[j].data) {
      FoundAfterReference(a, b, c, es, ref, j);
    }
  }

  lemma FoundAfterReference(a: bytes, b: bytes, c: bytes, es: seq<Entry>, ref: PdbRef, j: nat)
    requires Ready(a, es) && EntriesOk(es) && IsInjected(a, b, es) && j < |es|
    requires PdbReady(b, ref) && IsReferenced(b, c, ref)
    ensures HasTable(c) && SectionByName(c, ParsePe(c), es[j].name, 0) == Some(es[j].data)
  {
    hide PdbReady, IsReferenced, IsInjected, EntriesOk, SectionByName, HasTable, WellFormed, LayoutOf, PdbLayoutOf,
         NameIn, StrTab, Extends, ReadSections, ReadHdr, Moved, NameOk, ParsePe, Ready, SymbolsOk, OldTable, Payload,
         IsDebugName, RoundUp, IsPow2, VaEnd, HeaderExpansion, FreeOffset, NewSection;
    InjectionNames(a, b, es);
    PdbReadyParts(b, ref);
    ReferenceExtends(b, c, ref);
    ReferenceNames(b, c, ref);
    var pb, pc, l := ParsePe(b), ParsePe(c), PdbLayoutOf(b, ref);
    var i := |ParsePe(a).secs| + j;
    InjectedEntryAt(a, b, es, j);
    var sec := pb.secs[i];
    ReferenceMoves(b, c, ref);
    MovedRange(b, c, pb.hdr.sizeOfHeaders, l.shift, sec.rawPtr, sec.rawPtr + sec.vSize);
    SectionByNameAt(c, pc, es[j].name, 0, i);
  }

  lemma ReferenceMoves(a: bytes, b: bytes, ref: PdbRef)
    requires PdbReady(a, ref) && IsReferenced(a, b, ref)
    ensures HasTable(a) && Moved(a, b, ParsePe(a).hdr.sizeOfHeaders, PdbLayoutOf(a, ref).shift)
  {
  }
}
