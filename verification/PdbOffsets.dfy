/** The file offset of the payload in the debug directory, beside its address: right as injected, and when sections are
    added afterwards, right exactly if the headers have room for theirs. */
module PdbOffsets {
  import opened Bytes
  import opened PeImage
  import opened PeView
  import opened PeEdit
  import opened PeNames
  import opened DwarfInjector
  import opened DwarfInjection
  import opened PdbInjector
  import opened PdbInjection

  /** Where in the file the contents of an address are, for addresses of sections with raw data. */
  function FileOffsetOf(secs: seq<Section>, rva: nat): Option<nat> {
    match FindSection(secs, rva)
    case Some(sec) => if sec.rawPtr != 0 && sec.va <= rva then Some(sec.rawPtr + (rva - sec.va)) else None
    case None => None
  }

  /** The debug directory that the headers lead to. */
  function DirectoryIn(s: bytes): Option<bytes>
    requires HasTable(s)
  {
    LoadBytes(s, ParsePe(s).secs, ParsePe(s).hdr.debugVa, 28)
  }

  /** The payload's address, size and file offset in the directory. */
  function AddressIn(dir: bytes): nat
    requires |dir| == 28
  {
    Field(dir, 20, 4)
  }

  function SizeIn(dir: bytes): nat
    requires |dir| == 28
  {
    Field(dir, 16, 4)
  }

  function OffsetIn(dir: bytes): nat
    requires |dir| == 28
  {
    Field(dir, 24, 4)
  }

  /** The directory that is injected gives the file offset of the address it gives, and the payload is there. */
  lemma ReferenceByOffset(a: bytes, b: bytes, ref: PdbRef) returns (dir: bytes)
    requires PdbReady(a, ref) && IsReferenced(a, b, ref)
    ensures HasTable(b) && DirectoryIn(b) == Some(dir) && |dir| == 28
    ensures FileOffsetOf(ParsePe(b).secs, AddressIn(dir)) == Some(OffsetIn(dir))
    ensures OffsetIn(dir) + SizeIn(dir) <= |b|
    ensures ParseRsds(b[OffsetIn(dir)..OffsetIn(dir) + SizeIn(dir)]) == Some(ref)
  {
    hide *;
    PdbReadyParts(a, ref);
    ReferenceFound(a, b, ref);
    var l := PdbLayoutOf(a, ref);
    dir := Directory(|Rsds(ref)|, l.va, l.offset);
    DirectoryFields(dir, |Rsds(ref)|, l.va, l.offset);
    RsdsParses(ref);
  }

  lemma DirectoryFields(dir: bytes, size: nat, va: nat, offset: nat)
    requires dir == Directory(size, va, offset)
    requires InWidth(size, 4) && InWidth(va + 28, 4) && InWidth(offset + 28, 4)
    ensures |dir| == 28 && AddressIn(dir) == va + 28 && SizeIn(dir) == size && OffsetIn(dir) == offset + 28
  {
    DirectoryReads(size, va, offset);
    hide Le, Field, Zeros, FromLe;
    var front := Zeros(12) + Le(TYPE_CODEVIEW, 4) + Le(size, 4) + Le(va + DIRECTORY_SIZE, 4);
    assert dir == front + Le(offset + DIRECTORY_SIZE, 4) + [];
    FieldEncoded(front, offset + DIRECTORY_SIZE, []);
  }

  lemma ReferenceFound(a: bytes, b: bytes, ref: PdbRef)
    requires PdbReady(a, ref) && IsReferenced(a, b, ref)
    ensures HasTable(b) && RefOk(ref)
    ensures var l := PdbLayoutOf(a, ref);
            && DirectoryIn(b) == Some(Directory(|Rsds(ref)|, l.va, l.offset))
            && InWidth(|Rsds(ref)|, 4) && InWidth(l.va + 28, 4) && InWidth(l.offset + 28, 4)
            && FileOffsetOf(ParsePe(b).secs, l.va + 28) == Some(l.offset + 28)
            && l.offset + 28 + |Rsds(ref)| <= |b| && b[l.offset + 28..l.offset + 28 + |Rsds(ref)|] == Rsds(ref)
  {
    hide HasTable, RoundUp, ReadSections, ReadHdr, VaEnd, WellFormed, ShiftAll, Moved, SymbolBytes, HeaderExpansion,
         FreeOffset, OldTable, StrTab, LoadBytes, FindSection, Field, Payload, SectionFits, AllFit, Zeros, SameButName,
         ParseRsds, Directory, Span, Rsds, Le;
    ReferenceExtends(a, b, ref);
    PdbReadyParts(a, ref);
    PdbReadyBounds(a, ref);
    var pa, pb, l := ParsePe(a), ParsePe(b), PdbLayoutOf(a, ref);
    var payload := Payload(ref, l.va, l.offset);
    PayloadLength(ref, l.va, l.offset);
    forall k | 0 <= k < |pa.secs| ensures pb.secs[k].va == pa.secs[k].va && Span(pb.secs[k]) == Span(pa.secs[k]) {
      ShiftSpan(pa.secs[k], l.shift);
    }
    OneBeyond(pa.secs, l.section);
    BeyondFound(pa.secs, pb.secs, [l.section], 0);
    assert Holds(b, [l.section][0], [payload][0], pb.hdr);
    FoundLoads(b, pb.secs, |pa.secs|, payload, pb.hdr, 0);
    assert payload[0..] == payload;
    PayloadParts(ref, l.va, l.offset);
    LoadBytesPrefix(b, pb.secs, l.va, payload, 28);
    SubRange(b, l.offset, l.offset + |payload|, 28, |payload|);
  }

  // ----- Sections added afterwards --------------------------------------------------------------------------

  /** Growing the headers moves every file offset by the growth. */
  lemma OffsetsMove(b: bytes, c: bytes, es: seq<Entry>, rva: nat)
    requires Ready(b, es) && EntriesOk(es) && IsInjected(b, c, es)
    requires HasTable(b) && FileOffsetOf(ParsePe(b).secs, rva).Some?
    ensures HasTable(c)
    ensures FileOffsetOf(ParsePe(c).secs, rva)
            == Some(FileOffsetOf(ParsePe(b).secs, rva).value + ParsePe(c).hdr.sizeOfHeaders - ParsePe(b).hdr.sizeOfHeaders)
  {
    hide *;
    ReadyParts(b, es);
    InjectionExtends(b, c, es);
    var l := LayoutOf(b, es);
    ExtendedOffsets(b, c, l.shift, l.added, DatasOf(es), l.strtab, rva);
  }

  lemma ExtendedOffsets(a: bytes, b: bytes, shift: nat, added: seq<Section>, data: seq<bytes>, strtab: bytes, rva: nat)
    requires Extends(a, b, shift, added, data, strtab)
    requires HasTable(a) && FileOffsetOf(ParsePe(a).secs, rva).Some?
    ensures HasTable(b) && ParsePe(b).hdr.sizeOfHeaders == ParsePe(a).hdr.sizeOfHeaders + shift
    ensures FileOffsetOf(ParsePe(b).secs, rva) == Some(FileOffsetOf(ParsePe(a).secs, rva).value + shift)
  {
    hide HasTable, StrTab, Holds, ReadSections, ReadHdr, FindSection;
    var pa, pb := ParsePe(a), ParsePe(b);
    var i := FindSectionIndex(pa.secs, rva);
    assert SameButName(pb.secs[i], Shift(pa.secs[i], shift));
    forall j | 0 <= j < i ensures !Contains(pb.secs[j], rva) {
      assert SameButName(pb.secs[j], Shift(pa.secs[j], shift));
    }
    FindSectionAt(pb.secs, rva, i);
  }

  /** After DWARF sections are added the directory is still as it was, and its file offset is still right exactly if
      the headers had room for the new section headers. Otherwise it falls short by the growth. */
  lemma OffsetAfterDwarf(a: bytes, b: bytes, c: bytes, ref: PdbRef, es: seq<Entry>) returns (dir: bytes)
    requires PdbReady(a, ref) && IsReferenced(a, b, ref)
    requires Ready(b, es) && EntriesOk(es) && IsInjected(b, c, es)
    ensures HasTable(b) && HasTable(c) && DirectoryIn(b) == DirectoryIn(c) == Some(dir) && |dir| == 28
    ensures FileOffsetOf(ParsePe(c).secs, AddressIn(dir)).Some?
    ensures FileOffsetOf(ParsePe(c).secs, AddressIn(dir)) == Some(OffsetIn(dir))
            <==> TableEnd(ParsePe(b)) + SECTION_SIZE * |es| <= ParsePe(b).hdr.sizeOfHeaders
  {
    hide *;
    dir := ReferenceByOffset(a, b, ref);
    OffsetsMove(b, c, es, AddressIn(dir));
    InjectionAlignment(b, c, es);
    InjectionKeepsView(b, c, es);
    DirectoryKept(b, c, es);
    DirectoryStays(b, c, dir);
    GrownIff(ParsePe(b).hdr.sizeOfHeaders, ParsePe(c).hdr.sizeOfHeaders, TableEnd(ParsePe(c)), ParsePe(b).hdr.fileAlign);
  }

  lemma DirectoryStays(b: bytes, c: bytes, dir: bytes)
    requires HasTable(b) && HasTable(c) && ViewKept(b, c) && ParsePe(c).hdr.debugVa == ParsePe(b).hdr.debugVa
    requires DirectoryIn(b) == Some(dir)
    ensures DirectoryIn(c) == Some(dir)
  {
    hide ParsePe, HasTable, ViewKept, LoadBytes;
    LoadBytesKept(b, c, ParsePe(b).hdr.debugVa, 28);
  }

  lemma GrownIff(size: nat, grown: nat, end: nat, align: nat)
    requires align > 0 && LeastGrowth(size, grown, end, align)
    ensures grown == size <==> end <= size
  {
    if end <= size && grown != size {
      CloseMultiples(0, grown - size, align);
    }
  }
}
