/** The PDB-reference injector: adds one `.debug` section with a debug directory and its RSDS payload,
    and points entry 6 of the data directory at it. */
module PdbInjector {
  import opened Bytes
  import opened PeImage
  import opened PeView
  import opened PeEdit
  import opened PeNames
  import opened DwarfInjector

  const DIRECTORY_SIZE := 28
  const TYPE_CODEVIEW := 2
  const RSDS_MAGIC: bytes := [0x52, 0x53, 0x44, 0x53]
  const DEBUG_NAME: bytes := DEBUG + [0, 0]
  // Readable, initialised data.
  const READ_INITIALIZED := 0x4000_0040

  /** "RSDS", ".debug" padded to eight bytes, and the flags for initialised data and readable. */
  lemma ConstantsAre()
    ensures RSDS_MAGIC == Ascii("RSDS") && DEBUG_NAME == Ascii(".debug") + [0, 0]
    ensures READ_INITIALIZED == 0x40 + 0x4000_0000
  {
  }

  datatype PdbRef = PdbRef(guid: bytes, age: u32, name: bytes)

  predicate RefOk(ref: PdbRef) {
    |ref.guid| == 16 && NoNul(ref.name)
  }

  function Rsds(ref: PdbRef): bytes {
    RSDS_MAGIC + ref.guid + Le(ref.age, 4) + ref.name + [0]
  }

  /** `IMAGE_DEBUG_DIRECTORY` for a payload that follows it, at this address and file offset. */
  function Directory(size: nat, va: nat, offset: nat): (r: bytes)
    ensures |r| == DIRECTORY_SIZE
  {
    Zeros(12) + Le(TYPE_CODEVIEW, 4) + Le(size, 4) + Le(va + DIRECTORY_SIZE, 4) + Le(offset + DIRECTORY_SIZE, 4)
  }

  function Payload(ref: PdbRef, va: nat, offset: nat): bytes {
    Directory(|Rsds(ref)|, va, offset) + Rsds(ref)
  }

  function PayloadSize(ref: PdbRef): nat
    requires RefOk(ref)
  {
    DIRECTORY_SIZE + 4 + 16 + 4 + |ref.name| + 1
  }

  lemma PayloadLength(ref: PdbRef, va: nat, offset: nat)
    requires RefOk(ref)
    ensures |Payload(ref, va, offset)| == PayloadSize(ref) && |Rsds(ref)| == PayloadSize(ref) - DIRECTORY_SIZE
  {
    hide Le, Directory;
  }

  datatype PdbLayout = PdbLayout(shift: nat, va: nat, offset: nat, end: nat, vaEnd: nat, section: Section)

  function PdbLayoutOf(a: bytes, ref: PdbRef): PdbLayout
    requires WellFormed(a) && RefOk(ref)
  {
    var pe := ParsePe(a);
    var shift := HeaderExpansion(pe, SECTION_SIZE);
    var va := RoundUp(VaEnd(pe.secs), pe.hdr.sectAlign);
    var offset := RoundUp(FreeOffset(a, pe, shift), pe.hdr.fileAlign);
    var size := PayloadSize(ref);
    PdbLayout(shift, va, offset, offset + RoundUp(size, pe.hdr.fileAlign), RoundUp(va + size, pe.hdr.sectAlign),
              NewSection(DEBUG_NAME, size, va, offset, pe.hdr.fileAlign, READ_INITIALIZED))
  }

  /** A well-formed image whose extension overflows no header field. */
  predicate PdbReady(a: bytes, ref: PdbRef) {
    WellFormed(a) && RefOk(ref) &&
    var pe, l := ParsePe(a), PdbLayoutOf(a, ref);
    && l.end + SYMBOL_SIZE * pe.hdr.nSymbols + |OldTable(a, pe.hdr)| < 0x1_0000_0000
    && l.vaEnd < 0x1_0000_0000 && pe.hdr.nSections + 1 < 0x1_0000
  }

  function DebugHdr(hdr: Hdr, va: nat): Hdr {
    hdr.(debugVa := va, debugSize := DIRECTORY_SIZE)
  }

  ghost predicate IsReferenced(a: bytes, b: bytes, ref: PdbRef)
    requires PdbReady(a, ref)
  {
    var pe, l := ParsePe(a), PdbLayoutOf(a, ref);
    && HasTable(b)
    && ParsePe(b) == Pe(pe.e, FinalHdr(DebugHdr(GrownHdr(pe.hdr, l.shift), l.va), pe.hdr.nSections + 1, l.end, l.vaEnd),
                        ShiftAll(pe.secs, l.shift) + [l.section])
    && Moved(a, b, pe.hdr.sizeOfHeaders, l.shift)
    && SliceIs(b, l.offset, Payload(ref, l.va, l.offset))
    && SliceIs(b, l.end + SYMBOL_SIZE * pe.hdr.nSymbols, OldTable(a, pe.hdr))
    && SliceIs(b, l.end, SymbolBytes(a, pe.hdr))
  }

  function PdbRefusal(a: bytes): Option<Error> {
    match CheckHeaders(a)
    case Some(error) => Some(error)
    case None => if SymbolsInBounds(a) then None else Some(SymbolsOutOfBounds)
  }

  lemma PdbReadyBounds(a: bytes, ref: PdbRef)
    requires PdbReady(a, ref)
    ensures var pe, l := ParsePe(a), PdbLayoutOf(a, ref);
            && AllFit(pe.secs) && AllFit(ShiftAll(pe.secs, l.shift)) && SectionFits(l.section)
            && (forall i | 0 <= i < |pe.secs| && pe.secs[i].rawPtr != 0 :: InWidth(pe.secs[i].rawPtr + l.shift, 4))
            && InWidth(pe.hdr.sizeOfHeaders + l.shift, 4) && InWidth(pe.hdr.symPtr + l.shift, 4)
            && TableEnd(pe) + SECTION_SIZE <= pe.hdr.sizeOfHeaders + l.shift <= |a| + l.shift <= l.offset
            && l.offset + PayloadSize(ref) <= l.end && l.va + PayloadSize(ref) <= l.vaEnd
            && InWidth(l.end, 4) && InWidth(l.vaEnd, 4) && InWidth(l.va, 4) && InWidth(pe.hdr.nSections + 1, 2)
  {
    hide RoundUp, HasTable, NameOk, StrTab, Le, ReadSections, VaEnd, FileEnd, HeadersOk, ReadHdr, SectionFits, Field,
         Zeros;
    var pe, l := ParsePe(a), PdbLayoutOf(a, ref);
    PeFits(a);
    NewSectionFits(DEBUG_NAME, PayloadSize(ref), l.va, l.offset, pe.hdr.fileAlign, READ_INITIALIZED);
    assert SectionFits(l.section);
    forall i | 0 <= i < |pe.secs|
      ensures SectionFits(Shift(pe.secs[i], l.shift))
      ensures pe.secs[i].rawPtr != 0 ==> InWidth(pe.secs[i].rawPtr + l.shift, 4)
    {
      assert RawOk(pe.secs[i], pe.hdr, |a|);
      ShiftFits(pe.secs[i], l.shift);
    }
  }

  lemma NewSectionFits(name: bytes, size: nat, va: nat, offset: nat, fa: nat, characteristics: nat)
    requires IsPow2(fa) && |name| == 8 && InWidth(va, 4) && InWidth(offset + RoundUp(size, fa), 4)
    ensures SectionFits(NewSection(name, size, va, offset, fa, characteristics))
  {
    hide RoundUp, Le, Zeros;
  }

  /** Injects the reference, or says why not. */
  method InjectPdbReference(peIn: bytes, ref: PdbRef) returns (r: Result)
    requires PdbRefusal(peIn).None? ==> PdbReady(peIn, ref)
    ensures PdbRefusal(peIn).Some? ==> r == Err(PdbRefusal(peIn).value)
    ensures PdbRefusal(peIn).None? ==> r.Ok? && IsReferenced(peIn, r.image, ref)
  {
    var bad := CheckHeaders(peIn);
    if bad.Some? {
      return Err(bad.value);
    }
    if !SymbolsInBounds(peIn) {
      return Err(SymbolsOutOfBounds);
    }
    var out := BuildReferenced(peIn, ref);
    r := Ok(out);
  }

  lemma PdbReadyParts(a: bytes, ref: PdbRef)
    requires PdbReady(a, ref)
    ensures WellFormed(a) && HasTable(a) && RefOk(ref) && IsPow2(ParsePe(a).hdr.fileAlign)
            && IsPow2(ParsePe(a).hdr.sectAlign)
    ensures SymbolsOk(a, ParsePe(a).hdr) && TableEnd(ParsePe(a)) <= ParsePe(a).hdr.sizeOfHeaders <= |a|
    ensures var pe, l := ParsePe(a), PdbLayoutOf(a, ref);
            && l.shift == HeaderExpansion(pe, SECTION_SIZE) && l.va == RoundUp(VaEnd(pe.secs), pe.hdr.sectAlign)
            && l.offset == RoundUp(FreeOffset(a, pe, l.shift), pe.hdr.fileAlign)
            && l.end == l.offset + RoundUp(PayloadSize(ref), pe.hdr.fileAlign)
            && l.vaEnd == RoundUp(l.va + PayloadSize(ref), pe.hdr.sectAlign)
            && l.section == NewSection(DEBUG_NAME, PayloadSize(ref), l.va, l.offset, pe.hdr.fileAlign, READ_INITIALIZED)
  {
    hide Le, Zeros, RoundUp, VaEnd, FreeOffset, HeaderExpansion, ReadSections, ReadHdr, HeadersOk, StrTab, NameOk,
         OldTable, NewSection, RawOk, Field;
  }

  method BuildReferenced(peIn: bytes, ref: PdbRef) returns (out: bytes)
    requires PdbReady(peIn, ref)
    ensures IsReferenced(peIn, out, ref)
  {
    hide WellFormed, PdbLayoutOf, OldTable, HeadIs, IsReferenced, HeaderExpansion, FreeOffset, VaEnd, RoundUp, ReadHdr,
         AllFit, ShiftAll, InWidth, Moved, ReadSections, SectionFits, RefOk, Zeros, Le;
    PdbReadyParts(peIn, ref);
    PdbReadyBounds(peIn, ref);
    HeadOfParsed(peIn);
    ghost var pe, l := ParsePe(peIn), PdbLayoutOf(peIn, ref);
    var e := Lfanew(peIn);
    var hdr := ReadHdr(peIn, e);
    assert pe.e == e && pe.hdr == hdr;
    var size := PayloadSize(ref);
    var shift := HeaderExpansion(ParsePe(peIn), SECTION_SIZE);
    var strtab := OldTable(peIn, hdr);
    var va, offset := ComputeLayout(peIn, shift);
    var end := offset + RoundUp(size, hdr.fileAlign);
    var copy := CopyAndGrow(peIn, e, hdr, pe.secs, shift, end + SYMBOL_SIZE * hdr.nSymbols + |strtab|);
    var sec := NewSection(DEBUG_NAME, size, va, offset, hdr.fileAlign, READ_INITIALIZED);
    PayloadLength(ref, va, offset);
    out := PlaceReference(copy, peIn, e, hdr, pe.secs, shift, sec, ref, strtab, end, RoundUp(va + size, hdr.sectAlign));
    ReferencedAsLaidOut(peIn, out, ref);
  }

  /** Symbols, the new section and its payload, the data directory, and the final patches. */
  method PlaceReference(image: bytes, peIn: bytes, e: nat, hdr: Hdr, ghost secs: seq<Section>, shift: nat, sec: Section,
                        ref: PdbRef, strtab: bytes, end: nat, vaEnd: nat)
    returns (out: bytes)
    requires HeadIs(peIn, e, hdr, secs) && |secs| == hdr.nSections && SymbolsOk(peIn, hdr) && SectionFits(sec)
    requires HeadIs(image, e, GrownHdr(hdr, shift), ShiftAll(secs, shift))
             && Moved(peIn, image, hdr.sizeOfHeaders, shift)
    requires TableAt(e, hdr) + SECTION_SIZE * (|secs| + 1) <= hdr.sizeOfHeaders + shift <= |peIn| + shift <= sec.rawPtr
    requires sec.rawPtr + |Payload(ref, sec.va, sec.rawPtr)| <= end
             && |image| == end + SYMBOL_SIZE * hdr.nSymbols + |strtab|
    requires InWidth(end, 4) && InWidth(hdr.nSections + 1, 2) && InWidth(vaEnd, 4) && InWidth(sec.va, 4)
    ensures HeadIs(out, e, FinalHdr(DebugHdr(GrownHdr(hdr, shift), sec.va), hdr.nSections + 1, end, vaEnd),
                   ShiftAll(secs, shift) + [sec])
    ensures Moved(peIn, out, hdr.sizeOfHeaders, shift)
    ensures SliceIs(out, sec.rawPtr, Payload(ref, sec.va, sec.rawPtr))
    ensures SliceIs(out, end + SYMBOL_SIZE * hdr.nSymbols, strtab)
    ensures SliceIs(out, end, SymbolBytes(peIn, hdr))
  {
    hide HeadIs, Moved, SliceIs, SymbolBytes, SymbolsOk, SameFrom, InWidth, AllFit, ShiftAll, GrownHdr, FinalHdr, Put,
         Le, Payload, EncSection, SectionFits, OthersKept, DataAt;
    ghost var headers := hdr.sizeOfHeaders + shift;
    ghost var table := TableAt(e, hdr) + SECTION_SIZE * (|secs| + 1);
    var h1 := GrownHdr(hdr, shift);
    GrownSame(hdr, shift);
    ghost var moved := ShiftAll(secs, shift);
    var s1 := PlaceSymbols(image, peIn, hdr, shift, end, strtab);
    HeadKept(image, s1, e, h1, moved, end);
    Prefixes(image, s1, end, headers);
    MovedKept(peIn, image, s1, hdr.sizeOfHeaders, shift, end);
    var payload := Payload(ref, sec.va, sec.rawPtr);
    OneSection(s1, e, h1, moved, sec, payload, headers, headers, end, end);
    var s2 := Put(s1, TableAt(e, hdr) + SECTION_SIZE * hdr.nSections, EncSection(sec));
    s2 := Put(s2, sec.rawPtr, payload);
    ReferenceKept(s1, s2, sec, payload, headers, end);
    HeadRoom(s2, e, h1, moved + [sec]);
    PutHdrHead(s2, e, h1, moved + [sec], DebugVa, sec.va);
    var s3 := Put(s2, e + At(DebugVa), Le(sec.va, 4));
    ghost var h2 := h1.(debugVa := sec.va);
    WidthOf28();
    PutHdrHead(s3, e, h2, moved + [sec], DebugSize, DIRECTORY_SIZE);
    var s4 := Put(s3, e + At(DebugSize), Le(DIRECTORY_SIZE, 4));
    SameFromTrans(s2, s3, s4, table, table, table);
    out := PatchHeaders(s4, e, DebugHdr(h1, sec.va), moved + [sec], hdr.nSections + 1, end, vaEnd);
    SameFromTrans(s2, s4, out, table, table, table);
    OneEntryHeld(s2, sec, payload);
    AllKept(peIn, s1, s2, out, hdr, shift, sec.rawPtr, end, strtab, table, [sec], [Entry([], payload)]);
    OneEntryBack(out, sec, payload);
  }

  lemma WidthOf28()
    ensures InWidth(DIRECTORY_SIZE, 4)
  {
  }

  lemma ReferenceKept(s: bytes, t: bytes, sec: Section, payload: bytes, headers: nat, end: nat)
    requires |t| == |s| && headers <= sec.rawPtr && sec.rawPtr + |payload| <= end <= |s|
    requires t[headers..sec.rawPtr] == s[headers..sec.rawPtr] && t[sec.rawPtr..sec.rawPtr + |payload|] == payload
    requires t[end..] == s[end..]
    ensures OthersKept(s, t, headers, sec.rawPtr, end) && SliceIs(t, sec.rawPtr, payload)
  {
  }

  lemma OneEntryHeld(s: bytes, sec: Section, payload: bytes)
    requires SliceIs(s, sec.rawPtr, payload)
    ensures DataAt(s, [sec], [Entry([], payload)])
  {
  }

  lemma OneEntryBack(s: bytes, sec: Section, payload: bytes)
    requires DataAt(s, [sec], [Entry([], payload)])
    ensures SliceIs(s, sec.rawPtr, payload)
  {
    assert [sec][0] == sec && [Entry([], payload)][0].data == payload;
    assert SliceIs(s, [sec][0].rawPtr, [Entry([], payload)][0].data);
  }

  lemma ReferencedAsLaidOut(a: bytes, b: bytes, ref: PdbRef)
    requires PdbReady(a, ref)
    requires var pe, l := ParsePe(a), PdbLayoutOf(a, ref);
             && HeadIs(b, pe.e, FinalHdr(DebugHdr(GrownHdr(pe.hdr, l.shift), l.va), pe.hdr.nSections + 1, l.end, l.vaEnd),
                       ShiftAll(pe.secs, l.shift) + [l.section])
             && Moved(a, b, pe.hdr.sizeOfHeaders, l.shift) && SliceIs(b, l.offset, Payload(ref, l.va, l.offset))
             && SliceIs(b, l.end + SYMBOL_SIZE * pe.hdr.nSymbols, OldTable(a, pe.hdr))
             && SliceIs(b, l.end, SymbolBytes(a, pe.hdr))
    ensures IsReferenced(a, b, ref)
  {
    hide HeadIs, Moved, SliceIs, SymbolBytes, ShiftAll, RoundUp, ReadHdr, FreeOffset, HasTable, NameOk, Payload,
         OldTable, NewSection;
    var pe, l := ParsePe(a), PdbLayoutOf(a, ref);
    ParsedOfHead(b, pe.e, FinalHdr(DebugHdr(GrownHdr(pe.hdr, l.shift), l.va), pe.hdr.nSections + 1, l.end, l.vaEnd),
                 ShiftAll(pe.secs, l.shift) + [l.section]);
  }
}
