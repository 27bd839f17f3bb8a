/** What an image with injected DWARF sections means to a loader and to a debugger. */
module DwarfInjection {
  import opened Bytes
  import opened PeImage
  import opened PeView
  import opened PeEdit
  import opened PeNames
  import opened DwarfInjector

  lemma StrTabReads(b: bytes, hdr: Hdr, strtab: bytes)
    requires hdr.symPtr != 0 && SliceIs(b, StrTabAt(hdr), strtab)
    requires 4 <= |strtab| < 0x1_0000_0000 && strtab[..4] == Le(|strtab|, 4)
    ensures StrTab(b, hdr) == Some(strtab)
  {
    hide FromLe, Le, StrTabAt, Field, SliceIs;
    SizeFieldReads(b, StrTabAt(hdr), strtab);
    SliceParts(b, StrTabAt(hdr), strtab);
  }

  lemma SliceParts(b: bytes, at: nat, d: bytes)
    requires SliceIs(b, at, d)
    ensures at + |d| <= |b| && b[at..at + |d|] == d
  {
  }

  lemma SizeFieldReads(b: bytes, at: nat, strtab: bytes)
    requires SliceIs(b, at, strtab) && 4 <= |strtab| < 0x1_0000_0000 && strtab[..4] == Le(|strtab|, 4)
    ensures Field(b, at, 4) == |strtab|
  {
    hide FromLe, Le;
    SubRange(b, at, at + |strtab|, 0, 4);
    FromZero(strtab, 4);
    Pow256Values();
    LeRoundTrip(|strtab|, 4);
    SmallMod(|strtab|, Pow256(4));
  }

  lemma ExtendedTableSize(old_: bytes, names: seq<bytes>)
    requires |old_| >= 4
    ensures ExtendedStrTab(old_, names)[..4] == Le(|ExtendedStrTab(old_, names)|, 4)
    ensures ExtendedStrTab(old_, names)[4..|old_|] == old_[4..]
  {
    hide NamesBytes, Le;
  }

  /** The injected image's string table is the extended one. */
  lemma InjectedStrTab(a: bytes, b: bytes, es: seq<Entry>)
    requires Ready(a, es) && EntriesOk(es) && IsInjected(a, b, es)
    ensures StrTab(b, ParsePe(b).hdr) == Some(LayoutOf(a, es).strtab)
  {
    hide HasTable, StrTab, RoundUp, NamesBytes, AddedFrom, OffsetAfter, VaAfter, RenameAll, ShiftAll, Moved, DataAt,
         SymbolBytes, SliceIs, ReadSections, NameOk, FreeOffset, EntriesOk, ReadHdr, VaEnd, Le, Field, ExtendedStrTab,
         HeadersOk, AllFit, LaidOut;
    ReadyParts(a, es);
    ReadyBounds(a, es);
    var pe, l := ParsePe(a), LayoutOf(a, es);
    ExtendedTableSize(OldTable(a, pe.hdr), NamesOf(es));
    StrTabReads(b, ParsePe(b).hdr, l.strtab);
  }

  /** The sections of the injected image: the old ones moved and possibly renamed, then the new ones. */
  lemma InjectedSections(a: bytes, b: bytes, es: seq<Entry>)
    requires Ready(a, es) && EntriesOk(es) && IsInjected(a, b, es)
    ensures HasTable(a) && HasTable(b)
    ensures var pa, pb, l := ParsePe(a), ParsePe(b), LayoutOf(a, es);
            && |pb.secs| == |pa.secs| + |es| == pb.hdr.nSections && |l.added| == |es|
            && pb.secs[|pa.secs|..] == l.added
            && (forall i | 0 <= i < |pa.secs| :: pb.secs[i] == Rename(Shift(pa.secs[i], l.shift), StrTab(a, pa.hdr)))
            && (forall j | 0 <= j < |es| :: pb.secs[|pa.secs| + j] == l.added[j])
  {
    hide HasTable, StrTab, RoundUp, NamesBytes, OffsetAfter, VaAfter, Moved, DataAt, SymbolBytes, SliceIs, ReadSections,
         NameOk, FreeOffset, EntriesOk, ReadHdr, VaEnd, ExtendedStrTab, Rename, Shift;
    ReadyParts(a, es);
  }

  /** The loader's view of the input is kept, headers expanded or not. */
  lemma InjectionKeepsView(a: bytes, b: bytes, es: seq<Entry>)
    requires Ready(a, es) && EntriesOk(es) && IsInjected(a, b, es)
    ensures HasTable(a) && HasTable(b) && ViewKept(a, b)
  {
    InjectionExtends(a, b, es);
    ExtendedKeepsView(a, b, LayoutOf(a, es).shift, LayoutOf(a, es).added, DatasOf(es), LayoutOf(a, es).strtab);
  }

  lemma InjectionExtends(a: bytes, b: bytes, es: seq<Entry>)
    requires Ready(a, es) && EntriesOk(es) && IsInjected(a, b, es)
    ensures WellFormed(a)
    ensures Extends(a, b, LayoutOf(a, es).shift, LayoutOf(a, es).added, DatasOf(es), LayoutOf(a, es).strtab)
  {
    hide HasTable, StrTab, RoundUp, NamesBytes, AddedFrom, OffsetAfter, VaAfter, RenameAll, ShiftAll, Moved,
         SymbolBytes, ReadSections, NameOk, FreeOffset, EntriesOk, ReadHdr, VaEnd, ExtendedStrTab, HeaderExpansion,
         ResolveName, OldTable, HeadersOk, Le, Field;
    ReadyParts(a, es);
    ReadyBounds(a, es);
    InjectedStrTab(a, b, es);
    InjectedSections(a, b, es);
    var pa, pb, l := ParsePe(a), ParsePe(b), LayoutOf(a, es);
    forall i | 0 <= i < |pa.secs| ensures SameButName(pb.secs[i], Shift(pa.secs[i], l.shift)) {
      assert SectionFits(pa.secs[i]);
    }
    forall j | 0 <= j < |es| ensures Holds(b, l.added[j], DatasOf(es)[j], pb.hdr) {
      assert SliceIs(b, l.added[j].rawPtr, es[j].data);
    }
  }

  // ----- Well-formedness, for the next injection ------------------------------------------------------

  lemma OldNameOk(a: bytes, es: seq<Entry>, name: bytes)
    requires Ready(a, es) && NameOk(name, StrTab(a, ParsePe(a).hdr))
    ensures NameOk(name, Some(LayoutOf(a, es).strtab))
    ensures ResolveName(name, Some(LayoutOf(a, es).strtab)) == ResolveName(name, StrTab(a, ParsePe(a).hdr))
  {
    hide HasTable, RoundUp, NamesBytes, AddedFrom, OffsetAfter, VaAfter, ReadSections, FreeOffset, ReadHdr, VaEnd,
         ExtendedStrTab, Le;
    ReadyParts(a, es);
    var hdr := ParsePe(a).hdr;
    ExtendedTableSize(OldTable(a, hdr), NamesOf(es));
    if hdr.symPtr != 0 {
      NameStable(name, OldTable(a, hdr), LayoutOf(a, es).strtab);
    }
  }

  lemma NewNameOk(a: bytes, es: seq<Entry>, j: nat)
    requires Ready(a, es) && EntriesOk(es) && j < |es|
    ensures j < |LayoutOf(a, es).added|
    ensures NameOk(LayoutOf(a, es).added[j].name, Some(LayoutOf(a, es).strtab))
    ensures ResolveName(LayoutOf(a, es).added[j].name, Some(LayoutOf(a, es).strtab)) == es[j].name
  {
    hide WellFormed, RoundUp, IsPow2, NamesBytes, OffsetAfter, VaAfter, FreeOffset, VaEnd, ExtendedStrTab, OldTable,
         NameOk, ResolveName, LongName, AddedFrom, LayoutOf, StrTabSize, HeaderExpansion, HasTable, IsDebugName, NoNul,
         ParsePe, Ready;
    ReadyParts(a, es);
    var pe, l, old_ := ParsePe(a), LayoutOf(a, es), OldTable(a, ParsePe(a).hdr);
    AddedNames(es, |old_|, l.va, l.start, pe.hdr.fileAlign, pe.hdr.sectAlign, j);
    DebugNotEmpty(es[j].name);
    NewNameReads(old_, NamesOf(es), j);
  }

  lemma DebugNotEmpty(name: bytes)
    requires IsDebugName(name)
    ensures name != []
  {
  }

  /** The headers of the injected image, against those of the input. */
  lemma InjectedHeaders(a: bytes, b: bytes, es: seq<Entry>)
    requires Ready(a, es) && EntriesOk(es) && IsInjected(a, b, es)
    ensures HasTable(b)
    ensures var pa, pb, l := ParsePe(a), ParsePe(b), LayoutOf(a, es);
            && pb.hdr.fileAlign == pa.hdr.fileAlign && pb.hdr.sectAlign == pa.hdr.sectAlign
            && pb.hdr.sizeOfHeaders == pa.hdr.sizeOfHeaders + l.shift
            && pb.hdr.symPtr == l.end && TableEnd(pb) <= pb.hdr.sizeOfHeaders <= |a| + l.shift <= pb.hdr.symPtr
            && Moved(a, b, pa.hdr.sizeOfHeaders, l.shift)
            && forall j | 0 <= j < |es| :: SliceIs(b, l.added[j].rawPtr, es[j].data)
    ensures LayoutOf(a, es).end <= |b|
  {
    hide HasTable, WellFormed, LayoutOf, StrTabSize, ReadSections, ReadHdr, HeadersOk, Moved, SliceIs, LaidOut, AllFit,
         ShiftAll, RenameAll, IsPow2, RoundUp, VaAfter, OffsetAfter, SymbolBytes, InWidth, EntriesOk, OldTable, AddedFrom;
    ReadyParts(a, es);
    ReadyBounds(a, es);
    InjectedSections(a, b, es);
    SliceEnd(b, LayoutOf(a, es).end, SymbolBytes(a, ParsePe(a).hdr));
  }

  lemma SliceEnd(b: bytes, at: nat, d: bytes)
    requires SliceIs(b, at, d)
    ensures at <= |b|
  {
  }

  lemma InjectedOldOk(a: bytes, b: bytes, es: seq<Entry>, i: nat)
    requires Ready(a, es) && EntriesOk(es) && IsInjected(a, b, es) && i < |ParsePe(a).secs|
    ensures HasTable(b) && i < |ParsePe(b).secs|
    ensures RawOk(ParsePe(b).secs[i], ParsePe(b).hdr, |b|) && NameOk(ParsePe(b).secs[i].name, StrTab(b, ParsePe(b).hdr))
  {
    hide HasTable, Ready, IsInjected, EntriesOk, LayoutOf, StrTab, NameOk, IsPow2, ParsePe, SymbolsOk, Rename;
    ReadyParts(a, es);
    InjectedHeaders(a, b, es);
    InjectedSections(a, b, es);
    InjectedStrTab(a, b, es);
    var pa, pb, l := ParsePe(a), ParsePe(b), LayoutOf(a, es);
    assert RawOk(pa.secs[i], pa.hdr, |a|) && NameOk(pa.secs[i].name, StrTab(a, pa.hdr));
    OldNameOk(a, es, pa.secs[i].name);
    PlainNameOk(StrTab(b, pb.hdr));
    RenamedOrNot(Shift(pa.secs[i], l.shift), StrTab(a, pa.hdr));
  }

  lemma RenamedOrNot(sec: Section, strtab: Option<bytes>)
    ensures Rename(sec, strtab) == sec || Rename(sec, strtab) == sec.(name := OLD_DW)
  {
    hide ResolveName, IsDebugName;
  }

  lemma InjectedNewOk(a: bytes, b: bytes, es: seq<Entry>, j: nat)
    requires Ready(a, es) && EntriesOk(es) && IsInjected(a, b, es) && j < |es|
    ensures HasTable(b) && |ParsePe(a).secs| + j < |ParsePe(b).secs|
    ensures var sec, hdr := ParsePe(b).secs[|ParsePe(a).secs| + j], ParsePe(b).hdr;
            RawOk(sec, hdr, |b|) && NameOk(sec.name, StrTab(b, hdr))
  {
    hide HasTable, Ready, IsInjected, EntriesOk, LayoutOf, StrTab, NameOk, IsPow2, ParsePe, SymbolsOk, WellFormed,
         OffsetAfter, VaAfter, SliceIs, Moved, AllFit, ShiftAll;
    ReadyParts(a, es);
    ReadyBounds(a, es);
    InjectedHeaders(a, b, es);
    InjectedSections(a, b, es);
    InjectedStrTab(a, b, es);
    NewNameOk(a, es, j);
    assert ParsePe(b).secs[|ParsePe(a).secs| + j] == LayoutOf(a, es).added[j];
  }

  lemma InjectionWellFormed(a: bytes, b: bytes, es: seq<Entry>)
    requires Ready(a, es) && EntriesOk(es) && IsInjected(a, b, es)
    ensures WellFormed(b)
  {
    hide HasTable, Ready, IsInjected, EntriesOk, LayoutOf, StrTab, NameOk, IsPow2, RawOk, ParsePe, Moved, SliceIs, OldTable,
         AddedFrom, OffsetAfter, VaAfter, RoundUp, ExtendedStrTab, StrTabSize, HeaderExpansion, FreeOffset;
    ReadyParts(a, es);
    InjectedHeaders(a, b, es);
    InjectedSections(a, b, es);
    InjectedStrTab(a, b, es);
    var n := |ParsePe(a).secs|;
    forall i | 0 <= i < |ParsePe(b).secs|
      ensures RawOk(ParsePe(b).secs[i], ParsePe(b).hdr, |b|)
              && NameOk(ParsePe(b).secs[i].name, StrTab(b, ParsePe(b).hdr))
    {
      if i < n {
        InjectedOldOk(a, b, es, i);
      } else {
        InjectedNewOk(a, b, es, i - n);
      }
    }
  }

  lemma PlainNameOk(strtab: Option<bytes>)
    ensures NameOk(OLD_DW, strtab)
    ensures ResolveName(OLD_DW, strtab) == OLD_DW[..7]
  {
    assert OLD_DW == OLD_DW[..7] + [0];
    TrimNulOfText(OLD_DW[..7], [0]);
  }

  // ----- Names ----------------------------------------------------------------------------------------------

  /** Old names survive unless they start with `.debug`; no old section answers to an injected name;
      each injected name is resolved by its own section and by no other. */
  ghost predicate NamesRight(a: bytes, b: bytes, es: seq<Entry>)
    requires HasTable(a) && HasTable(b)
  {
    var pa, pb := ParsePe(a), ParsePe(b);
    && |pb.secs| == |pa.secs| + |es|
    && (forall i | 0 <= i < |pa.secs| ::
          NameIn(b, pb, i) == if IsDebugName(NameIn(a, pa, i)) then OLD_DW[..7] else NameIn(a, pa, i))
    && (forall i, j | 0 <= i < |pb.secs| && 0 <= j < |es| ::
          NameIn(b, pb, i) == es[j].name <==> i == |pa.secs| + j)
  }

  lemma InjectionNames(a: bytes, b: bytes, es: seq<Entry>)
    requires Ready(a, es) && EntriesOk(es) && IsInjected(a, b, es)
    ensures HasTable(a) && HasTable(b) && NamesRight(a, b, es)
  {
    hide Ready, IsInjected, EntriesOk, HasTable, ParsePe, NameIn, IsDebugName, LayoutOf, WellFormed, AddedFrom, VaAfter;
    InjectedRange(a, b, es);
    var pa, pb := ParsePe(a), ParsePe(b);
    forall i | 0 <= i < |pa.secs|
      ensures NameIn(b, pb, i) == if IsDebugName(NameIn(a, pa, i)) then OLD_DW[..7] else NameIn(a, pa, i)
    {
      OldNameIn(a, b, es, i);
    }
    forall j | 0 <= j < |es| ensures NameIn(b, pb, |pa.secs| + j) == es[j].name {
      NewNameIn(a, b, es, j);
    }
    OldDwIsNotDebug();
    hide OLD_DW;
    var names := seq(|pb.secs|, i requires 0 <= i < |pb.secs| => NameIn(b, pb, i));
    OwnNamesOnly(names, |pa.secs|, es);
    assert forall i | 0 <= i < |pb.secs| :: names[i] == NameIn(b, pb, i);
  }

  lemma OldNameIn(a: bytes, b: bytes, es: seq<Entry>, i: nat)
    requires Ready(a, es) && EntriesOk(es) && IsInjected(a, b, es)
    requires HasTable(a) && i < |ParsePe(a).secs|
    ensures HasTable(b) && i < |ParsePe(b).secs|
    ensures NameIn(b, ParsePe(b), i)
         == if IsDebugName(NameIn(a, ParsePe(a), i)) then OLD_DW[..7] else NameIn(a, ParsePe(a), i)
  {
    hide Ready, IsInjected, EntriesOk, HasTable, ParsePe, IsDebugName, LayoutOf, StrTab, NameOk, ResolveName, WellFormed,
         AddedFrom, OldTable, VaAfter, OffsetAfter, ExtendedStrTab, HeaderExpansion, RoundUp, IsPow2, VaEnd, SymbolsOk;
    InjectedStrTab(a, b, es);
    InjectedSections(a, b, es);
    ReadyParts(a, es);
    InputNameOk(a, i);
    var pa, pb, l := ParsePe(a), ParsePe(b), LayoutOf(a, es);
    OldNameOk(a, es, pa.secs[i].name);
    PlainNameOk(StrTab(b, pb.hdr));
    assert pb.secs[i] == Rename(Shift(pa.secs[i], l.shift), StrTab(a, pa.hdr));
  }

  lemma InputNameOk(a: bytes, i: nat)
    requires WellFormed(a) && i < |ParsePe(a).secs|
    ensures HasTable(a) && NameOk(ParsePe(a).secs[i].name, StrTab(a, ParsePe(a).hdr))
  {
    hide NameOk, StrTab, HasTable, ParsePe;
  }

  lemma NewNameIn(a: bytes, b: bytes, es: seq<Entry>, j: nat)
    requires Ready(a, es) && EntriesOk(es) && IsInjected(a, b, es) && j < |es|
    ensures HasTable(a) && HasTable(b) && |ParsePe(a).secs| + j < |ParsePe(b).secs|
    ensures NameIn(b, ParsePe(b), |ParsePe(a).secs| + j) == es[j].name
  {
    hide Ready, IsInjected, EntriesOk, HasTable, ParsePe, LayoutOf, StrTab, NameOk, ResolveName, WellFormed, AddedFrom,
         Rename, Shift, OldTable, VaAfter, OffsetAfter, ExtendedStrTab, HeaderExpansion, RoundUp, IsPow2, VaEnd, SymbolsOk;
    ReadyParts(a, es);
    InjectedStrTab(a, b, es);
    InjectedSections(a, b, es);
    NewNameOk(a, es, j);
    var pb, i := ParsePe(b), |ParsePe(a).secs| + j;
    assert pb.secs[i] == LayoutOf(a, es).added[j];
    assert NameIn(b, pb, i) == ResolveName(pb.secs[i].name, StrTab(b, pb.hdr));
  }

  lemma OwnNamesOnly(names: seq<bytes>, n: nat, es: seq<Entry>)
    requires EntriesOk(es) && |names| == n + |es|
    requires forall i | 0 <= i < n :: !IsDebugName(names[i])
    requires forall j | 0 <= j < |es| :: names[n + j] == es[j].name
    ensures forall i, j | 0 <= i < |names| && 0 <= j < |es| :: names[i] == es[j].name <==> i == n + j
  {
    hide IsDebugName, NoNul;
    forall i, j | 0 <= i < |names| && 0 <= j < |es|
      ensures names[i] == es[j].name <==> i == n + j
    {
      assert IsDebugName(es[j].name);
      if i >= n {
        var k := i - n;
        assert names[n + k] == es[k].name;
        assert k < j ==> es[k].name != es[j].name;
        assert j < k ==> es[j].name != es[k].name;
      }
    }
  }

  lemma OldDwIsNotDebug()
    ensures !IsDebugName(OLD_DW[..7])
  {
    assert OLD_DW[..7][1] != DEBUG[1];
  }

  // ----- Contents ---------------------------------------------------------------------------------------------

  /** A debugger's lookup: the file bytes of the first section with the name, up to its virtual size. */
  function SectionByName(s: bytes, pe: Pe, name: bytes, from: nat): Option<bytes>
    requires from <= |pe.secs|
    decreases |pe.secs| - from
  {
    if from == |pe.secs| then None
    else if NameIn(s, pe, from) == name then
      var sec := pe.secs[from];
      if sec.rawPtr + sec.vSize > |s| then None else Some(s[sec.rawPtr..sec.rawPtr + sec.vSize])
    else SectionByName(s, pe, name, from + 1)
  }

  lemma {:induction false} SectionByNameAt(s: bytes, pe: Pe, name: bytes, from: nat, i: nat)
    requires from <= i < |pe.secs| && NameIn(s, pe, i) == name
    requires forall k | from <= k < i :: NameIn(s, pe, k) != name
    requires pe.secs[i].rawPtr + pe.secs[i].vSize <= |s|
    ensures SectionByName(s, pe, name, from) == Some(s[pe.secs[i].rawPtr..pe.secs[i].rawPtr + pe.secs[i].vSize])
    decreases i - from
  {
    hide NameIn;
    if from < i {
      SectionByNameAt(s, pe, name, from + 1, i);
    }
  }

  /** Every injected section is found under its name with its bytes, even when the input had a section
      of that name. */
  lemma InjectionFoundByName(a: bytes, b: bytes, es: seq<Entry>, j: nat)
    requires Ready(a, es) && EntriesOk(es) && IsInjected(a, b, es) && j < |es|
    ensures HasTable(a) && HasTable(b) && SectionByName(b, ParsePe(b), es[j].name, 0) == Some(es[j].data)
  {
    hide HasTable, IsInjected, EntriesOk, ReadSections, ReadHdr, HeadersOk, LayoutOf, NameIn, FindSection, SameButName,
         Moved, StrTab, WellFormed;
    InjectionNames(a, b, es);
    InjectionExtends(a, b, es);
    var pa, pb, l := ParsePe(a), ParsePe(b), LayoutOf(a, es);
    var i := |pa.secs| + j;
    assert pb.secs[i] == l.added[j];
    assert Holds(b, l.added[j], DatasOf(es)[j], pb.hdr);
    SectionByNameAt(b, pb, es[j].name, 0, i);
  }

  /** The old sections keep their ranges, and the new ones are laid out behind them. */
  lemma InjectionRanges(a: bytes, b: bytes, es: seq<Entry>)
    requires Ready(a, es) && EntriesOk(es) && IsInjected(a, b, es)
    ensures HasTable(a) && HasTable(b)
    ensures var pa, pb, l := ParsePe(a), ParsePe(b), LayoutOf(a, es);
            && |pb.secs| == |pa.secs| + |es| && |l.added| == |es| && pb.secs[|pa.secs|..] == l.added
            && (forall k | 0 <= k < |pa.secs| :: pb.secs[k].va == pa.secs[k].va && Span(pb.secs[k]) == Span(pa.secs[k]))
            && (forall j | 0 <= j < |es| :: pb.secs[|pa.secs| + j] == l.added[j])
            && VaEnd(pa.secs) <= l.va
  {
    hide HasTable, Ready, IsInjected, EntriesOk, ReadSections, ReadHdr, HeadersOk, LayoutOf, Moved, StrTab, WellFormed,
         LaidOut, RoundUp, IsPow2, Shift, AllFit, HeaderExpansion, FreeOffset, AddedFrom, VaAfter, OffsetAfter, Holds;
    InjectionExtends(a, b, es);
    ReadyParts(a, es);
    var pa, pb, l := ParsePe(a), ParsePe(b), LayoutOf(a, es);
    forall k | 0 <= k < |pa.secs| ensures pb.secs[k].va == pa.secs[k].va && Span(pb.secs[k]) == Span(pa.secs[k]) {
      assert SameButName(pb.secs[k], Shift(pa.secs[k], l.shift));
      ShiftSpan(pa.secs[k], l.shift);
    }
  }

  /** An injected section is found at its addresses as soon as all injected before it fit. */
  lemma InjectedFoundAt(a: bytes, b: bytes, es: seq<Entry>, j: nat)
    requires Ready(a, es) && EntriesOk(es) && IsInjected(a, b, es) && j < |es|
    requires SpansFit(es, j, ParsePe(a).hdr.fileAlign, ParsePe(a).hdr.sectAlign)
    ensures HasTable(a) && HasTable(b) && |ParsePe(a).secs| + j < |ParsePe(b).secs|
    ensures FoundAt(ParsePe(b).secs, |ParsePe(a).secs| + j)
  {
    hide HasTable, Ready, IsInjected, EntriesOk, ReadSections, ReadHdr, HeadersOk, LayoutOf, StrTab, WellFormed, VaEnd,
         RoundUp, IsPow2, AllFit, HeaderExpansion, FreeOffset, AddedFrom, VaAfter, OffsetAfter, SpansFit, FoundAt;
    ReadyParts(a, es);
    ReadyBounds(a, es);
    InjectionRanges(a, b, es);
    var pa, pb, l := ParsePe(a), ParsePe(b), LayoutOf(a, es);
    forall i | 0 <= i < j ensures l.added[i].va + Span(l.added[i]) <= l.added[j].va {
      FitIsClear(es, |OldTable(a, pa.hdr)|, l.va, l.start, pa.hdr.fileAlign, pa.hdr.sectAlign, i, j);
    }
    BeyondFound(pa.secs, pb.secs, l.added, j);
  }

  /** One that does not fit takes over the first address of the next. */
  lemma UnfitShadows(a: bytes, b: bytes, es: seq<Entry>, j: nat)
    requires Ready(a, es) && EntriesOk(es) && IsInjected(a, b, es) && j + 1 < |es|
    requires RoundUp(|es[j].data|, ParsePe(a).hdr.fileAlign) > RoundUp(|es[j].data|, ParsePe(a).hdr.sectAlign)
    ensures HasTable(a) && HasTable(b) && |ParsePe(a).secs| + j + 1 < |ParsePe(b).secs|
    ensures !FoundAt(ParsePe(b).secs, |ParsePe(a).secs| + j + 1)
  {
    hide HasTable, Ready, IsInjected, ReadSections, ReadHdr, HeadersOk, LayoutOf, StrTab, WellFormed, VaEnd, NamesBytes,
         RoundUp, IsPow2, AllFit, HeaderExpansion, FreeOffset, AddedFrom, VaAfter, OffsetAfter, EntriesOk, OldTable,
         FoundAt, LaidOut, Contains, Span;
    ReadyParts(a, es);
    ReadyBounds(a, es);
    InjectionRanges(a, b, es);
    var pa, pb, l := ParsePe(a), ParsePe(b), LayoutOf(a, es);
    UnfitOverlaps(es, |OldTable(a, pa.hdr)|, l.va, l.start, pa.hdr.fileAlign, pa.hdr.sectAlign, j);
    ShadowedNext(pa.secs, pb.secs, l.added, j);
  }

  lemma ShadowedNext(old_: seq<Section>, now: seq<Section>, added: seq<Section>, j: nat)
    requires |now| == |old_| + |added| && j + 1 < |added|
    requires forall k | 0 <= k < |old_| :: now[k].va == old_[k].va && Span(now[k]) == Span(old_[k])
    requires now[|old_|..] == added && forall k | 0 <= k < |added| :: VaEnd(old_) <= added[k].va
    requires forall k | 0 <= k <= j :: added[k].va < added[j + 1].va
    requires Contains(added[j], added[j + 1].va) && added[j + 1].vSize > 0
    ensures !FoundAt(now, |old_| + j + 1)
  {
    hide FindSection, VaEnd;
    var n, rva := |old_|, added[j + 1].va;
    assert now[n + j] == added[j] && now[n + j + 1] == added[j + 1];
    forall i | 0 <= i <= n + j && Contains(now[i], rva) ensures now[i].va < rva {
      if i >= n {
        assert now[i] == added[i - n];
      }
    }
    if FindSection(now, rva).Some? {
      var h := FindSectionIndex(now, rva);
      assert now[h].va < rva;
    }
  }

  /** The new sections are found at their addresses exactly when all but the last fit. */
  lemma InjectionByAddress(a: bytes, b: bytes, es: seq<Entry>)
    requires Ready(a, es) && EntriesOk(es) && IsInjected(a, b, es)
    ensures HasTable(a) && HasTable(b) && |ParsePe(b).secs| == |ParsePe(a).secs| + |es|
    ensures (forall i | |ParsePe(a).secs| <= i < |ParsePe(b).secs| :: FoundAt(ParsePe(b).secs, i)) <==>
            SpansFit(es, |es| - 1, ParsePe(a).hdr.fileAlign, ParsePe(a).hdr.sectAlign)
  {
    hide *;
    ReadyAligned(a, es);
    InjectionRanges(a, b, es);
    var fa, sa := ParsePe(a).hdr.fileAlign, ParsePe(a).hdr.sectAlign;
    if SpansFit(es, |es| - 1, fa, sa) {
      forall i | |ParsePe(a).secs| <= i < |ParsePe(b).secs| ensures FoundAt(ParsePe(b).secs, i) {
        FewerFit(es, i - |ParsePe(a).secs|, |es| - 1, fa, sa);
        InjectedFoundAt(a, b, es, i - |ParsePe(a).secs|);
      }
    } else {
      var j := AnUnfit(es, |es| - 1, fa, sa);
      UnfitShadows(a, b, es, j);
    }
  }

  lemma FewerFit(es: seq<Entry>, m: int, n: int, fa: nat, sa: nat)
    requires IsPow2(fa) && IsPow2(sa) && m <= n <= |es| && SpansFit(es, n, fa, sa)
    ensures SpansFit(es, m, fa, sa)
  {
    hide RoundUp, IsPow2;
  }

  lemma ReadyAligned(a: bytes, es: seq<Entry>)
    requires Ready(a, es)
    ensures HasTable(a) && IsPow2(ParsePe(a).hdr.fileAlign) && IsPow2(ParsePe(a).hdr.sectAlign)
  {
    hide LayoutOf, HasTable, IsPow2;
  }

  lemma AnUnfit(es: seq<Entry>, n: int, fa: nat, sa: nat) returns (j: nat)
    requires IsPow2(fa) && IsPow2(sa) && n <= |es| && !SpansFit(es, n, fa, sa)
    ensures j < n && RoundUp(|es[j].data|, fa) > RoundUp(|es[j].data|, sa)
  {
    hide RoundUp, IsPow2;
    j :| 0 <= j < n && RoundUp(|es[j].data|, fa) > RoundUp(|es[j].data|, sa);
  }

  /** What an injected section holds. */
  lemma InjectedEntryAt(a: bytes, b: bytes, es: seq<Entry>, j: nat)
    requires Ready(a, es) && EntriesOk(es) && IsInjected(a, b, es) && j < |es|
    ensures HasTable(a) && HasTable(b) && |ParsePe(a).secs| + j < |ParsePe(b).secs|
    ensures Holds(b, ParsePe(b).secs[|ParsePe(a).secs| + j], es[j].data, ParsePe(b).hdr)
  {
    hide HasTable, IsInjected, EntriesOk, ReadSections, ReadHdr, HeadersOk, LayoutOf, Moved, StrTab, WellFormed,
         SameButName, Holds;
    InjectionExtends(a, b, es);
    var pa, pb, l := ParsePe(a), ParsePe(b), LayoutOf(a, es);
    assert pb.secs[|pa.secs| + j] == l.added[j];
    assert Holds(b, l.added[j], DatasOf(es)[j], pb.hdr);
  }

  /** The bytes of such a section are loaded at its address. */
  lemma InjectionLoaded(a: bytes, b: bytes, es: seq<Entry>, j: nat)
    requires Ready(a, es) && EntriesOk(es) && IsInjected(a, b, es) && j < |es|
    requires SpansFit(es, j, ParsePe(a).hdr.fileAlign, ParsePe(a).hdr.sectAlign)
    ensures HasTable(a) && HasTable(b) && |ParsePe(a).secs| + j < |ParsePe(b).secs|
    ensures LoadBytes(b, ParsePe(b).secs, ParsePe(b).secs[|ParsePe(a).secs| + j].va, |es[j].data|) == Some(es[j].data)
  {
    hide *;
    InjectedFoundAt(a, b, es, j);
    InjectedEntryAt(a, b, es, j);
    FoundLoads(b, ParsePe(b).secs, |ParsePe(a).secs| + j, es[j].data, ParsePe(b).hdr, 0);
    assert es[j].data[0..] == es[j].data;
  }

  lemma ShiftSpan(sec: Section, shift: nat)
    ensures Shift(sec, shift).va == sec.va && Span(Shift(sec, shift)) == Span(sec)
  {
  }

  /** The layout is sound: new sections are aligned, and inside the image size with their contents, which are
      disjoint from each other and from old sections, as the raw data is in the file; the symbols follow, and the
      headers fit. */
  lemma InjectionLayout(a: bytes, b: bytes, es: seq<Entry>)
    requires Ready(a, es) && EntriesOk(es) && IsInjected(a, b, es)
    ensures HasTable(a) && HasTable(b)
    ensures var pa, pb, l := ParsePe(a), ParsePe(b), LayoutOf(a, es);
            && IsPow2(pa.hdr.fileAlign) && IsPow2(pa.hdr.sectAlign)
            && LaidOut(es, l.added, l.va, l.start, pb.hdr.sizeOfImage, pb.hdr.symPtr, pa.hdr.fileAlign, pa.hdr.sectAlign)
            && TableEnd(pb) <= pb.hdr.sizeOfHeaders == pa.hdr.sizeOfHeaders + l.shift
            && pb.hdr.symPtr + SYMBOL_SIZE * pb.hdr.nSymbols + |l.strtab| <= |b|
            && SliceIs(b, pb.hdr.symPtr, SymbolBytes(a, pa.hdr))
            && forall i | 0 <= i < |pa.secs| ::
                 && pb.secs[i].va + Span(pb.secs[i]) <= l.va <= pb.hdr.sizeOfImage
                 && pb.secs[i].rawPtr + pb.secs[i].rawSize <= l.start
  {
    hide HasTable, StrTab, RoundUp, NamesBytes, AddedFrom, OffsetAfter, VaAfter, RenameAll, ShiftAll, SymbolBytes,
         DataAt, ReadSections, NameOk, ReadHdr, ExtendedStrTab, HeaderExpansion, ResolveName, OldTable, HeadersOk, Le,
         Field, IsDebugName, LayoutOf, Moved, LaidOut, EntriesOk, IsPow2, WellFormed, SymbolsOk, AllFit, Ready, NoNul,
         FileEnd, VaEnd, InWidth, StrTabSize;
    ReadyParts(a, es);
    ReadyBounds(a, es);
    InjectedSections(a, b, es);
    InjectedStrTab(a, b, es);
  }

  /** The headers grow by the least number of whole file alignments that makes room for the new section headers, so
      an aligned header size and aligned raw data stay aligned. */
  lemma InjectionAlignment(a: bytes, b: bytes, es: seq<Entry>)
    requires Ready(a, es) && EntriesOk(es) && IsInjected(a, b, es)
    ensures HasTable(a) && HasTable(b) && |ParsePe(b).secs| == |ParsePe(a).secs| + |es|
    ensures var pa, pb := ParsePe(a), ParsePe(b); var align := pa.hdr.fileAlign;
            && align > 0 && pb.hdr.fileAlign == align && TableEnd(pb) == TableEnd(pa) + SECTION_SIZE * |es|
            && LeastGrowth(pa.hdr.sizeOfHeaders, pb.hdr.sizeOfHeaders, TableEnd(pb), align)
            && pb.hdr.sizeOfHeaders % align == pa.hdr.sizeOfHeaders % align
            && forall i | 0 <= i < |pa.secs| ::
                 pb.secs[i].rawPtr == (if pa.secs[i].rawPtr == 0 then 0
                                       else pa.secs[i].rawPtr + pb.hdr.sizeOfHeaders - pa.hdr.sizeOfHeaders)
                 && pb.secs[i].rawPtr % align == pa.secs[i].rawPtr % align
  {
    hide HasTable, Ready, IsInjected, EntriesOk, LayoutOf, StrTab, IsPow2, ParsePe, WellFormed, HeaderExpansion, Rename,
         Moved, SliceIs, OldTable, AddedFrom, VaAfter, OffsetAfter, LeastGrowth, ExtendedStrTab, RoundUp;
    ReadyParts(a, es);
    InjectedHeaders(a, b, es);
    InjectedSections(a, b, es);
    InjectedTable(a, b, es);
    var pa, pb, l := ParsePe(a), ParsePe(b), LayoutOf(a, es);
    GrowthOf(pa, SECTION_SIZE * |es|);
    AlignedTogether(pa.hdr.sizeOfHeaders, l.shift, pa.hdr.fileAlign);
    forall i | 0 <= i < |pa.secs|
      ensures pb.secs[i].rawPtr == (if pa.secs[i].rawPtr == 0 then 0 else pa.secs[i].rawPtr + l.shift)
              && pb.secs[i].rawPtr % pa.hdr.fileAlign == pa.secs[i].rawPtr % pa.hdr.fileAlign
    {
      RenamedOrNot(Shift(pa.secs[i], l.shift), StrTab(a, pa.hdr));
      AlignedTogether(pa.secs[i].rawPtr, l.shift, pa.hdr.fileAlign);
    }
  }

  lemma GrowthOf(pe: Pe, need: nat)
    requires IsPow2(pe.hdr.fileAlign) && TableEnd(pe) <= pe.hdr.sizeOfHeaders
    ensures pe.hdr.fileAlign > 0 && HeaderExpansion(pe, need) % pe.hdr.fileAlign == 0
  {
  }

  lemma InjectedTable(a: bytes, b: bytes, es: seq<Entry>)
    requires Ready(a, es) && EntriesOk(es) && IsInjected(a, b, es)
    ensures HasTable(a) && HasTable(b) && TableEnd(ParsePe(b)) == TableEnd(ParsePe(a)) + SECTION_SIZE * |es|
  {
    hide HasTable, WellFormed, LayoutOf, StrTabSize, ReadSections, ReadHdr, HeadersOk, Moved, SliceIs, AllFit,
         ShiftAll, RenameAll, IsPow2, RoundUp, VaAfter, OffsetAfter, SymbolBytes, EntriesOk, OldTable, AddedFrom;
    ReadyParts(a, es);
  }

  /** No address space is wasted: the first new section starts at the first aligned address behind all old ones, each
      further one at the first behind its predecessor's contents, and the image ends at the first behind the last. */
  lemma InjectionTight(a: bytes, b: bytes, es: seq<Entry>)
    requires Ready(a, es) && EntriesOk(es) && IsInjected(a, b, es) && es != []
    ensures HasTable(a) && HasTable(b) && |ParsePe(b).secs| == |ParsePe(a).secs| + |es|
    ensures var pa, pb := ParsePe(a), ParsePe(b); var n, end, align := |pa.secs|, |pb.secs|, pa.hdr.sectAlign;
            && align > 0 && pb.hdr.sectAlign == align && FirstFrom(pb.secs[n].va, VaEnd(pa.secs), align)
            && (forall k | n < k < end :: FirstFrom(pb.secs[k].va, pb.secs[k - 1].va + pb.secs[k - 1].vSize, align))
            && FirstFrom(pb.hdr.sizeOfImage, pb.secs[end - 1].va + pb.secs[end - 1].vSize, align)
  {
    hide *;
    ReadyParts(a, es);
    InjectedRange(a, b, es);
    var l := LayoutOf(a, es);
    var str, fa, sa := |OldTable(a, ParsePe(a).hdr)|, ParsePe(a).hdr.fileAlign, ParsePe(a).hdr.sectAlign;
    StartIs(es, str, l.va, l.start, fa, sa);
    RoundedIsFirst(VaEnd(ParsePe(a).secs), sa);
    EndIsFirst(es, str, l.va, l.start, fa, sa);
    AllAreFirst(es, str, l.va, l.start, fa, sa);
    TightBehind(ParsePe(b).secs, |ParsePe(a).secs|, l.added, sa);
  }

  lemma AllAreFirst(es: seq<Entry>, strOff: nat, va: nat, offset: nat, fa: nat, sa: nat)
    requires IsPow2(fa) && IsPow2(sa) && strOff + |NamesBytes(NamesOf(es))| <= MAX_STRTAB
    ensures var added := AddedFrom(es, strOff, va, offset, fa, sa);
            sa > 0 && forall j | 0 < j < |es| :: FirstFrom(added[j].va, added[j - 1].va + added[j - 1].vSize, sa)
  {
    hide *;
    var added := AddedFrom(es, strOff, va, offset, fa, sa);
    RoundedIsFirst(0, sa);
    forall j | 0 < j < |es| ensures FirstFrom(added[j].va, added[j - 1].va + added[j - 1].vSize, sa) {
      NextIsFirst(es, strOff, va, offset, fa, sa, j - 1);
    }
  }

  lemma InjectedRange(a: bytes, b: bytes, es: seq<Entry>)
    requires Ready(a, es) && EntriesOk(es) && IsInjected(a, b, es)
    ensures HasTable(a) && HasTable(b) && IsPow2(ParsePe(a).hdr.sectAlign)
    ensures |ParsePe(b).secs| == |ParsePe(a).secs| + |es| && |LayoutOf(a, es).added| == |es|
    ensures ParsePe(b).secs[|ParsePe(a).secs|..] == LayoutOf(a, es).added
    ensures ParsePe(b).hdr.sectAlign == ParsePe(a).hdr.sectAlign
    ensures ParsePe(b).hdr.sizeOfImage == VaAfter(es, LayoutOf(a, es).va, ParsePe(a).hdr.sectAlign)
  {
    hide HasTable, WellFormed, LayoutOf, StrTabSize, ReadSections, ReadHdr, HeadersOk, Moved, SliceIs, AllFit,
         ShiftAll, RenameAll, IsPow2, RoundUp, VaAfter, OffsetAfter, SymbolBytes, EntriesOk, OldTable, AddedFrom;
    ReadyParts(a, es);
    InjectedSections(a, b, es);
  }

  lemma TightBehind(secs: seq<Section>, n: nat, added: seq<Section>, align: nat)
    requires align > 0 && n + |added| == |secs| && secs[n..] == added && added != []
    requires forall j | 0 < j < |added| :: FirstFrom(added[j].va, added[j - 1].va + added[j - 1].vSize, align)
    ensures secs[n] == added[0] && secs[|secs| - 1] == added[|added| - 1]
    ensures forall k | n < k < |secs| :: FirstFrom(secs[k].va, secs[k - 1].va + secs[k - 1].vSize, align)
  {
    hide FirstFrom;
    forall k | n < k < |secs| ensures FirstFrom(secs[k].va, secs[k - 1].va + secs[k - 1].vSize, align) {
      assert secs[k] == added[k - n] && secs[k - 1] == added[k - n - 1];
    }
  }

  lemma RoundedIsFirst(v: nat, align: nat)
    requires IsPow2(align)
    ensures align > 0 && FirstFrom(RoundUp(v, align), v, align)
  {
  }
}
