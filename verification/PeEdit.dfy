/** The edits both injectors make to a copy of the input image: moving the parts, patching header
    fields and section headers, and adding section headers, each stated by what it leaves of the headers. */
module PeEdit {
  import opened Bytes
  import opened PeImage
  import opened PeView

  /** The headers of `s`: at `e`, with these fields, and with these sections at the start of the table.
      `nSections` may lag behind the table while sections are being added. */
  ghost predicate HeadIs(s: bytes, e: nat, hdr: Hdr, secs: seq<Section>) {
    && HeadersOk(s) && Lfanew(s) == e && e >= DOS_HEADER_SIZE && ReadHdr(s, e) == hdr && hdr.optSize >= OPTIONAL_SIZE
    && AllFit(secs) && TableAt(e, hdr) + SECTION_SIZE * |secs| <= |s|
    && s[TableAt(e, hdr)..TableAt(e, hdr) + SECTION_SIZE * |secs|] == EncSections(secs)
  }

  /** The two buffers have the same bytes from `at` on. */
  predicate SameFrom(s: bytes, t: bytes, at: nat) {
    |s| == |t| && at <= |s| && s[at..] == t[at..]
  }

  lemma ToEnd(s: bytes, t: bytes, at: nat)
    requires |s| == |t| && at <= |s| && t[at..|t|] == s[at..|s|]
    ensures SameFrom(s, t, at)
  {
    assert t[at..] == t[at..|t|] && s[at..] == s[at..|s|];
  }

  lemma FieldOfPrefix(s: bytes, t: bytes, len: nat, off: nat, n: nat)
    requires len <= |s| && len <= |t| && s[..len] == t[..len] && off + n <= len
    ensures Field(s, off, n) == Field(t, off, n)
  {
    hide FromLe;
    assert s[off..off + n] == s[..len][off..off + n];
    assert t[off..off + n] == t[..len][off..off + n];
  }

  lemma HeadersOfPrefix(s: bytes, t: bytes, len: nat)
    requires HeadersOk(s) && Lfanew(s) >= DOS_HEADER_SIZE && len >= Lfanew(s) + NT_HEADERS_SIZE
    requires len <= |s| && len <= |t| && s[..len] == t[..len]
    ensures HeadersOk(t) && Lfanew(t) == Lfanew(s) && ReadHdr(t, Lfanew(s)) == ReadHdr(s, Lfanew(s))
  {
    hide Field;
    FieldOfPrefix(s, t, len, 0, 2);
    FieldOfPrefix(s, t, len, 60, 4);
    var e := Lfanew(s);
    FieldOfPrefix(s, t, len, e, 4);
    FieldOfPrefix(s, t, len, e + 4, 2);
    forall f: HdrField ensures HeaderField(s, e, f) == HeaderField(t, e, f) {
      FieldOfPrefix(s, t, len, e + At(f), Width(f));
    }
  }

  /** A parsed image has the headers it parses to, and the other way round. */
  lemma HeadOfParsed(s: bytes)
    requires HasTable(s)
    ensures var pe := ParsePe(s); HeadIs(s, pe.e, pe.hdr, pe.secs) && |pe.secs| == pe.hdr.nSections
  {
    hide HeadersOk, ReadHdr, EncSections, AllFit;
    var pe := ParsePe(s);
    ReadSectionsFit(s, TableAt(pe.e, pe.hdr), pe.hdr.nSections);
  }

  lemma ParsedOfHead(s: bytes, e: nat, hdr: Hdr, secs: seq<Section>)
    requires HeadIs(s, e, hdr, secs) && hdr.nSections == |secs|
    ensures HasTable(s) && ParsePe(s) == Pe(e, hdr, secs)
  {
    hide HeadersOk, ReadHdr, EncSections, AllFit, ReadSections;
    var at := TableAt(e, hdr);
    var end := at + SECTION_SIZE * |secs|;
    ReadSectionsEncoded(s[..at], secs, s[end..]);
    assert s == s[..at] + EncSections(secs) + s[end..];
  }

  lemma PutHdrHead(s: bytes, e: nat, hdr: Hdr, secs: seq<Section>, f: HdrField, v: nat)
    requires HeadIs(s, e, hdr, secs) && f != OptSize && InWidth(v, Width(f))
    ensures var t := Put(s, e + At(f), Le(v, Width(f)));
            && HeadIs(t, e, SetHdr(hdr, f, v), secs)
            && SameFrom(s, t, TableAt(e, hdr) + SECTION_SIZE * |secs|)
  {
    hide HeadersOk, ReadHdr, Put, Le, EncSections, AllFit;
    PutHdr(s, e, f, v);
    var at := TableAt(e, hdr);
    PutOther(s, e + At(f), Le(v, Width(f)), at, at + SECTION_SIZE * |secs|);
    PutOther(s, e + At(f), Le(v, Width(f)), at + SECTION_SIZE * |secs|, |s|);
    ToEnd(s, Put(s, e + At(f), Le(v, Width(f))), at + SECTION_SIZE * |secs|);
  }

  /** Bytes of one section header are replaced. */
  lemma PutSectionHead(s: bytes, e: nat, hdr: Hdr, secs: seq<Section>, i: nat, off: nat, d: bytes, sec: Section)
    requires HeadIs(s, e, hdr, secs) && i < |secs| && SectionFits(sec) && off + |d| <= SECTION_SIZE && AllFit(secs)
    requires Put(EncSection(secs[i]), off, d) == EncSection(sec)
    ensures TableAt(e, hdr) + SECTION_SIZE * i + off + |d| <= |s|
    ensures var t := Put(s, TableAt(e, hdr) + SECTION_SIZE * i + off, d);
            && HeadIs(t, e, hdr, secs[i := sec])
            && SameFrom(s, t, TableAt(e, hdr) + SECTION_SIZE * |secs|)
  {
    hide HeadersOk, ReadHdr, Put, EncSections, AllFit, EncSection, SectionFits;
    var at := TableAt(e, hdr);
    var end := at + SECTION_SIZE * |secs|;
    var p := at + SECTION_SIZE * i + off;
    assert s == s[..at] + EncSections(secs) + s[end..];
    PutInSection(s[..at], secs, s[end..], i, off, d, sec);
    var t := Put(s, p, d);
    assert t == s[..at] + EncSections(secs[i := sec]) + s[end..];
    assert t[..at] == s[..at] && t[end..] == s[end..];
    HeadersOfPrefix(s, t, at);
  }

  /** A section header is added after the others. */
  lemma AddSectionHead(s: bytes, e: nat, hdr: Hdr, secs: seq<Section>, sec: Section)
    requires HeadIs(s, e, hdr, secs) && SectionFits(sec)
    requires TableAt(e, hdr) + SECTION_SIZE * (|secs| + 1) <= |s|
    ensures var t := Put(s, TableAt(e, hdr) + SECTION_SIZE * |secs|, EncSection(sec));
            && HeadIs(t, e, hdr, secs + [sec])
            && SameFrom(s, t, TableAt(e, hdr) + SECTION_SIZE * (|secs| + 1))
  {
    hide HeadersOk, ReadHdr, Put, EncSections, AllFit, EncSection, SectionFits;
    var at := TableAt(e, hdr);
    var end := at + SECTION_SIZE * |secs|;
    var t := Put(s, end, EncSection(sec));
    EncSectionsAdd(secs, sec);
    PutOther(s, end, EncSection(sec), 0, at);
    PutOther(s, end, EncSection(sec), at, end);
    PutOther(s, end, EncSection(sec), end + SECTION_SIZE, |s|);
    ToEnd(s, t, end + SECTION_SIZE);
    PutSame(s, end, EncSection(sec));
    assert t[at..end + SECTION_SIZE] == t[at..end] + t[end..end + SECTION_SIZE];
    assert t[..at] == t[0..at] && s[..at] == s[0..at];
    HeadersOfPrefix(s, t, at);
  }

  /** Writing beyond the section headers leaves the headers alone. */
  lemma PutBeyondHead(s: bytes, e: nat, hdr: Hdr, secs: seq<Section>, off: nat, d: bytes)
    requires HeadIs(s, e, hdr, secs) && off >= TableAt(e, hdr) + SECTION_SIZE * |secs| && off + |d| <= |s|
    ensures HeadIs(Put(s, off, d), e, hdr, secs)
  {
    hide HeadersOk, ReadHdr, Put, EncSections, AllFit;
    var at := TableAt(e, hdr);
    PutOther(s, off, d, at, at + SECTION_SIZE * |secs|);
    PutOther(s, off, d, 0, at);
    var t := Put(s, off, d);
    assert t[..at] == t[0..at] && s[..at] == s[0..at];
    HeadersOfPrefix(s, t, at);
  }

  lemma SectionOfHead(s: bytes, e: nat, hdr: Hdr, secs: seq<Section>, i: nat)
    requires HeadIs(s, e, hdr, secs) && i < |secs|
    ensures TableAt(e, hdr) + SECTION_SIZE * (i + 1) <= |s|
    ensures ReadSection(s, TableAt(e, hdr) + SECTION_SIZE * i) == secs[i]
  {
    hide HeadersOk, ReadHdr, EncSections, EncSection, SectionFits, ReadSection;
    var at := TableAt(e, hdr);
    var end := at + SECTION_SIZE * |secs|;
    assert SectionFits(secs[i]);
    EncSectionsSplit(secs, i);
    var before, after := EncSections(secs[..i]), EncSections(secs[i + 1..]);
    assert s == s[..at] + EncSections(secs) + s[end..];
    assert s == (s[..at] + before) + EncSection(secs[i]) + (after + s[end..]);
    ReadSectionEncoded(s[..at] + before, secs[i], after + s[end..]);
  }

  lemma SameFromTrans(r: bytes, s: bytes, t: bytes, a: nat, b: nat, c: nat)
    requires SameFrom(r, s, a) && SameFrom(s, t, b) && a <= c && b <= c <= |r|
    ensures SameFrom(r, t, c)
  {
    assert r[c..] == r[a..][c - a..] && s[c..] == s[a..][c - a..];
    assert s[c..] == s[b..][c - b..] && t[c..] == t[b..][c - b..];
  }

  // ----- The copy --------------------------------------------------------------------------------

  /** The output buffer: the input's headers, then the rest of it `shift` bytes further on. */
  method CopyImage(peIn: bytes, headers: nat, shift: nat, size: nat) returns (out: bytes)
    requires headers <= |peIn| && |peIn| + shift <= size
    ensures |out| == size && out[..headers] == peIn[..headers] && Moved(peIn, out, headers, shift)
  {
    hide Put, Zeros;
    out := Zeros(size);
    if shift == 0 {
      out := Put(out, 0, peIn);
      PutSame(Zeros(size), 0, peIn);
      assert out[..headers] == out[0..|peIn|][..headers];
      assert out[headers..|peIn|] == out[0..|peIn|][headers..];
    } else {
      out := Put(out, 0, peIn[..headers]);
      ghost var half := out;
      PutSame(Zeros(size), 0, peIn[..headers]);
      out := Put(out, headers + shift, peIn[headers..]);
      PutOther(half, headers + shift, peIn[headers..], 0, headers);
      PutSame(half, headers + shift, peIn[headers..]);
      assert out[..headers] == out[0..headers];
    }
  }

  lemma HeadOfCopy(a: bytes, b: bytes, e: nat, hdr: Hdr, secs: seq<Section>, headers: nat)
    requires HeadIs(a, e, hdr, secs) && TableAt(e, hdr) + SECTION_SIZE * |secs| <= headers <= |a|
    requires headers <= |b| && b[..headers] == a[..headers]
    ensures HeadIs(b, e, hdr, secs)
  {
    hide HeadersOk, ReadHdr, EncSections, AllFit;
    HeadersOfPrefix(a, b, headers);
    var at := TableAt(e, hdr);
    var end := at + SECTION_SIZE * |secs|;
    assert a[at..end] == a[..headers][at..end] && b[at..end] == b[..headers][at..end];
  }

  // ----- Moved raw data -----------------------------------------------------------------------------

  function ShiftAll(secs: seq<Section>, shift: nat): (r: seq<Section>)
    ensures |r| == |secs|
  {
    seq(|secs|, i requires 0 <= i < |secs| => Shift(secs[i], shift))
  }

  /** Adds `shift` to every nonzero `PointerToRawData`. */
  method ShiftRawPointers(image: bytes, e: nat, hdr: Hdr, ghost secs: seq<Section>, shift: nat) returns (out: bytes)
    requires HeadIs(image, e, hdr, secs) && |secs| == hdr.nSections
    requires forall i | 0 <= i < |secs| && secs[i].rawPtr != 0 :: InWidth(secs[i].rawPtr + shift, 4)
    ensures HeadIs(out, e, hdr, ShiftAll(secs, shift))
    ensures SameFrom(image, out, TableAt(e, hdr) + SECTION_SIZE * |secs|)
  {
    hide HeadIs, Put, EncSection, ReadSection;
    out := image;
    ghost var now := secs;
    SameFromSelf(image, e, hdr, secs);
    for i := 0 to hdr.nSections
      invariant |now| == |secs| && HeadIs(out, e, hdr, now)
      invariant forall j | 0 <= j < |secs| :: now[j] == if j < i then Shift(secs[j], shift) else secs[j]
      invariant SameFrom(image, out, TableAt(e, hdr) + SECTION_SIZE * |secs|)
    {
      SectionOfHead(out, e, hdr, now, i);
      var at := TableAt(e, hdr) + SECTION_SIZE * i;
      var sec := ReadSection(out, at);
      if sec.rawPtr != 0 {
        ghost var before := out;
        ShiftOne(out, e, hdr, now, i, shift);
        out := Put(out, at + 20, Le(sec.rawPtr + shift, 4));
        now := now[i := Shift(sec, shift)];
        SameFromTrans(image, before, out, TableAt(e, hdr) + SECTION_SIZE * |secs|, TableAt(e, hdr) + SECTION_SIZE * |secs|,
                      TableAt(e, hdr) + SECTION_SIZE * |secs|);
      }
    }
    assert now == ShiftAll(secs, shift);
  }

  lemma SameFromSelf(s: bytes, e: nat, hdr: Hdr, secs: seq<Section>)
    requires HeadIs(s, e, hdr, secs)
    ensures SameFrom(s, s, TableAt(e, hdr) + SECTION_SIZE * |secs|)
  {
  }

  lemma ShiftOne(s: bytes, e: nat, hdr: Hdr, secs: seq<Section>, i: nat, shift: nat)
    requires HeadIs(s, e, hdr, secs) && i < |secs| && secs[i].rawPtr != 0 && InWidth(secs[i].rawPtr + shift, 4)
    ensures TableAt(e, hdr) + SECTION_SIZE * i + 24 <= |s|
    ensures var t := Put(s, TableAt(e, hdr) + SECTION_SIZE * i + 20, Le(secs[i].rawPtr + shift, 4));
            && HeadIs(t, e, hdr, secs[i := Shift(secs[i], shift)])
            && SameFrom(s, t, TableAt(e, hdr) + SECTION_SIZE * |secs|)
  {
    hide Put, EncSection, Le, HeadersOk, ReadHdr, EncSections;
    assert AllFit(secs) && SectionFits(secs[i]);
    PutRawPtr(secs[i], secs[i].rawPtr + shift);
    hide HeadIs, SameFrom;
    PutSectionHead(s, e, hdr, secs, i, 20, Le(secs[i].rawPtr + shift, 4), Shift(secs[i], shift));
  }

  // ----- Layout ---------------------------------------------------------------------------------------

  /** `grown` is the least size of the headers that has room up to `end` and keeps what is aligned aligned. */
  predicate LeastGrowth(size: nat, grown: nat, end: nat, align: nat)
    requires align > 0
  {
    && size <= grown && (grown - size) % align == 0 && end <= grown
    && (grown == size || grown - align < end)
  }

  /** The header growth that `need` more header bytes ask for. */
  function HeaderExpansion(pe: Pe, need: nat): (shift: nat)
    requires IsPow2(pe.hdr.fileAlign) && TableEnd(pe) <= pe.hdr.sizeOfHeaders
    ensures LeastGrowth(pe.hdr.sizeOfHeaders, pe.hdr.sizeOfHeaders + shift, TableEnd(pe) + need, pe.hdr.fileAlign)
  {
    var free := pe.hdr.sizeOfHeaders - TableEnd(pe);
    if need > free then RoundUp(need - free, pe.hdr.fileAlign) else 0
  }

  /** Any growth by whole alignments that has the room is at least as large. */
  lemma LeastGrowthIsLeast(size: nat, grown: nat, other: nat, end: nat, align: nat)
    requires align > 0 && LeastGrowth(size, grown, end, align)
    requires size <= other && (other - size) % align == 0 && end <= other
    ensures grown <= other
  {
    if other < grown {
      CloseMultiples(other - size, grown - size, align);
    }
  }

  lemma AlignedTogether(v: nat, growth: nat, align: nat)
    requires align > 0 && growth % align == 0
    ensures (v + growth) % align == v % align
  {
    var q, r := v / align, v % align;
    assert v + growth == align * (q + growth / align) + r;
    ModUnique(v + growth, align, q + growth / align, r);
  }

  /** Where the symbols and their string table end, in the moved image. */
  function SymbolsEnd(s: bytes, hdr: Hdr, shift: nat): nat
    requires SymbolsOk(s, hdr)
  {
    if hdr.symPtr == 0 then 0 else StrTabAt(hdr) + shift + |StrTab(s, hdr).value|
  }

  function Max(a: nat, b: nat): nat { if a > b then a else b }

  /** The first free file offset after everything in the moved image. */
  function FreeOffset(s: bytes, pe: Pe, shift: nat): nat
    requires SymbolsOk(s, pe.hdr)
  {
    Max(Max(FileEnd(pe.secs, shift), SymbolsEnd(s, pe.hdr, shift)), |s| + shift)
  }

  /** The layout loop over the section headers. */
  method SectionEnds(peIn: bytes, e: nat, hdr: Hdr, ghost secs: seq<Section>, shift: nat) returns (va: nat, offset: nat)
    requires HeadIs(peIn, e, hdr, secs) && |secs| == hdr.nSections
    ensures va == VaEnd(secs) && offset == FileEnd(secs, shift)
  {
    hide HeadIs, ReadSection;
    va, offset := 0, 0;
    for i := 0 to hdr.nSections
      invariant va == VaEnd(secs[..i]) && offset == FileEnd(secs[..i], shift)
    {
      SectionOfHead(peIn, e, hdr, secs, i);
      var s := ReadSection(peIn, TableAt(e, hdr) + SECTION_SIZE * i);
      var vEnd := s.va + if s.vSize > s.rawSize then s.vSize else s.rawSize;
      assert secs[..i + 1][..i] == secs[..i];
      if vEnd > va {
        va := vEnd;
      }
      var fEnd := s.rawPtr + shift + s.rawSize;
      if fEnd > offset {
        offset := fEnd;
      }
    }
    assert secs[..|secs|] == secs;
  }

  method ComputeLayout(peIn: bytes, shift: nat) returns (va: nat, offset: nat)
    requires WellFormed(peIn)
    ensures var pe := ParsePe(peIn);
            va == RoundUp(VaEnd(pe.secs), pe.hdr.sectAlign)
            && offset == RoundUp(FreeOffset(peIn, pe, shift), pe.hdr.fileAlign)
  {
    hide ReadHdr, HeadersOk, StrTab, NameOk, VaEnd, FileEnd, ReadSections, HeadIs;
    HeadOfParsed(peIn);
    var e := Lfanew(peIn);
    var hdr := ReadHdr(peIn, e);
    va, offset := SectionEnds(peIn, e, hdr, ParsePe(peIn).secs, shift);
    if hdr.symPtr != 0 {
      var fEnd := StrTabAt(hdr) + shift + |StrTab(peIn, hdr).value|;
      if fEnd > offset {
        offset := fEnd;
      }
    }
    if |peIn| + shift > offset {
      offset := |peIn| + shift;
    }
    va := RoundUp(va, hdr.sectAlign);
    offset := RoundUp(offset, hdr.fileAlign);
  }

  // ----- Growing the headers, placing the symbols, final patches ------------------------------------------

  lemma NoShift(secs: seq<Section>)
    ensures ShiftAll(secs, 0) == secs
  {
  }

  function GrownHdr(hdr: Hdr, shift: nat): Hdr {
    hdr.(sizeOfHeaders := hdr.sizeOfHeaders + shift, symPtr := if hdr.symPtr == 0 then 0 else hdr.symPtr + shift)
  }

  /** Moves every file pointer in the headers by `shift`. */
  method GrowHeaders(image: bytes, e: nat, hdr: Hdr, ghost secs: seq<Section>, shift: nat) returns (out: bytes)
    requires HeadIs(image, e, hdr, secs) && |secs| == hdr.nSections
    requires forall i | 0 <= i < |secs| && secs[i].rawPtr != 0 :: InWidth(secs[i].rawPtr + shift, 4)
    requires InWidth(hdr.sizeOfHeaders + shift, 4) && InWidth(hdr.symPtr + shift, 4)
    ensures HeadIs(out, e, GrownHdr(hdr, shift), ShiftAll(secs, shift))
    ensures SameFrom(image, out, TableAt(e, hdr) + SECTION_SIZE * |secs|)
  {
    hide HeadIs, Put, Le;
    out := image;
    ghost var end := TableAt(e, hdr) + SECTION_SIZE * |secs|;
    if shift != 0 {
      out := ShiftRawPointers(image, e, hdr, secs, shift);
      ghost var moved, s1 := ShiftAll(secs, shift), out;
      HeadRoom(out, e, hdr, moved);
      PutHdrHead(out, e, hdr, moved, SizeOfHeaders, hdr.sizeOfHeaders + shift);
      out := Put(out, e + At(SizeOfHeaders), Le(hdr.sizeOfHeaders + shift, 4));
      SameFromTrans(image, s1, out, end, end, end);
      if hdr.symPtr != 0 {
        ghost var s2 := out;
        PutHdrHead(out, e, hdr.(sizeOfHeaders := hdr.sizeOfHeaders + shift), moved, SymPtr, hdr.symPtr + shift);
        out := Put(out, e + At(SymPtr), Le(hdr.symPtr + shift, 4));
        SameFromTrans(image, s2, out, end, end, end);
      }
    } else {
      NoShift(secs);
      SameFromSelf(image, e, hdr, secs);
    }
  }

  lemma HeadRoom(s: bytes, e: nat, hdr: Hdr, secs: seq<Section>)
    requires HeadIs(s, e, hdr, secs)
    ensures e + NT_HEADERS_SIZE <= TableAt(e, hdr) + SECTION_SIZE * |secs| <= |s|
  {
  }

  /** The symbols, copied from where the move left them, and the string table after them. */
  method PlaceSymbols(image: bytes, peIn: bytes, hdr: Hdr, shift: nat, symAt: nat, strtab: bytes) returns (out: bytes)
    requires SymbolsOk(peIn, hdr) && Moved(peIn, image, hdr.sizeOfHeaders, shift)
    requires |peIn| + shift <= symAt && |image| == symAt + SYMBOL_SIZE * hdr.nSymbols + |strtab|
    ensures |out| == |image| && out[..symAt] == image[..symAt]
    ensures SliceIs(out, symAt + SYMBOL_SIZE * hdr.nSymbols, strtab)
    ensures SliceIs(out, symAt, SymbolBytes(peIn, hdr))
  {
    hide Put, StrTab;
    out := image;
    var size := SYMBOL_SIZE * hdr.nSymbols;
    if hdr.symPtr != 0 && size > 0 {
      SymbolsMoved(peIn, image, hdr, shift);
      var syms := image[hdr.symPtr + shift..hdr.symPtr + shift + size];
      out := Put(image, symAt, syms);
      PutOther(image, symAt, syms, 0, symAt);
      PutSame(image, symAt, syms);
    }
    ghost var s1 := out;
    FromZero(s1, symAt);
    FromZero(image, symAt);
    out := Put(out, symAt + size, strtab);
    PutOther(s1, symAt + size, strtab, 0, symAt);
    PutOther(s1, symAt + size, strtab, symAt, symAt + size);
    PutSame(s1, symAt + size, strtab);
    FromZero(out, symAt);
    if hdr.symPtr != 0 && size == 0 {
      NoSymbols(peIn, hdr);
    }
  }

  lemma SymbolsMoved(a: bytes, b: bytes, hdr: Hdr, shift: nat)
    requires SymbolsOk(a, hdr) && Moved(a, b, hdr.sizeOfHeaders, shift) && hdr.symPtr != 0
    ensures StrTabAt(hdr) + shift <= |a| + shift <= |b|
    ensures b[hdr.symPtr + shift..StrTabAt(hdr) + shift] == a[hdr.symPtr..StrTabAt(hdr)]
  {
    hide Field;
    MovedRange(a, b, hdr.sizeOfHeaders, shift, hdr.symPtr, StrTabAt(hdr));
  }

  lemma MovedRange(a: bytes, b: bytes, headers: nat, shift: nat, lo: nat, hi: nat)
    requires Moved(a, b, headers, shift) && headers <= lo <= hi <= |a|
    ensures b[lo + shift..hi + shift] == a[lo..hi]
  {
    SubRange(b, headers + shift, |a| + shift, lo - headers, hi - headers);
    Within(a, headers, lo, hi);
  }

  lemma NoSymbols(a: bytes, hdr: Hdr)
    requires SymbolsOk(a, hdr) && hdr.symPtr != 0 && SYMBOL_SIZE * hdr.nSymbols == 0
    ensures StrTabAt(hdr) == hdr.symPtr <= |a| && a[hdr.symPtr..StrTabAt(hdr)] == []
  {
  }

  /** The copy with its headers grown: what both injectors start from. */
  method CopyAndGrow(peIn: bytes, e: nat, hdr: Hdr, ghost secs: seq<Section>, shift: nat,
                     size: nat) returns (out: bytes)
    requires HeadIs(peIn, e, hdr, secs) && |secs| == hdr.nSections
    requires TableAt(e, hdr) + SECTION_SIZE * |secs| <= hdr.sizeOfHeaders <= |peIn| && |peIn| + shift <= size
    requires forall i | 0 <= i < |secs| && secs[i].rawPtr != 0 :: InWidth(secs[i].rawPtr + shift, 4)
    requires InWidth(hdr.sizeOfHeaders + shift, 4) && InWidth(hdr.symPtr + shift, 4)
    ensures |out| == size && HeadIs(out, e, GrownHdr(hdr, shift), ShiftAll(secs, shift))
    ensures Moved(peIn, out, hdr.sizeOfHeaders, shift)
  {
    hide HeadIs;
    var copy := CopyImage(peIn, hdr.sizeOfHeaders, shift, size);
    HeadOfCopy(peIn, copy, e, hdr, secs, hdr.sizeOfHeaders);
    out := GrowHeaders(copy, e, hdr, secs, shift);
    RangeKept(copy, out, TableAt(e, hdr) + SECTION_SIZE * |secs|, hdr.sizeOfHeaders + shift, size);
    MovedKept(peIn, copy, out, hdr.sizeOfHeaders, shift, size);
  }

  function FinalHdr(hdr: Hdr, nSections: nat, symPtr: nat, sizeOfImage: nat): Hdr {
    hdr.(nSections := nSections, symPtr := symPtr, sizeOfImage := sizeOfImage, checkSum := 0)
  }

  method PatchHeaders(image: bytes, e: nat, ghost hdr: Hdr, ghost secs: seq<Section>, nSections: nat, symPtr: nat,
                      sizeOfImage: nat)
    returns (out: bytes)
    requires HeadIs(image, e, hdr, secs) && InWidth(nSections, 2) && InWidth(symPtr, 4) && InWidth(sizeOfImage, 4)
    ensures HeadIs(out, e, FinalHdr(hdr, nSections, symPtr, sizeOfImage), secs)
    ensures SameFrom(image, out, TableAt(e, hdr) + SECTION_SIZE * |secs|)
  {
    hide HeadIs, Put, Le;
    ghost var end := TableAt(e, hdr) + SECTION_SIZE * |secs|;
    HeadRoom(image, e, hdr, secs);
    PutHdrHead(image, e, hdr, secs, NSections, nSections);
    out := Put(image, e + At(NSections), Le(nSections, 2));
    ghost var s1, h1 := out, hdr.(nSections := nSections);
    PutHdrHead(s1, e, h1, secs, SymPtr, symPtr);
    out := Put(out, e + At(SymPtr), Le(symPtr, 4));
    ghost var s2, h2 := out, h1.(symPtr := symPtr);
    SameFromTrans(image, s1, s2, end, end, end);
    PutHdrHead(s2, e, h2, secs, SizeOfImage, sizeOfImage);
    out := Put(out, e + At(SizeOfImage), Le(sizeOfImage, 4));
    ghost var s3, h3 := out, h2.(sizeOfImage := sizeOfImage);
    SameFromTrans(image, s2, s3, end, end, end);
    PutHdrHead(s3, e, h3, secs, CheckSum, 0);
    out := Put(out, e + At(CheckSum), Le(0, 4));
    SameFromTrans(image, s3, out, end, end, end);
  }

  lemma FromZero(s: bytes, n: nat)
    requires n <= |s|
    ensures s[..n] == s[0..n]
  {
  }

  lemma Within(s: bytes, at: nat, lo: nat, hi: nat)
    requires at <= lo <= hi <= |s|
    ensures s[lo..hi] == s[at..][lo - at..hi - at] && s[lo..] == s[at..][lo - at..]
  {
  }

  lemma SliceKept(s: bytes, t: bytes, from: nat, at: nat, d: bytes)
    requires SameFrom(s, t, from) && from <= at && SliceIs(s, at, d)
    ensures SliceIs(t, at, d)
  {
    Within(s, from, at, at + |d|);
    Within(t, from, at, at + |d|);
  }

  /** A copy of the headers has them too. */
  lemma HeadKept(s: bytes, t: bytes, e: nat, hdr: Hdr, secs: seq<Section>, n: nat)
    requires HeadIs(s, e, hdr, secs) && |t| == |s| && n <= |s| && t[..n] == s[..n]
    requires TableAt(e, hdr) + SECTION_SIZE * |secs| <= n
    ensures HeadIs(t, e, hdr, secs)
  {
    HeadOfCopy(s, t, e, hdr, secs, n);
  }

  lemma Prefixes(s: bytes, t: bytes, n: nat, lo: nat)
    requires |t| == |s| && lo <= n <= |s| && t[..n] == s[..n]
    ensures t[lo..n] == s[lo..n]
  {
    assert t[lo..n] == t[..n][lo..] && s[lo..n] == s[..n][lo..];
  }

  lemma MovedKept(a: bytes, s: bytes, t: bytes, headers: nat, shift: nat, hi: nat)
    requires Moved(a, s, headers, shift) && |t| == |s|
    requires headers + shift <= |a| + shift <= hi <= |s| && t[headers + shift..hi] == s[headers + shift..hi]
    ensures Moved(a, t, headers, shift)
  {
    assert t[headers + shift..|a| + shift] == t[headers + shift..hi][..|a| - headers];
    assert s[headers + shift..|a| + shift] == s[headers + shift..hi][..|a| - headers];
  }

  lemma RangeKept(s: bytes, t: bytes, at: nat, lo: nat, hi: nat)
    requires SameFrom(s, t, at) && at <= lo <= hi <= |s|
    ensures t[lo..hi] == s[lo..hi] && t[lo..] == s[lo..]
  {
    Within(s, at, lo, hi);
    Within(t, at, lo, hi);
  }
}
