/** What loaders and debuggers see in an image: bytes by relative virtual address, and section
    names. And what it takes for an extended image to keep all of that. */
module PeView {
  import opened Bytes
  import opened PeImage

  datatype Pe = Pe(e: nat, hdr: Hdr, secs: seq<Section>)

  function TableAt(e: nat, hdr: Hdr): nat {
    e + OPTIONAL_AT + hdr.optSize
  }

  /** The headers pass the injectors' checks and are followed by a whole section table. */
  predicate HasTable(s: bytes) {
    && HeadersOk(s) && Lfanew(s) >= DOS_HEADER_SIZE
    && var e := Lfanew(s); var hdr := ReadHdr(s, e);
       hdr.optSize >= OPTIONAL_SIZE && TableAt(e, hdr) + SECTION_SIZE * hdr.nSections <= |s|
  }

  function ParsePe(s: bytes): Pe
    requires HasTable(s)
  {
    var e := Lfanew(s);
    var hdr := ReadHdr(s, e);
    Pe(e, hdr, ReadSections(s, TableAt(e, hdr), hdr.nSections))
  }

  function TableEnd(pe: Pe): nat {
    TableAt(pe.e, pe.hdr) + SECTION_SIZE * pe.hdr.nSections
  }

  // ----- The loader's view ------------------------------------------------------------------

  function Span(sec: Section): nat {
    if sec.vSize > sec.rawSize then sec.vSize else sec.rawSize
  }

  predicate Contains(sec: Section, rva: nat) {
    sec.va <= rva < sec.va + Span(sec)
  }

  /** The first section whose range has `rva`. */
  function FindSection(secs: seq<Section>, rva: nat): Option<Section> {
    if secs == [] then None
    else if Contains(secs[0], rva) then Some(secs[0])
    else FindSection(secs[1..], rva)
  }

  /** Raw data from the file, zero fill after it. */
  function LoadedByte(s: bytes, sec: Section, rva: nat): u8
    requires Contains(sec, rva)
  {
    var d := rva - sec.va;
    if sec.rawPtr != 0 && d < sec.rawSize && sec.rawPtr + d < |s| then s[sec.rawPtr + d] else 0
  }

  function LoadByte(s: bytes, secs: seq<Section>, rva: nat): Option<u8> {
    match FindSection(secs, rva)
    case None => None
    case Some(sec) => if Contains(sec, rva) then Some(LoadedByte(s, sec, rva)) else None
  }

  function LoadBytes(s: bytes, secs: seq<Section>, rva: nat, n: nat): Option<bytes>
    decreases n
  {
    if n == 0 then Some([])
    else
      var b :- LoadByte(s, secs, rva);
      var bs :- LoadBytes(s, secs, rva + 1, n - 1);
      Some([b] + bs)
  }

  /** Every address that a section of `a` backs holds the same byte in `b`. */
  ghost predicate ViewKept(a: bytes, b: bytes)
    requires HasTable(a) && HasTable(b)
  {
    forall rva: nat | LoadByte(a, ParsePe(a).secs, rva).Some? ::
      LoadByte(b, ParsePe(b).secs, rva) == LoadByte(a, ParsePe(a).secs, rva)
  }

  lemma {:induction false} LoadBytesKept(a: bytes, b: bytes, rva: nat, n: nat)
    requires HasTable(a) && HasTable(b) && ViewKept(a, b)
    requires LoadBytes(a, ParsePe(a).secs, rva, n).Some?
    ensures LoadBytes(b, ParsePe(b).secs, rva, n) == LoadBytes(a, ParsePe(a).secs, rva, n)
    decreases n
  {
    hide ParsePe, HasTable, LoadByte;
    if n > 0 {
      LoadBytesKept(a, b, rva + 1, n - 1);
    }
  }

  // ----- Section names -------------------------------------------------------------------------

  const SLASH: u8 := 0x2F
  const DIGIT_0: u8 := 0x30

  predicate IsDigit(c: u8) { DIGIT_0 <= c < DIGIT_0 + 10 }

  /** The bytes before the first NUL, or all of them. */
  function TrimNul(s: bytes): (r: bytes)
    ensures |r| <= |s|
  {
    if s == [] || s[0] == 0 then [] else [s[0]] + TrimNul(s[1..])
  }

  /** `strtoul` in base ten: the value of the leading digits, after `acc`. */
  function DecValue(s: bytes, acc: nat): nat {
    if s == [] || !IsDigit(s[0]) then acc else DecValue(s[1..], 10 * acc + (s[0] - DIGIT_0))
  }

  /** A section's name; `/N` names are at offset N of the string table, when there is one. */
  function ResolveName(name: bytes, strtab: Option<bytes>): bytes {
    if name == [] || name[0] != SLASH then TrimNul(name)
    else
      var digits := TrimNul(name[1..]);
      if digits == [] || strtab.None? then []
      else
        var off := DecValue(digits, 0);
        if off >= |strtab.value| then [] else TrimNul(strtab.value[off..])
  }

  const SYMBOL_SIZE := 18

  /** Where the string table starts: after the symbols. */
  function StrTabAt(hdr: Hdr): nat {
    hdr.symPtr + SYMBOL_SIZE * hdr.nSymbols
  }

  /** The string table, whose first four bytes are its size. */
  function StrTab(s: bytes, hdr: Hdr): Option<bytes> {
    if hdr.symPtr == 0 || StrTabAt(hdr) + 4 > |s| then None
    else
      var size := Field(s, StrTabAt(hdr), 4);
      if StrTabAt(hdr) + size > |s| then None else Some(s[StrTabAt(hdr)..StrTabAt(hdr) + size])
  }

  function NameIn(s: bytes, pe: Pe, i: nat): bytes
    requires i < |pe.secs|
  {
    ResolveName(pe.secs[i].name, StrTab(s, pe.hdr))
  }

  /** A long name refers to a terminated string after the size field. */
  predicate NameOk(name: bytes, strtab: Option<bytes>) {
    |name| == 8 &&
    (name[0] == SLASH ==>
       var digits := TrimNul(name[1..]);
       && digits != [] && (forall i | 0 <= i < |digits| :: IsDigit(digits[i])) && strtab.Some?
       && 4 <= DecValue(digits, 0) < |strtab.value|
       && 0 in strtab.value[DecValue(digits, 0)..])
  }

  lemma {:induction false} TrimNulStable(s: bytes, t: bytes)
    requires 0 in s
    ensures TrimNul(s + t) == TrimNul(s)
  {
    if s[0] != 0 {
      assert (s + t)[1..] == s[1..] + t;
      TrimNulStable(s[1..], t);
    }
  }

  /** A string table that only grows, after its size field, keeps the names it had. */
  lemma NameStable(name: bytes, old_: bytes, new_: bytes)
    requires NameOk(name, Some(old_)) && 4 <= |old_| <= |new_| && new_[4..|old_|] == old_[4..]
    ensures NameOk(name, Some(new_)) && ResolveName(name, Some(new_)) == ResolveName(name, Some(old_))
  {
    if name[0] == SLASH {
      var off := DecValue(TrimNul(name[1..]), 0);
      var a := old_[off..];
      assert a == old_[4..][off - 4..];
      assert new_[off..] == new_[4..|old_|][off - 4..] + new_[|old_|..];
      assert 0 in new_[off..];
      TrimNulStable(a, new_[|old_|..]);
    }
  }

  predicate SliceIs(s: bytes, at: nat, d: bytes) {
    at + |d| <= |s| && s[at..at + |d|] == d
  }

  /** The symbols, without their string table. */
  function SymbolBytes(s: bytes, hdr: Hdr): bytes
    requires SymbolsOk(s, hdr)
  {
    if hdr.symPtr == 0 then [] else s[hdr.symPtr..StrTabAt(hdr)]
  }

  // ----- Well-formed images ----------------------------------------------------------------------

  /** Raw data lies between the headers and the end of the file. */
  predicate RawOk(sec: Section, hdr: Hdr, size: nat) {
    sec.rawPtr != 0 ==> hdr.sizeOfHeaders <= sec.rawPtr && sec.rawPtr + sec.rawSize <= size
  }

  /** A symbol table, if any, lies after the headers and has a string table; without one there are no symbols. */
  predicate SymbolsOk(s: bytes, hdr: Hdr) {
    if hdr.symPtr == 0 then hdr.nSymbols == 0
    else hdr.sizeOfHeaders <= hdr.symPtr && StrTab(s, hdr).Some? && |StrTab(s, hdr).value| >= 4
  }

  /** What the injectors take for granted once the headers pass their checks. */
  predicate WellFormed(s: bytes) {
    HasTable(s) &&
    var pe := ParsePe(s);
    && IsPow2(pe.hdr.fileAlign) && IsPow2(pe.hdr.sectAlign)
    && TableEnd(pe) <= pe.hdr.sizeOfHeaders <= |s|
    && SymbolsOk(s, pe.hdr)
    && forall i | 0 <= i < |pe.secs| ::
         RawOk(pe.secs[i], pe.hdr, |s|) && NameOk(pe.secs[i].name, StrTab(s, pe.hdr))
  }

  // ----- Layout arithmetic ------------------------------------------------------------------------

  function Pow2(k: nat): (p: nat)
    ensures p > 0
  {
    if k == 0 then 1 else 2 * Pow2(k - 1)
  }

  /** What alignments have to be for a mask to round. */
  predicate IsPow2(n: nat) {
    n == 1 || (n > 0 && n % 2 == 0 && IsPow2(n / 2))
  }

  lemma {:induction false} Exponent(n: nat) returns (k: nat)
    requires IsPow2(n)
    ensures n == Pow2(k)
  {
    if n == 1 {
      k := 0;
    } else {
      var h := Exponent(n / 2);
      k := h + 1;
    }
  }

  /** `x & ~m`, bit by bit. */
  function AndNot(x: nat, m: nat): nat {
    if x == 0 then 0 else 2 * AndNot(x / 2, m / 2) + if m % 2 == 1 then 0 else x % 2
  }

  lemma {:induction false} AndNotNothing(x: nat)
    ensures AndNot(x, 0) == x
  {
    if x > 0 {
      AndNotNothing(x / 2);
    }
  }

  lemma AndNotOdd(x: nat, h: nat)
    requires h > 0
    ensures AndNot(x, 2 * h - 1) == 2 * AndNot(x / 2, h - 1)
  {
    assert (2 * h - 1) / 2 == h - 1 && (2 * h - 1) % 2 == 1;
  }

  lemma DoubleProduct(q: nat, h: nat)
    ensures 2 * (q * h) == q * (2 * h)
  {
  }

  lemma {:induction false} AndNotLow(x: nat, k: nat)
    ensures AndNot(x, Pow2(k) - 1) == x / Pow2(k) * Pow2(k)
    decreases k
  {
    hide AndNot;
    if k == 0 {
      AndNotNothing(x);
    } else {
      var h := Pow2(k - 1);
      AndNotOdd(x, h);
      AndNotLow(x / 2, k - 1);
      HalfThenDivide(x, h);
      DoubleProduct(x / 2 / h, h);
    }
  }

  lemma HalfThenDivide(x: nat, h: nat)
    requires h > 0
    ensures x / 2 / h == x / (2 * h)
  {
    var q, r := x / 2, x % 2;
    assert q == h * (q / h) + q % h;
    assert x == (2 * h) * (q / h) + (2 * (q % h) + r);
    ModUnique(x, 2 * h, q / h, 2 * (q % h) + r);
  }

  /** The mask that the code applies gives the least multiple that is not below. */
  lemma MaskRoundsUp(v: nat, align: nat)
    requires IsPow2(align)
    ensures var r := AndNot(v + align - 1, align - 1); v <= r < v + align && r % align == 0
  {
    hide AndNot, IsPow2;
    var k := Exponent(align);
    var n := v + align - 1;
    AndNotLow(n, k);
    var q := n / align;
    assert n == align * q + n % align;
    ModUnique(q * align, align, q, 0);
  }

  /** `v` rounded up to a multiple of the alignment. */
  function RoundUp(v: nat, align: nat): (r: nat)
    requires IsPow2(align)
    ensures align > 0 && v <= r < v + align && r % align == 0
  {
    MaskRoundsUp(v, align);
    AndNot(v + align - 1, align - 1)
  }

  lemma RoundUpIs(v: nat, align: nat, r: nat)
    requires IsPow2(align) && v <= r < v + align && r % align == 0
    ensures RoundUp(v, align) == r
  {
    hide RoundUp, IsPow2;
    var x := RoundUp(v, align);
    if x < r {
      CloseMultiples(x, r, align);
    } else if r < x {
      CloseMultiples(r, x, align);
    }
  }

  lemma CloseMultiples(x: nat, y: nat, m: nat)
    requires m > 0 && x % m == 0 && y % m == 0 && x <= y < x + m
    ensures x == y
  {
    ModUnique(y, m, x / m, y - x);
  }

  /** Rounding past an aligned start. */
  lemma RoundUpFrom(base: nat, v: nat, align: nat)
    requires IsPow2(align) && base % align == 0
    ensures RoundUp(base + v, align) == base + RoundUp(v, align)
  {
    hide RoundUp, IsPow2;
    var r := RoundUp(v, align);
    assert base + r == align * (base / align + r / align);
    ModUnique(base + r, align, base / align + r / align, 0);
    RoundUpIs(base + v, align, base + r);
  }

  lemma {:induction false} Pow2Divides(fine: nat, coarse: nat)
    requires IsPow2(fine) && IsPow2(coarse) && fine <= coarse
    ensures coarse % fine == 0
  {
    if fine > 1 {
      var f, c := fine / 2, coarse / 2;
      Pow2Divides(f, c);
      var q := c / f;
      assert c == f * q;
      assert coarse == fine * q by { DoubleProduct(q, f); }
      ModUnique(coarse, fine, q, 0);
    }
  }

  /** A multiple of a coarser alignment is a multiple of the finer one, so rounding to it goes at least as far. */
  lemma RoundUpCoarser(v: nat, fine: nat, coarse: nat)
    requires IsPow2(fine) && IsPow2(coarse) && fine <= coarse
    ensures RoundUp(v, fine) <= RoundUp(v, coarse)
  {
    hide RoundUp, IsPow2;
    Pow2Divides(fine, coarse);
    var r, f := RoundUp(v, coarse), RoundUp(v, fine);
    MultipleOfMultiple(r, coarse, fine);
    if f > r {
      CloseMultiples(r, f, fine);
    }
  }

  lemma MultipleOfMultiple(r: nat, coarse: nat, fine: nat)
    requires fine > 0 && coarse > 0 && r % coarse == 0 && coarse % fine == 0
    ensures r % fine == 0
  {
    var k, m := r / coarse, coarse / fine;
    assert r == fine * (m * k) by { MulAssoc(fine, m, k); }
    ModUnique(r, fine, m * k, 0);
  }

  lemma MulAssoc(a: nat, b: nat, c: nat)
    ensures a * b * c == a * (b * c)
  {
  }

  /** One past the last address of any section. */
  function VaEnd(secs: seq<Section>): (end: nat)
    ensures forall i | 0 <= i < |secs| :: secs[i].va + Span(secs[i]) <= end
  {
    if secs == [] then 0
    else
      var last := secs[|secs| - 1];
      var end := VaEnd(secs[..|secs| - 1]);
      assert secs == secs[..|secs| - 1] + [last];
      if last.va + Span(last) > end then last.va + Span(last) else end
  }

  lemma {:induction false} VaEndReached(secs: seq<Section>)
    ensures VaEnd(secs) == 0 || exists i | 0 <= i < |secs| :: secs[i].va + Span(secs[i]) == VaEnd(secs)
  {
    hide Span;
    if secs != [] {
      VaEndReached(secs[..|secs| - 1]);
    }
  }

  /** One past the last file offset the layout loop sees, with raw pointers moved by `shift`. */
  function FileEnd(secs: seq<Section>, shift: nat): (end: nat)
    ensures forall i | 0 <= i < |secs| :: secs[i].rawPtr + shift + secs[i].rawSize <= end
  {
    if secs == [] then 0
    else
      var last := secs[|secs| - 1];
      var end := FileEnd(secs[..|secs| - 1], shift);
      assert secs == secs[..|secs| - 1] + [last];
      var f := last.rawPtr + shift + last.rawSize;
      if f > end then f else end
  }

  // ----- Extended images ------------------------------------------------------------------------------

  function Shift(sec: Section, shift: nat): Section {
    if sec.rawPtr == 0 then sec else sec.(rawPtr := sec.rawPtr + shift)
  }

  /** `b` is `a` with the headers grown by `shift`, everything after them moved, `added` sections
      holding `data`, and the symbols moved in front of the string table `strtab`. */
  ghost predicate Extends(a: bytes, b: bytes, shift: nat, added: seq<Section>, data: seq<bytes>, strtab: bytes) {
    && HasTable(a) && HasTable(b) && |added| == |data|
    && var pa, pb := ParsePe(a), ParsePe(b);
       && pb.e == pa.e
       && pb.hdr == pa.hdr.(nSections := pb.hdr.nSections, symPtr := pb.hdr.symPtr, sizeOfImage := pb.hdr.sizeOfImage,
                            sizeOfHeaders := pa.hdr.sizeOfHeaders + shift, checkSum := 0,
                            debugVa := pb.hdr.debugVa, debugSize := pb.hdr.debugSize)
       && |pb.secs| == |pa.secs| + |added| && pb.secs[|pa.secs|..] == added
       && (forall i | 0 <= i < |pa.secs| :: SameButName(pb.secs[i], Shift(pa.secs[i], shift)))
       && TableEnd(pb) <= pb.hdr.sizeOfHeaders <= |b|
       && Moved(a, b, pa.hdr.sizeOfHeaders, shift)
       && (forall j | 0 <= j < |added| :: Holds(b, added[j], data[j], pb.hdr))
       && pb.hdr.symPtr > 0 && StrTab(b, pb.hdr) == Some(strtab)
  }

  predicate SameButName(x: Section, y: Section) {
    x == y.(name := x.name) && |x.name| == 8
  }

  /** Everything after the headers is `shift` further on. */
  predicate Moved(a: bytes, b: bytes, headers: nat, shift: nat) {
    headers <= |a| && |a| + shift <= |b| && b[headers + shift..|a| + shift] == a[headers..]
  }

  /** The section's raw data starts with `d`, which is all of its virtual contents. */
  predicate Holds(b: bytes, sec: Section, d: bytes, hdr: Hdr) {
    && sec.vSize == |d| <= sec.rawSize && 0 < sec.rawPtr
    && hdr.sizeOfHeaders <= sec.rawPtr && sec.rawPtr + sec.rawSize <= |b|
    && SliceIs(b, sec.rawPtr, d)
  }

  lemma {:induction false} FindSectionIndex(secs: seq<Section>, rva: nat) returns (i: nat)
    requires FindSection(secs, rva).Some?
    ensures i < |secs| && FindSection(secs, rva) == Some(secs[i]) && Contains(secs[i], rva)
    ensures forall j | 0 <= j < i :: !Contains(secs[j], rva)
  {
    if Contains(secs[0], rva) {
      i := 0;
    } else {
      var k := FindSectionIndex(secs[1..], rva);
      i := k + 1;
    }
  }

  lemma {:induction false} FindSectionAt(secs: seq<Section>, rva: nat, i: nat)
    requires i < |secs| && Contains(secs[i], rva)
    requires forall j | 0 <= j < i :: !Contains(secs[j], rva)
    ensures FindSection(secs, rva) == Some(secs[i])
  {
    if i > 0 {
      assert !Contains(secs[0], rva);
      FindSectionAt(secs[1..], rva, i - 1);
    }
  }

  /** An extended image keeps the loader's view, headers expanded or not. */
  lemma ExtendedKeepsView(a: bytes, b: bytes, shift: nat, added: seq<Section>, data: seq<bytes>, strtab: bytes)
    requires WellFormed(a) && Extends(a, b, shift, added, data, strtab)
    ensures ViewKept(a, b)
  {
    hide HasTable, StrTab, Holds, ReadSections, ReadHdr, NameOk, SymbolsOk;
    var pa, pb := ParsePe(a), ParsePe(b);
    forall rva: nat | LoadByte(a, pa.secs, rva).Some?
      ensures LoadByte(b, pb.secs, rva) == LoadByte(a, pa.secs, rva)
    {
      var i := FindSectionIndex(pa.secs, rva);
      FindSectionAt(pb.secs, rva, i) by {
        assert SameButName(pb.secs[i], Shift(pa.secs[i], shift));
        forall j | 0 <= j < i ensures !Contains(pb.secs[j], rva) {
          assert SameButName(pb.secs[j], Shift(pa.secs[j], shift));
        }
      }
      assert SameButName(pb.secs[i], Shift(pa.secs[i], shift));
      ByteMoved(a, b, pa.hdr, shift, pa.secs[i], pb.secs[i], rva);
    }
  }

  lemma ByteMoved(a: bytes, b: bytes, hdr: Hdr, shift: nat, x: Section, y: Section, rva: nat)
    requires Moved(a, b, hdr.sizeOfHeaders, shift) && RawOk(x, hdr, |a|)
    requires SameButName(y, Shift(x, shift)) && Contains(x, rva)
    ensures Contains(y, rva) && LoadedByte(b, y, rva) == LoadedByte(a, x, rva)
  {
    var p := x.rawPtr + (rva - x.va);
    if x.rawPtr != 0 && rva - x.va < x.rawSize {
      var h := hdr.sizeOfHeaders;
      assert b[p + shift] == b[h + shift..|a| + shift][p - h];
      assert a[p] == a[h..][p - h];
    }
  }

  /** Added section `j` starts where all sections before it have ended. */
  ghost predicate Beyond(old_: seq<Section>, added: seq<Section>, j: nat)
    requires j < |added|
  {
    && VaEnd(old_) <= added[j].va
    && forall i | 0 <= i < j :: added[i].va + Span(added[i]) <= added[j].va
  }

  /** Each address of the section's virtual contents is found in it. */
  ghost predicate FoundAt(secs: seq<Section>, i: nat)
    requires i < |secs|
  {
    forall rva: nat | secs[i].va <= rva < secs[i].va + secs[i].vSize :: FindSection(secs, rva) == Some(secs[i])
  }

  lemma BeyondFound(old_: seq<Section>, now: seq<Section>, added: seq<Section>, j: nat)
    requires |now| == |old_| + |added| && now[|old_|..] == added && j < |added|
    requires forall i | 0 <= i < |old_| :: now[i].va == old_[i].va && Span(now[i]) == Span(old_[i])
    requires Beyond(old_, added, j)
    ensures FoundAt(now, |old_| + j)
  {
    hide FindSection, VaEnd;
    assert now[|old_| + j] == added[j];
    forall rva: nat | added[j].va <= rva < added[j].va + added[j].vSize
      ensures FindSection(now, rva) == Some(added[j])
    {
      forall i | 0 <= i < |old_| + j ensures !Contains(now[i], rva) {
        if i >= |old_| {
          assert now[i] == added[i - |old_|];
        }
      }
      FindSectionAt(now, rva, |old_| + j);
    }
  }

  /** Data is reachable in a section that is found: loading from its address gives it. */
  lemma {:induction false} FoundLoads(b: bytes, secs: seq<Section>, i: nat, d: bytes, hdr: Hdr, k: nat)
    requires i < |secs| && FoundAt(secs, i) && Holds(b, secs[i], d, hdr) && k <= |d|
    ensures LoadBytes(b, secs, secs[i].va + k, |d| - k) == Some(d[k..])
    decreases |d| - k
  {
    hide FindSection;
    if k < |d| {
      FoundLoads(b, secs, i, d, hdr, k + 1);
      var sec := secs[i];
      assert FindSection(secs, sec.va + k) == Some(sec);
      assert b[sec.rawPtr..sec.rawPtr + |d|][k] == d[k];
      assert d[k..] == [d[k]] + d[k + 1..];
    } else {
      assert d[k..] == [];
    }
  }
}
