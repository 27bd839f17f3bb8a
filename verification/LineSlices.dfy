/** Per-function line tables for the PDB: one sort per module and a slice per function, instead of a
    pass over all lines per function. */
module LineSlices {
  import opened Bytes

  datatype ModuleLine = ModuleLine(segment: u16, offset: u32, line: u32)

  datatype ModuleSource = ModuleSource(path: bytes, lines: seq<ModuleLine>)

  /** A line and the index of its source. */
  datatype LineIdx = LineIdx(source: nat, line: ModuleLine)

  datatype Function = Function(segment: u16, offset: u32, size: u32)

  /** The comparison of the sort: by segment, then by offset. */
  predicate Before(segment: u16, offset: u32, b: ModuleLine) {
    segment < b.segment || (segment == b.segment && offset < b.offset)
  }

  /** Segment and offset as one number, in the same order. */
  function Place(segment: u16, offset: u32): nat {
    var high: int := segment;
    0x1_0000_0000 * high + offset
  }

  lemma BeforeByPlace(segment: u16, offset: u32, b: ModuleLine)
    ensures Before(segment, offset, b) <==> Place(segment, offset) < Place(b.segment, b.offset)
  {
  }

  function PlaceOf(l: LineIdx): nat {
    Place(l.line.segment, l.line.offset)
  }

  predicate Sorted(ls: seq<LineIdx>) {
    forall i, j | 0 <= i < j < |ls| :: PlaceOf(ls[i]) <= PlaceOf(ls[j])
  }

  /** The end of a function's code; at least one byte, in 32 bits. */
  function End(f: Function): u32 {
    var size: int := if f.size > 1 then f.size else 1;
    (size + f.offset) % 0x1_0000_0000
  }

  /** The line is at one of the function's addresses; an empty function has one. A function that reaches the end of
      the segment's 32-bit offsets has no lines, since its end wraps around. */
  predicate InFunction(f: Function, l: ModuleLine) {
    var start: int, size: int := f.offset, f.size;
    && l.segment == f.segment && start + size < 0x1_0000_0000 && (size == 0 ==> start + 1 < 0x1_0000_0000)
    && (l.offset == f.offset || start < l.offset < start + size)
  }

  /** The naive pass: every line within the function. */
  function Filtered(ls: seq<LineIdx>, f: Function): seq<LineIdx> {
    if ls == [] then []
    else
      var last := ls[|ls| - 1];
      Filtered(ls[..|ls| - 1], f) + if InFunction(f, last.line) then [last] else []
  }

  // ----- All lines of a module ------------------------------------------------------------------

  function OfSource(i: nat, lines: seq<ModuleLine>): (r: seq<LineIdx>)
    ensures |r| == |lines|
  {
    seq(|lines|, k requires 0 <= k < |lines| => LineIdx(i, lines[k]))
  }

  function AllLines(sources: seq<ModuleSource>): seq<LineIdx> {
    if sources == [] then []
    else
      var n := |sources| - 1;
      AllLines(sources[..n]) + OfSource(n, sources[n].lines)
  }

  method SortedLines(sources: seq<ModuleSource>) returns (sorted: seq<LineIdx>)
    ensures Sorted(sorted) && multiset(sorted) == multiset(AllLines(sources))
  {
    hide Sorted, OfSource;
    sorted := [];
    NoneUnsorted();
    for i := 0 to |sources|
      invariant Sorted(sorted) && multiset(sorted) == multiset(AllLines(sources[..i]))
    {
      sorted := AddSource(sorted, i, sources[i].lines);
      assert sources[..i + 1][..i] == sources[..i];
    }
    assert sources[..|sources|] == sources;
  }

  method AddSource(sorted: seq<LineIdx>, i: nat, lines: seq<ModuleLine>) returns (r: seq<LineIdx>)
    requires Sorted(sorted)
    ensures Sorted(r) && multiset(r) == multiset(sorted) + multiset(OfSource(i, lines))
  {
    hide Sorted;
    r := sorted;
    ghost var all := OfSource(i, lines);
    for k := 0 to |lines|
      invariant Sorted(r) && multiset(r) == multiset(sorted) + multiset(all[..k])
    {
      r := Insert(r, LineIdx(i, lines[k]));
      assert all[..k + 1] == all[..k] + [all[k]];
    }
    assert all[..|lines|] == all;
  }

  lemma NoneUnsorted()
    ensures Sorted([])
  {
  }

  method Insert(sorted: seq<LineIdx>, e: LineIdx) returns (r: seq<LineIdx>)
    requires Sorted(sorted)
    ensures Sorted(r) && multiset(r) == multiset(sorted + [e])
  {
    hide PlaceOf, Before;
    var k := |sorted|;
    while k > 0 && Before(e.line.segment, e.line.offset, sorted[k - 1].line)
      invariant 0 <= k <= |sorted|
      invariant forall j | k <= j < |sorted| :: PlaceOf(e) < PlaceOf(sorted[j])
    {
      ComparesPlaces(e, sorted[k - 1]);
      k := k - 1;
    }
    if k > 0 {
      ComparesPlaces(e, sorted[k - 1]);
    }
    InsertedSorted(sorted, k, e);
    r := sorted[..k] + [e] + sorted[k..];
  }

  lemma ComparesPlaces(a: LineIdx, b: LineIdx)
    ensures Before(a.line.segment, a.line.offset, b.line) <==> PlaceOf(a) < PlaceOf(b)
  {
    BeforeByPlace(a.line.segment, a.line.offset, b.line);
  }

  lemma InsertedSorted(sorted: seq<LineIdx>, k: nat, e: LineIdx)
    requires Sorted(sorted) && k <= |sorted| && (k > 0 ==> PlaceOf(sorted[k - 1]) <= PlaceOf(e))
    requires forall j | k <= j < |sorted| :: PlaceOf(e) < PlaceOf(sorted[j])
    ensures var r := sorted[..k] + [e] + sorted[k..]; Sorted(r) && multiset(r) == multiset(sorted + [e])
  {
    hide PlaceOf, Sorted;
    var r := sorted[..k] + [e] + sorted[k..];
    assert sorted == sorted[..k] + sorted[k..];
    InsertedOrdered(sorted, k, e, r);
  }

  lemma InsertedOrdered(sorted: seq<LineIdx>, k: nat, e: LineIdx, r: seq<LineIdx>)
    requires Sorted(sorted) && k <= |sorted| && r == sorted[..k] + [e] + sorted[k..]
    requires (k > 0 ==> PlaceOf(sorted[k - 1]) <= PlaceOf(e))
             && forall j | k <= j < |sorted| :: PlaceOf(e) < PlaceOf(sorted[j])
    ensures Sorted(r)
  {
    hide PlaceOf;
    forall i, j | 0 <= i < j < |r| ensures PlaceOf(r[i]) <= PlaceOf(r[j]) {
      InsertedAt(sorted, k, e, i);
      InsertedAt(sorted, k, e, j);
      if i < k && j == k && i < k - 1 {
        assert PlaceOf(sorted[i]) <= PlaceOf(sorted[k - 1]);
      }
      if i < k < j {
        assert PlaceOf(sorted[i]) <= PlaceOf(sorted[j - 1]);
      }
    }
  }

  /** Where the elements are after an insertion. */
  lemma InsertedAt(sorted: seq<LineIdx>, k: nat, e: LineIdx, i: nat)
    requires k <= |sorted| && i <= |sorted|
    ensures (sorted[..k] + [e] + sorted[k..])[i] == if i < k then sorted[i] else if i == k then e else sorted[i - 1]
  {
  }

  // ----- The slice of one function ------------------------------------------------------------------

  function Start(f: Function): nat {
    Place(f.segment, f.offset)
  }

  /** `lower_bound`: the first line not before the function's start. */
  method LowerBound(ls: seq<LineIdx>, f: Function) returns (k: nat)
    requires Sorted(ls)
    ensures k <= |ls|
    ensures (forall i | 0 <= i < k :: PlaceOf(ls[i]) < Start(f))
            && (forall i | k <= i < |ls| :: Start(f) <= PlaceOf(ls[i]))
  {
    hide Before;
    var lo, hi := 0, |ls|;
    var start := ModuleLine(f.segment, f.offset, 0);
    while lo < hi
      invariant lo <= hi <= |ls|
      invariant (forall i | 0 <= i < lo :: PlaceOf(ls[i]) < Start(f))
                && (forall i | hi <= i < |ls| :: Start(f) <= PlaceOf(ls[i]))
    {
      var mid := (lo + hi) / 2;
      BeforeByPlace(ls[mid].line.segment, ls[mid].line.offset, start);
      if Before(ls[mid].line.segment, ls[mid].line.offset, start) {
        lo := mid + 1;
      } else {
        hi := mid;
      }
    }
    k := lo;
  }

  /** A line within the function is not before its start, and nothing behind a later line is. */
  lemma InFunctionPlace(f: Function, l: LineIdx)
    ensures InFunction(f, l.line) <==> Start(f) <= PlaceOf(l) < Place(f.segment, 0) + End(f)
  {
  }

  lemma {:induction false} NoneFiltered(ls: seq<LineIdx>, f: Function)
    requires forall i | 0 <= i < |ls| :: !InFunction(f, ls[i].line)
    ensures Filtered(ls, f) == []
    decreases |ls|
  {
    if ls != [] {
      NoneFiltered(ls[..|ls| - 1], f);
    }
  }

  lemma FilteredAdd(ls: seq<LineIdx>, l: LineIdx, f: Function)
    ensures Filtered(ls + [l], f) == Filtered(ls, f) + if InFunction(f, l.line) then [l] else []
  {
    assert (ls + [l])[..|ls|] == ls;
  }

  lemma {:induction false} FilteredNoMore(ls: seq<LineIdx>, n: nat, f: Function)
    requires n <= |ls| && forall i | n <= i < |ls| :: !InFunction(f, ls[i].line)
    ensures Filtered(ls, f) == Filtered(ls[..n], f)
    decreases |ls|
  {
    if n < |ls| {
      var m := |ls| - 1;
      FilteredNoMore(ls[..m], n, f);
      assert ls[..m][..n] == ls[..n];
    } else {
      assert ls[..n] == ls;
    }
  }

  /** The slice between the two bounds is what the naive pass selects, in the sorted order. */
  method FunctionLines(ls: seq<LineIdx>, f: Function) returns (slice: seq<LineIdx>)
    requires Sorted(ls)
    ensures slice == Filtered(ls, f)
  {
    hide Filtered, InFunction, PlaceOf, Start, Place, End;
    var first := LowerBound(ls, f);
    slice := [];
    forall i | 0 <= i < first ensures !InFunction(f, ls[i].line) {
      InFunctionPlace(f, ls[i]);
    }
    NoneFiltered(ls[..first], f);
    var k := first;
    while k < |ls| && ls[k].line.segment == f.segment && ls[k].line.offset < End(f)
      invariant first <= k <= |ls| && slice == Filtered(ls[..k], f)
    {
      Within(f, ls[k]);
      FilteredAdd(ls[..k], ls[k], f);
      assert ls[..k + 1] == ls[..k] + [ls[k]];
      slice := slice + [ls[k]];
      k := k + 1;
    }
    forall i | k <= i < |ls| ensures !InFunction(f, ls[i].line) {
      Beyond(f, ls[k], ls[i]);
    }
    FilteredNoMore(ls, k, f);
  }

  lemma Within(f: Function, l: LineIdx)
    requires l.line.segment == f.segment && l.line.offset < End(f) && Start(f) <= PlaceOf(l)
    ensures InFunction(f, l.line)
  {
  }

  lemma Beyond(f: Function, a: LineIdx, b: LineIdx)
    requires Start(f) <= PlaceOf(a) <= PlaceOf(b) && (a.line.segment != f.segment || a.line.offset >= End(f))
    ensures !InFunction(f, b.line)
  {
  }

  lemma {:induction false} FilteredCount(ls: seq<LineIdx>, f: Function, e: LineIdx)
    ensures multiset(Filtered(ls, f))[e] == if InFunction(f, e.line) then multiset(ls)[e] else 0
    decreases |ls|
  {
    if ls != [] {
      var n := |ls| - 1;
      FilteredCount(ls[..n], f, e);
      assert ls == ls[..n] + [ls[n]];
    }
  }

  /** Whatever the sort did with equal lines, the slice has exactly the lines a naive pass over the
      module's sources would have. */
  lemma SliceIsNaive(sorted: seq<LineIdx>, all: seq<LineIdx>, f: Function)
    requires multiset(sorted) == multiset(all)
    ensures multiset(Filtered(sorted, f)) == multiset(Filtered(all, f))
  {
    forall e: LineIdx ensures multiset(Filtered(sorted, f))[e] == multiset(Filtered(all, f))[e] {
      FilteredCount(sorted, f, e);
      FilteredCount(all, f, e);
    }
  }
}
