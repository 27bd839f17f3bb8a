/** The resynchronising scan of an RSM metadata stream for procedure records and global variables. */
module Scanner {
  import opened Bytes
  import opened SubRecord

  const SCAN_START := 0x426
  const TRAILER_MARKER: u8 := 0x09

  datatype Variable = Variable(
    name: bytes, address: nat, stackOffset: i32, inlineTypeId: u16, trailerTypeId: u16, typeMarker: u8,
    isPrimitive: bool, hasTrailer: bool, fileOffset: nat)

  datatype ProcedureRecord = ProcedureRecord(
    name: bytes, address: nat, params: seq<Variable>, locals: seq<Variable>, fileOffset: nat, fileOffsetEnd: nat,
    hasStaticLink: bool)

  function Min(a: nat, b: nat): nat { if a < b then a else b }

  /** Scans stop eight bytes before the end of the buffer. */
  function Cap(buf: bytes, to: nat): (r: nat)
    ensures r <= to && r <= |buf|
  {
    Min(to, if |buf| > 8 then |buf| - 8 else 0)
  }

  // ----- Where a scan stops ---------------------------------------------------------------------

  /** An end marker in front of something that can follow a procedure record. */
  predicate EndsAt(buf: bytes, t: nat) {
    && t + 1 < |buf| && buf[t] == END_MARKER
    && (buf[t + 1] == TAG_FUNCTION || buf[t + 1] == TAG_VARIABLE || buf[t + 1] == TAG_PRIMITIVE
        || buf[t + 1] == TERMINATOR || buf[t + 1] == TYPE_ID_MARKER)
  }

  /** A whole sub-record, or an end marker: with `strict`, only one that something follows. */
  predicate StopsAt(buf: bytes, t: nat, strict: bool)
    requires t < |buf|
  {
    (if strict then EndsAt(buf, t) else buf[t] == END_MARKER) || SubAt(buf, t).Some?
  }

  function FirstStop(buf: bytes, from: nat, to: nat, strict: bool): (r: Option<nat>)
    requires to <= |buf|
    ensures r.Some? ==> from <= r.value < to && StopsAt(buf, r.value, strict)
    ensures r.Some? ==> forall t | from <= t < r.value :: !StopsAt(buf, t, strict)
    ensures r.None? ==> forall t | from <= t < to :: !StopsAt(buf, t, strict)
    decreases if from < to then to - from else 0
  {
    if from >= to then None
    else if StopsAt(buf, from, strict) then Some(from)
    else FirstStop(buf, from + 1, to, strict)
  }

  // ----- The body of a procedure record ---------------------------------------------------------------

  /** Where the walk over sub-records ends, and where the sub-records are that it finds. */
  datatype Walk = Walk(end: nat, subs: seq<nat>)

  /** Skips up to six bytes of padding between sub-records. */
  function Reanchored(buf: bytes, s: nat): (t: nat)
    requires s + 8 < |buf|
    ensures s <= t <= s + 6 && t + 8 <= |buf|
  {
    match FirstStop(buf, s, Cap(buf, s + 6), true)
    case Some(t) => t
    case None => Cap(buf, s + 6)
  }

  /** The walk ends, goes on behind something that is no sub-record, or takes the sub-record at `at`. */
  datatype Step = Stop(end: nat) | Skip(next: nat) | Take(at: nat, next: nat)

  function WalkStep(buf: bytes, s: nat): (step: Step)
    requires s + 8 < |buf|
    ensures step.Stop? ==> s <= step.end <= |buf|
    ensures step.Skip? ==> s < step.next <= |buf|
    ensures step.Take? ==> s <= step.at < step.next <= |buf| && SubAt(buf, step.at).Some?
                           && step.next == step.at + SubAt(buf, step.at).value.totalSize
  {
    var t := Reanchored(buf, s);
    if t + 8 >= |buf| then Stop(t)
    else if buf[t] == END_MARKER then Stop(t + 1)
    else if !IsSubTag(buf[t]) then
      match FirstStop(buf, t + 1, Cap(buf, t + 1024), false)
      case None => Stop(t)
      case Some(next) => Skip(next)
    else
      match SubAt(buf, t)
      case None => Stop(t)
      case Some(sub) => Take(t, t + sub.totalSize)
  }

  function WalkFrom(buf: bytes, s: nat): (w: Walk)
    requires s <= |buf|
    ensures s <= w.end <= |buf|
    decreases |buf| - s
  {
    if s + 8 >= |buf| then Walk(s, [])
    else match WalkStep(buf, s)
      case Stop(end) => Walk(end, [])
      case Skip(next) => WalkFrom(buf, next)
      case Take(at, next) =>
        var w := WalkFrom(buf, next);
        Walk(w.end, [at] + w.subs)
  }

  function SubVariable(buf: bytes, t: nat): Variable
    requires SubAt(buf, t).Some?
  {
    var sub := SubAt(buf, t).value;
    Variable(buf[sub.nameAt..sub.nameAt + sub.nameLen], 0, sub.storedOff, if sub.isPrimitive then 0 else sub.typeHash, 0,
             if sub.isPrimitive then sub.marker else 0, sub.isPrimitive, false, t)
  }

  /** The sub-records at these positions that are local variables, or those that are parameters. */
  function Selected(buf: bytes, subs: seq<nat>, locals: bool): seq<Variable> {
    if subs == [] then []
    else
      var last := subs[|subs| - 1];
      var rest := Selected(buf, subs[..|subs| - 1], locals);
      if SubAt(buf, last).Some? && (buf[last] == TAG_VARIABLE) == locals then rest + [SubVariable(buf, last)] else rest
  }

  // ----- The head of a procedure record ----------------------------------------------------------------

  const SUBTAG_VA_FIRST: u8 := 0x20
  const SUBTAG_NESTED: u8 := 0x41

  /** The name and address, whether it is a nested function, and where its body starts to be looked for. */
  datatype Head = Head(name: bytes, address: nat, nested: bool, scanFrom: nat)

  predicate IsHashedSubTag(b: u8) {
    b == 0xA0 || b == 0xE0 || b == 0x80
  }

  /** Bytes between the sub-tag and the address. */
  function AddressGap(subtag: u8): nat {
    if subtag == SUBTAG_VA_FIRST then 3 else if subtag == SUBTAG_NESTED then 4 else 7
  }

  function HeadAt(buf: bytes, p: nat): (r: Option<Head>)
    requires p + 16 < |buf|
    ensures r.Some? ==> p < r.value.scanFrom < |buf|
  {
    var nameLen := buf[p + 1];
    var head := p + 2 + nameLen;
    if buf[p] != TAG_FUNCTION || nameLen < 2 || nameLen > 200 || head + 14 >= |buf| then None
    else
      var subtag := buf[head];
      if !IsHashedSubTag(subtag) && subtag != SUBTAG_VA_FIRST && subtag != SUBTAG_NESTED then None
      else if subtag != SUBTAG_NESTED && (buf[head + 1] != 0 || buf[head + 2] != 0) then None
      else if !IsName(buf[p + 2..head]) then None
      else
        var at := head + AddressGap(subtag);
        Some(Head(buf[p + 2..head], FromLe(buf[at..at + 4]) / 16, subtag == SUBTAG_NESTED, at + 4))
  }

  /** The procedure record at `p`, if there is one. */
  function ProcAt(buf: bytes, p: nat): (r: Option<ProcedureRecord>)
    requires p + 16 < |buf|
    ensures r.Some? ==> r.value.fileOffset == p < r.value.fileOffsetEnd <= |buf|
  {
    var head :- HeadAt(buf, p);
    var first :- FirstStop(buf, head.scanFrom, Cap(buf, head.scanFrom + 96), true);
    if EndsAt(buf, first) then Some(ProcedureRecord(head.name, head.address, [], [], p, first + 1, head.nested))
    else
      var w := WalkFrom(buf, first);
      Some(ProcedureRecord(head.name, head.address, Selected(buf, w.subs, false), Selected(buf, w.subs, true), p, w.end,
                           head.nested))
  }

  function Procs(buf: bytes, p: nat): (r: seq<ProcedureRecord>)
    decreases if p < |buf| then |buf| - p else 0
  {
    if p + 16 >= |buf| then []
    else match ProcAt(buf, p)
      case Some(proc) => [proc] + Procs(buf, proc.fileOffsetEnd)
      case None => Procs(buf, p + 1)
  }

  // ----- Global variables -----------------------------------------------------------------------------

  /** Some procedure's record has the offset: tested one by one. */
  predicate Inside(procs: seq<ProcedureRecord>, off: nat) {
    exists k | 0 <= k < |procs| :: procs[k].fileOffset <= off < procs[k].fileOffsetEnd
  }

  datatype Found = Found(variable: Variable, next: nat)

  /** The global-variable record at `i`, and where it ends. */
  function VarAt(buf: bytes, i: nat): (r: Option<Found>)
    requires i + 8 < |buf|
    ensures r.Some? ==> i < r.value.next <= |buf| && r.value.variable.fileOffset == i
  {
    var nameLen := buf[i + 1];
    var subTagAt := i + 2 + nameLen;
    if buf[i] != TAG_VARIABLE || nameLen == 0 || nameLen > 64 || subTagAt + 3 >= |buf| then None
    else if buf[subTagAt] != SUBTAG_NEW || buf[subTagAt + 1] != 0 || buf[subTagAt + 2] != 0 then None
    else if !IsName(buf[i + 2..subTagAt]) || subTagAt + 9 > |buf| then None
    else
      var name, at := buf[i + 2..subTagAt], subTagAt + 3;
      if buf[at] != 0 && buf[at] < 0x40 && buf[at] % 2 == 0 then
        var address := FromLe(buf[at + 1..at + 5]) / 16;
        if HasTrailer(buf, at) then
          Some(Found(Variable(name, address, 0, 0, Word(buf[at + 9], buf[at + 10]), buf[at], true, true, i), at + 12))
        else
          Some(Found(Variable(name, address, 0, 0, 0, buf[at], true, false, i), at + 5))
      else
        var address := FromLe(buf[at + 2..at + 6]) / 16;
        Some(Found(Variable(name, address, 0, Word(buf[at], buf[at + 1]), 0, 0, false, false, i), at + 6))
  }

  predicate HasTrailer(buf: bytes, at: nat) {
    at + 12 <= |buf| && buf[at + 5] == TYPE_ID_MARKER && buf[at + 6] == TRAILER_MARKER && buf[at + 11] == TERMINATOR
  }

  function Vars(buf: bytes, procs: seq<ProcedureRecord>, i: nat): seq<Variable>
    decreases if i < |buf| then |buf| - i else 0
  {
    if i + 8 >= |buf| then []
    else if Inside(procs, i) || VarAt(buf, i).None? then Vars(buf, procs, i + 1)
    else [VarAt(buf, i).value.variable] + Vars(buf, procs, VarAt(buf, i).value.next)
  }

  // ----- The scanner ---------------------------------------------------------------------------------------

  /** Ascending, pairwise disjoint, and not empty. */
  predicate InOrder(procs: seq<ProcedureRecord>) {
    && (forall k | 0 <= k < |procs| :: procs[k].fileOffset < procs[k].fileOffsetEnd)
    && (forall j, k | 0 <= j < k < |procs| :: procs[j].fileOffsetEnd <= procs[k].fileOffset)
  }

  /** Each procedure record is the one at its offset, within the buffer and behind `from`. */
  ghost predicate AllFound(buf: bytes, procs: seq<ProcedureRecord>, from: nat) {
    forall k | 0 <= k < |procs| ::
      && from <= procs[k].fileOffset && procs[k].fileOffset + 16 < |buf| && procs[k].fileOffsetEnd <= |buf|
      && ProcAt(buf, procs[k].fileOffset) == Some(procs[k])
  }

  lemma {:induction false} ProcsInOrder(buf: bytes, p: nat)
    ensures InOrder(Procs(buf, p)) && AllFound(buf, Procs(buf, p), p)
    decreases if p < |buf| then |buf| - p else 0
  {
    hide ProcAt;
    if p + 16 < |buf| {
      var found := ProcAt(buf, p);
      if found.Some? {
        ProcsInOrder(buf, found.value.fileOffsetEnd);
      } else {
        ProcsInOrder(buf, p + 1);
      }
    }
  }

  class Reader {
    var procedures: seq<ProcedureRecord>
    var variables: seq<Variable>

    constructor ()
      ensures procedures == [] && variables == []
    {
      procedures, variables := [], [];
    }

    /** Procedures first, so that the scan for variables can skip them. */
    method ScanProceduresAndVariables(buf: bytes)
      requires procedures == [] && variables == []
      modifies this
      ensures procedures == Procs(buf, Min(0x426, |buf|))
      ensures variables == Vars(buf, procedures, Min(0x426, |buf|))
    {
      hide InOrder, AllFound;
      ScanProcedures(buf);
      ProcsInOrder(buf, Min(SCAN_START, |buf|));
      ScanVariables(buf);
    }

    method ScanProcedures(buf: bytes)
      requires procedures == []
      modifies this`procedures
      ensures procedures == Procs(buf, Min(SCAN_START, |buf|))
    {
      hide ProcAt;
      var start := Min(SCAN_START, |buf|);
      var p := start;
      while p + 16 < |buf|
        invariant start <= p <= |buf|
        invariant Procs(buf, start) == procedures + Procs(buf, p)
      {
        var proc := ReadProcedure(buf, p);
        if proc.Some? {
          assert procedures + ([proc.value] + Procs(buf, proc.value.fileOffsetEnd))
              == (procedures + [proc.value]) + Procs(buf, proc.value.fileOffsetEnd);
          procedures := procedures + [proc.value];
          p := proc.value.fileOffsetEnd;
        } else {
          p := p + 1;
        }
      }
    }

    /** Binary search: the last procedure that starts at or before the offset decides. */
    method IsInsideProcedure(off: nat) returns (inside: bool)
      requires InOrder(procedures)
      ensures inside <==> Inside(procedures, off)
    {
      var lo, hi := 0, |procedures|;
      while lo < hi
        invariant 0 <= lo <= hi <= |procedures|
        invariant forall k | 0 <= k < lo :: procedures[k].fileOffset <= off
        invariant forall k | hi <= k < |procedures| :: off < procedures[k].fileOffset
      {
        var mid := (lo + hi) / 2;
        if off < procedures[mid].fileOffset {
          hi := mid;
        } else {
          lo := mid + 1;
        }
      }
      if lo == 0 {
        return false;
      }
      inside := off < procedures[lo - 1].fileOffsetEnd;
      if inside {
        assert procedures[lo - 1].fileOffset <= off < procedures[lo - 1].fileOffsetEnd;
      }
    }

    method ScanVariables(buf: bytes)
      requires InOrder(procedures) && variables == []
      modifies this`variables
      ensures variables == Vars(buf, procedures, Min(SCAN_START, |buf|))
    {
      hide InOrder, Inside, VarAt, SubAt, Vars;
      var start := Min(SCAN_START, |buf|);
      var i := start;
      while i + 8 < |buf|
        invariant start <= i <= |buf|
        invariant Vars(buf, procedures, start) == variables + Vars(buf, procedures, i)
      {
        VarsStep(buf, procedures, i);
        if buf[i] != TAG_VARIABLE {
          OtherTag(buf, i);
          i := i + 1;
          continue;
        }
        var inside := IsInsideProcedure(i);
        if inside {
          i := i + 1;
          continue;
        }
        var found := ReadVariable(buf, i);
        if found.Some? {
          assert variables + ([found.value.variable] + Vars(buf, procedures, found.value.next))
              == (variables + [found.value.variable]) + Vars(buf, procedures, found.value.next);
          variables := variables + [found.value.variable];
          i := found.value.next;
        } else {
          i := i + 1;
        }
      }
      VarsEnd(buf, procedures, i);
    }
  }

  lemma VarsStep(buf: bytes, procs: seq<ProcedureRecord>, i: nat)
    requires i + 8 < |buf|
    ensures Vars(buf, procs, i) == if Inside(procs, i) || VarAt(buf, i).None? then Vars(buf, procs, i + 1)
                                   else [VarAt(buf, i).value.variable] + Vars(buf, procs, VarAt(buf, i).value.next)
  {
    hide Inside, VarAt;
  }

  lemma VarsEnd(buf: bytes, procs: seq<ProcedureRecord>, i: nat)
    requires i + 8 >= |buf|
    ensures Vars(buf, procs, i) == []
  {
  }

  lemma OtherTag(buf: bytes, i: nat)
    requires i + 8 < |buf| && buf[i] != TAG_VARIABLE
    ensures VarAt(buf, i).None?
  {
  }

  method FindStop(buf: bytes, from: nat, to: nat, strict: bool) returns (r: Option<nat>)
    requires to <= |buf|
    ensures r == FirstStop(buf, from, to, strict)
  {
    hide SubAt, EndsAt;
    var t := from;
    while t < to
      invariant from <= t
      invariant FirstStop(buf, from, to, strict) == FirstStop(buf, t, to, strict)
    {
      if IsSubTag(buf[t]) {
        var sub := ParseSub(buf, t);
        if sub.Some? {
          return Some(t);
        }
        SubTagEndsNot(buf, t);
      } else if if strict then EndsAt(buf, t) else buf[t] == END_MARKER {
        return Some(t);
      }
      t := t + 1;
    }
    r := None;
  }

  lemma SubTagEndsNot(buf: bytes, t: nat)
    requires t < |buf| && IsSubTag(buf[t])
    ensures !EndsAt(buf, t)
  {
  }

  method ReadSubVariable(buf: bytes, s: nat) returns (v: Option<Variable>, size: nat)
    ensures v.Some? <==> SubAt(buf, s).Some?
    ensures v.Some? ==> v.value == SubVariable(buf, s) && size == SubAt(buf, s).value.totalSize
  {
    hide SubAt;
    var sub := ParseSub(buf, s);
    if sub.None? {
      return None, 0;
    }
    var r := sub.value;
    v := Some(Variable(buf[r.nameAt..r.nameAt + r.nameLen], 0, r.storedOff, if r.isPrimitive then 0 else r.typeHash, 0,
                       if r.isPrimitive then r.marker else 0, r.isPrimitive, false, s));
    size := r.totalSize;
  }

  /** One step of the walk, with the variable it takes. */
  method NextStep(buf: bytes, s: nat) returns (step: Step, v: Option<Variable>)
    requires s + 8 < |buf|
    ensures step == WalkStep(buf, s)
    ensures step.Take? ==> v == Some(SubVariable(buf, step.at))
  {
    hide SubAt, FirstStop, SubVariable;
    v := None;
    var anchor := FindStop(buf, s, Cap(buf, s + 6), true);
    var t := if anchor.Some? then anchor.value else Cap(buf, s + 6);
    if t + 8 >= |buf| {
      return Stop(t), v;
    }
    if buf[t] == END_MARKER {
      return Stop(t + 1), v;
    }
    if !IsSubTag(buf[t]) {
      var next := FindStop(buf, t + 1, Cap(buf, t + 1024), false);
      return if next.Some? then Skip(next.value) else Stop(t), v;
    }
    var size;
    v, size := ReadSubVariable(buf, t);
    step := if v.Some? then Take(t, t + size) else Stop(t);
  }

  /** Collects the sub-records of a procedure record from `first` on. */
  method WalkBody(buf: bytes, first: nat) returns (params: seq<Variable>, locals: seq<Variable>, end: nat)
    requires first <= |buf|
    ensures var w := WalkFrom(buf, first);
            params == Selected(buf, w.subs, false) && locals == Selected(buf, w.subs, true) && end == w.end
  {
    hide SubAt, WalkStep, Selected, SubVariable;
    params, locals := [], [];
    var s := first;
    ghost var done: seq<nat> := [];
    NoneSelected(buf);
    ghost var all := WalkFrom(buf, first);
    assert all.subs == done + WalkFrom(buf, s).subs;
    while s + 8 < |buf|
      invariant first <= s <= |buf|
      invariant all.end == WalkFrom(buf, s).end && all.subs == done + WalkFrom(buf, s).subs
      invariant params == Selected(buf, done, false) && locals == Selected(buf, done, true)
    {
      var step, v := NextStep(buf, s);
      match step {
        case Stop(end) =>
          assert all.subs == done;
          return params, locals, end;
        case Skip(next) =>
          s := next;
        case Take(at, next) =>
          SelectNext(buf, done, at, v.value);
          if buf[at] == TAG_VARIABLE {
            locals := locals + [v.value];
          } else {
            params := params + [v.value];
          }
          assert done + ([at] + WalkFrom(buf, next).subs) == (done + [at]) + WalkFrom(buf, next).subs;
          done := done + [at];
          s := next;
      }
    }
    assert all.subs == done;
    end := s;
  }

  lemma NoneSelected(buf: bytes)
    ensures Selected(buf, [], false) == [] && Selected(buf, [], true) == []
  {
  }

  lemma SelectNext(buf: bytes, done: seq<nat>, s: nat, v: Variable)
    requires SubAt(buf, s).Some? && v == SubVariable(buf, s)
    ensures Selected(buf, done + [s], true) == Selected(buf, done, true) + (if buf[s] == TAG_VARIABLE then [v] else [])
    ensures Selected(buf, done + [s], false)
            == Selected(buf, done, false) + (if buf[s] == TAG_VARIABLE then [] else [v])
  {
    hide SubAt, SubVariable;
    assert (done + [s])[..|done|] == done;
  }

  method ReadHead(buf: bytes, p: nat) returns (r: Option<Head>)
    requires p + 16 < |buf|
    ensures r == HeadAt(buf, p)
  {
    hide IsName, FromLe;
    if buf[p] != TAG_FUNCTION {
      return None;
    }
    var nameLen := buf[p + 1];
    if nameLen < 2 || nameLen > 200 {
      return None;
    }
    var head := p + 2 + nameLen;
    if head + 14 >= |buf| {
      return None;
    }
    var subtag := buf[head];
    var nested := subtag == SUBTAG_NESTED;
    if !IsHashedSubTag(subtag) && subtag != SUBTAG_VA_FIRST && !nested {
      return None;
    }
    if !nested && (buf[head + 1] != 0 || buf[head + 2] != 0) {
      return None;
    }
    var printable := IsPrintableName(buf, p + 2, head);
    if !printable {
      return None;
    }
    var at := head + (if subtag == SUBTAG_VA_FIRST then 3 else if nested then 4 else 7);
    r := Some(Head(buf[p + 2..head], FromLe(buf[at..at + 4]) / 16, nested, at + 4));
  }

  method ReadProcedure(buf: bytes, p: nat) returns (r: Option<ProcedureRecord>)
    requires p + 16 < |buf|
    ensures r == ProcAt(buf, p)
  {
    hide SubAt, FirstStop, WalkFrom, Selected, HeadAt, EndsAt;
    var head := ReadHead(buf, p);
    if head.None? {
      return None;
    }
    var first := FindStop(buf, head.value.scanFrom, Cap(buf, head.value.scanFrom + 96), true);
    if first.None? {
      return None;
    }
    var proc := ProcedureRecord(head.value.name, head.value.address, [], [], p, first.value + 1, head.value.nested);
    if EndsAt(buf, first.value) {
      return Some(proc);
    }
    var params, locals, end := WalkBody(buf, first.value);
    r := Some(proc.(params := params, locals := locals, fileOffsetEnd := end));
  }

  method ReadVariable(buf: bytes, i: nat) returns (r: Option<Found>)
    requires i + 8 < |buf|
    ensures r == VarAt(buf, i)
  {
    hide IsName, FromLe;
    r := None;
    var nameLen := buf[i + 1];
    var subTagAt := i + 2 + nameLen;
    if buf[i] != TAG_VARIABLE || nameLen == 0 || nameLen > 64 || subTagAt + 3 >= |buf| {
      return;
    }
    if buf[subTagAt] != SUBTAG_NEW || buf[subTagAt + 1] != 0 || buf[subTagAt + 2] != 0 {
      return;
    }
    var printable := IsPrintableName(buf, i + 2, subTagAt);
    var at := subTagAt + 3;
    if !printable || at + 6 > |buf| {
      return;
    }
    var v := Variable(buf[i + 2..subTagAt], 0, 0, 0, 0, 0, false, false, i);
    if buf[at] != 0 && buf[at] < 0x40 && buf[at] % 2 == 0 {
      v := v.(typeMarker := buf[at], address := FromLe(buf[at + 1..at + 5]) / 16, isPrimitive := true);
      if HasTrailer(buf, at) {
        v := v.(hasTrailer := true, trailerTypeId := Word(buf[at + 9], buf[at + 10]));
        return Some(Found(v, at + 12));
      }
      return Some(Found(v, at + 5));
    }
    v := v.(inlineTypeId := Word(buf[at], buf[at + 1]), address := FromLe(buf[at + 2..at + 6]) / 16);
    return Some(Found(v, at + 6));
  }
}
