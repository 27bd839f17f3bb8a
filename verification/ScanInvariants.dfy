/** What every scan of every buffer keeps, and that well-formed procedure records are scanned exactly. */
module ScanInvariants {
  import opened Bytes
  import opened SubRecord
  import opened Scanner

  // ----- Ranges -----------------------------------------------------------------------------------

  /** Sub-records one after the other, none overlapping the next, all between `lo` and `hi`. */
  ghost predicate SubsInOrder(buf: bytes, subs: seq<nat>, lo: nat, hi: nat) {
    && (forall i | 0 <= i < |subs| ::
          SubAt(buf, subs[i]).Some? && lo <= subs[i] && subs[i] + SubAt(buf, subs[i]).value.totalSize <= hi)
    && (forall i, j | 0 <= i < j < |subs| :: subs[i] + SubAt(buf, subs[i]).value.totalSize <= subs[j])
  }

  lemma {:induction false} WalkInOrder(buf: bytes, s: nat)
    requires s <= |buf|
    ensures SubsInOrder(buf, WalkFrom(buf, s).subs, s, WalkFrom(buf, s).end)
    decreases |buf| - s
  {
    hide SubAt, WalkStep;
    if s + 8 < |buf| {
      match WalkStep(buf, s)
      case Stop(_) =>
      case Skip(next) => WalkInOrder(buf, next);
      case Take(at, next) => WalkInOrder(buf, next);
    }
  }

  /** The parameters and locals of a procedure are exactly those of its sub-records, which its range contains. */
  ghost predicate HoldsSubs(buf: bytes, p: ProcedureRecord, subs: seq<nat>) {
    && SubsInOrder(buf, subs, p.fileOffset + 1, p.fileOffsetEnd)
    && p.params == Selected(buf, subs, false) && p.locals == Selected(buf, subs, true)
  }

  ghost predicate HasSubs(buf: bytes, p: ProcedureRecord) {
    exists subs :: HoldsSubs(buf, p, subs)
  }

  lemma ProcHoldsSubs(buf: bytes, p: nat) returns (subs: seq<nat>)
    requires p + 16 < |buf| && ProcAt(buf, p).Some?
    ensures HoldsSubs(buf, ProcAt(buf, p).value, subs)
  {
    hide SubAt, WalkFrom, HeadAt, FirstStop, EndsAt;
    var head := HeadAt(buf, p).value;
    var first := FirstStop(buf, head.scanFrom, Cap(buf, head.scanFrom + 96), true).value;
    if EndsAt(buf, first) {
      subs := [];
      NoneSelected(buf);
    } else {
      subs := WalkFrom(buf, first).subs;
      WalkInOrder(buf, first);
    }
  }

  /** Whatever the bytes: procedures in ascending disjoint ranges within the file, each containing its
      own sub-records in ascending disjoint ranges. */
  lemma ScanInvariant(buf: bytes)
    ensures var procs := Procs(buf, Min(SCAN_START, |buf|));
            && InOrder(procs) && AllFound(buf, procs, Min(SCAN_START, |buf|))
            && forall k | 0 <= k < |procs| :: HasSubs(buf, procs[k])
  {
    hide ProcAt, HoldsSubs, InOrder;
    var procs := Procs(buf, Min(SCAN_START, |buf|));
    ProcsInOrder(buf, Min(SCAN_START, |buf|));
    forall k | 0 <= k < |procs| ensures HasSubs(buf, procs[k]) {
      assert ProcAt(buf, procs[k].fileOffset) == Some(procs[k]);
      var subs := ProcHoldsSubs(buf, procs[k].fileOffset);
      assert HoldsSubs(buf, procs[k], subs);
    }
  }

  /** No procedure record is passed over: one can start only where an earlier one reaches. */
  lemma {:induction false} NoProcMissed(buf: bytes, p: nat, q: nat)
    requires p <= q && q + 16 < |buf| && ProcAt(buf, q).Some?
    ensures Inside(Procs(buf, p), q)
    decreases q - p
  {
    hide ProcAt;
    var found := ProcAt(buf, p);
    if found.Some? {
      var rest := Procs(buf, found.value.fileOffsetEnd);
      if q < found.value.fileOffsetEnd {
        assert Procs(buf, p)[0] == found.value;
      } else {
        NoProcMissed(buf, found.value.fileOffsetEnd, q);
        InsideMore(found.value, rest, q);
      }
    } else {
      NoProcMissed(buf, p + 1, q);
    }
  }

  lemma InsideMore(first: ProcedureRecord, rest: seq<ProcedureRecord>, q: nat)
    requires Inside(rest, q)
    ensures Inside([first] + rest, q)
  {
    var k :| 0 <= k < |rest| && rest[k].fileOffset <= q < rest[k].fileOffsetEnd;
    assert ([first] + rest)[k + 1] == rest[k];
  }

  // ----- Variables -----------------------------------------------------------------------------------

  /** Each variable is the one at its offset, starts outside every procedure, and ends before the next. */
  ghost predicate VarsOk(buf: bytes, procs: seq<ProcedureRecord>, vars: seq<Variable>, from: nat) {
    && (forall k | 0 <= k < |vars| ::
          && from <= vars[k].fileOffset && vars[k].fileOffset + 8 < |buf| && !Inside(procs, vars[k].fileOffset)
          && VarAt(buf, vars[k].fileOffset).Some? && VarAt(buf, vars[k].fileOffset).value.variable == vars[k])
    && (forall j, k | 0 <= j < k < |vars| :: VarAt(buf, vars[j].fileOffset).value.next <= vars[k].fileOffset)
  }

  /** No global variable starts inside a procedure, where the same tag marks a local. */
  lemma {:induction false} VariablesOutside(buf: bytes, procs: seq<ProcedureRecord>, i: nat)
    ensures VarsOk(buf, procs, Vars(buf, procs, i), i)
    decreases if i < |buf| then |buf| - i else 0
  {
    hide VarAt, Inside;
    if i + 8 < |buf| {
      if Inside(procs, i) || VarAt(buf, i).None? {
        VariablesOutside(buf, procs, i + 1);
      } else {
        VariablesOutside(buf, procs, VarAt(buf, i).value.next);
      }
    }
  }

  /** A variable record that starts outside every procedure is found, or an earlier one covers its start. */
  lemma {:induction false} NoVariableMissed(buf: bytes, procs: seq<ProcedureRecord>, i: nat, q: nat)
    requires i <= q && q + 8 < |buf| && VarAt(buf, q).Some? && !Inside(procs, q)
    ensures exists k | 0 <= k < |Vars(buf, procs, i)| ::
              var v := Vars(buf, procs, i)[k];
              v.fileOffset + 8 < |buf| && VarAt(buf, v.fileOffset).Some?
              && v.fileOffset <= q < VarAt(buf, v.fileOffset).value.next
    decreases q - i
  {
    hide VarAt, Inside;
    var vars := Vars(buf, procs, i);
    if Inside(procs, i) || VarAt(buf, i).None? {
      NoVariableMissed(buf, procs, i + 1, q);
    } else {
      var next := VarAt(buf, i).value.next;
      if q < next {
        assert vars[0].fileOffset <= q < VarAt(buf, vars[0].fileOffset).value.next;
      } else {
        NoVariableMissed(buf, procs, next, q);
        var rest := Vars(buf, procs, next);
        var k :| 0 <= k < |rest| && rest[k].fileOffset + 8 < |buf| && VarAt(buf, rest[k].fileOffset).Some?
                 && rest[k].fileOffset <= q < VarAt(buf, rest[k].fileOffset).value.next;
        assert vars[k + 1] == rest[k];
      }
    }
  }

  // ----- Writing procedure records ---------------------------------------------------------------------

  /** A sub-record and the undecoded bytes behind it. */
  datatype Entry = Entry(sub: Sub, pad: bytes)

  /** A procedure record as Delphi lays it out: `gap` is what precedes the address, `nibble` the unused low
      bits of the address, `trailer` the undecoded bytes in front of the sub-records. */
  datatype ProcSpec = ProcSpec(
    name: bytes, subtag: u8, second: u8, third: u8, gap: bytes, address: nat, nibble: nat, trailer: bytes,
    entries: seq<Entry>)

  /** Neither the tag of a sub-record nor the end marker. */
  predicate IsQuiet(b: u8) {
    b !in {0x20, 0x21, 0x22, 0x63}
  }

  predicate AllQuiet(s: bytes) {
    forall i | 0 <= i < |s| :: IsQuiet(s[i])
  }

  /** Padding no longer than the scan looks ahead; behind a new-style sub-record its first byte is the tag of a record
      of another kind. */
  predicate EntryOk(e: Entry) {
    && SubOk(e.sub) && Readable(e.sub) && |e.pad| < 1030 && AllQuiet(e.pad)
    && ((e.sub.ty.ByMarker? || e.sub.ty.ByHash?) && e.pad != [] ==> IsRecordTag(e.pad[0]))
  }

  predicate EntriesOk(es: seq<Entry>) {
    forall i | 0 <= i < |es| :: EntryOk(es[i])
  }

  predicate ProcOk(p: ProcSpec) {
    && 2 <= |p.name| <= 200 && IsName(p.name) && p.subtag in {0x20, 0x41, 0x80, 0xA0, 0xE0}
    && (p.subtag != 0x41 ==> p.second == 0 && p.third == 0)
    && |p.gap| == (if p.subtag == 0x20 then 0 else if p.subtag == 0x41 then 1 else 4)
    && p.nibble < 16 && 16 * p.address + p.nibble < 0x1_0000_0000
    && |p.trailer| < 96 && AllQuiet(p.trailer) && EntriesOk(p.entries)
  }

  function HeadBytes(p: ProcSpec): bytes
    requires ProcOk(p)
  {
    [0x28, |p.name|] + p.name + [p.subtag, p.second, p.third] + p.gap + Le(16 * p.address + p.nibble, 4)
  }

  function EntryBytes(e: Entry): bytes
    requires EntryOk(e)
  {
    SubBytes(e.sub) + e.pad
  }

  function EntriesBytes(es: seq<Entry>): bytes
    requires EntriesOk(es)
  {
    if es == [] then [] else EntryBytes(es[0]) + EntriesBytes(es[1..])
  }

  function ProcBytes(p: ProcSpec): bytes
    requires ProcOk(p)
  {
    HeadBytes(p) + p.trailer + EntriesBytes(p.entries) + [0x63]
  }

  /** What may follow a procedure record. */
  predicate Follows(post: bytes) {
    |post| >= 16 && post[0] in {0x28, 0x20, 0x2A, 0xFF, 0x9C}
  }

  function Positions(at: nat, es: seq<Entry>): seq<nat>
    requires EntriesOk(es)
    decreases |es|
  {
    if es == [] then [] else [at] + Positions(at + |EntryBytes(es[0])|, es[1..])
  }

  /** The variable for a sub-record. */
  function VariableOf(r: Sub, at: nat): Variable
    requires SubOk(r)
  {
    Variable(r.name, 0, r.offset.stored, if r.ty.ByHash? then r.ty.hash else 0, 0, if r.ty.ByMarker? then r.ty.marker else 0,
             r.ty.ByMarker?, false, at)
  }

  /** Sub-records with tag 0x20 are locals, the others parameters. */
  function VariablesOf(at: nat, es: seq<Entry>, locals: bool): seq<Variable>
    requires EntriesOk(es)
    decreases |es|
  {
    if es == [] then []
    else
      (if (es[0].sub.tag == 0x20) == locals then [VariableOf(es[0].sub, at)] else [])
      + VariablesOf(at + |EntryBytes(es[0])|, es[1..], locals)
  }

  function RecordOf(p: ProcSpec, at: nat): ProcedureRecord
    requires ProcOk(p)
  {
    var body := at + |HeadBytes(p)| + |p.trailer|;
    ProcedureRecord(p.name, p.address, VariablesOf(body, p.entries, false), VariablesOf(body, p.entries, true), at,
                    at + |ProcBytes(p)|, p.subtag == 0x41)
  }

  // ----- Reading them back -----------------------------------------------------------------------------

  /** The first sub-record parses as written, and so is taken by the walk. */
  lemma FirstSubReads(pre: bytes, es: seq<Entry>, post: bytes)
    requires EntriesOk(es) && es != [] && Follows(post)
    ensures var buf := pre + EntriesBytes(es) + ([0x63] + post);
            SubAt(buf, |pre|) == Some(Parsed(es[0].sub, |pre|)) && |pre| + |EntryBytes(es[0])| + 16 < |buf|
  {
    hide SubAt, Readable, SubOk, SubBytes, Parsed, EntriesBytes, IsRecordTag, AllQuiet;
    var r := es[0].sub;
    EntriesUnfold(es);
    var rest := EntriesBytes(es[1..]) + ([0x63] + post);
    var tail := es[0].pad + rest;
    assert pre + EntriesBytes(es) + ([0x63] + post) == pre + SubBytes(r) + tail;
    NextIsTag(es[1..], post);
    assert tail == [tail[0]] + tail[1..];
    assert tail[0] == if es[0].pad == [] then rest[0] else es[0].pad[0];
    SubReads(pre, r, tail[0], tail[1..]);
  }

  lemma EntriesUnfold(es: seq<Entry>)
    requires EntriesOk(es) && es != []
    ensures EntriesBytes(es) == SubBytes(es[0].sub) + es[0].pad + EntriesBytes(es[1..])
  {
    hide SubBytes, EntryOk;
  }

  lemma NextIsTag(es: seq<Entry>, post: bytes)
    requires EntriesOk(es) && Follows(post)
    ensures var tail := EntriesBytes(es) + ([0x63] + post); |tail| > 16 && IsRecordTag(tail[0])
  {
    hide Readable, AllQuiet;
    if es != [] {
      assert SubBytes(es[0].sub)[0] == es[0].sub.tag;
      assert EntryBytes(es[0])[0] == es[0].sub.tag;
    }
  }

  lemma StopFound(buf: bytes, from: nat, to: nat, t: nat, strict: bool)
    requires from <= t < to <= |buf| && StopsAt(buf, t, strict)
             && (forall k | from <= k < t :: !StopsAt(buf, k, strict))
    ensures FirstStop(buf, from, to, strict) == Some(t)
  {
    hide StopsAt;
  }

  lemma WalkTakes(buf: bytes, s: nat)
    requires s + 8 < |buf| && SubAt(buf, s).Some?
    ensures WalkStep(buf, s) == Take(s, s + SubAt(buf, s).value.totalSize)
  {
    hide SubAt, EndsAt;
    StopFound(buf, s, Cap(buf, s + 6), s, true);
  }

  lemma WalkStops(buf: bytes, s: nat)
    requires s + 8 < |buf| && EndsAt(buf, s)
    ensures WalkStep(buf, s) == Stop(s + 1)
  {
    hide SubAt;
    StopFound(buf, s, Cap(buf, s + 6), s, true);
  }

  lemma EndPlaced(pre: bytes, post: bytes)
    requires Follows(post)
    ensures EndsAt(pre + ([0x63] + post), |pre|)
  {
  }

  lemma QuietStop(buf: bytes, t: nat, strict: bool)
    requires t < |buf| && IsQuiet(buf[t])
    ensures !StopsAt(buf, t, strict) && !IsSubTag(buf[t]) && buf[t] != END_MARKER
  {
    hide SubAt;
  }

  lemma QuietStops(buf: bytes, from: nat, to: nat, strict: bool)
    requires from <= to <= |buf| && AllQuiet(buf[from..to])
    ensures forall k | from <= k < to :: !StopsAt(buf, k, strict)
  {
    hide StopsAt, IsQuiet, IsSubTag;
    forall k | from <= k < to ensures !StopsAt(buf, k, strict) {
      assert buf[k] == buf[from..to][k - from];
      QuietStop(buf, k, strict);
    }
  }

  lemma NoStop(buf: bytes, from: nat, to: nat, strict: bool)
    requires to <= |buf| && forall k | from <= k < to :: !StopsAt(buf, k, strict)
    ensures FirstStop(buf, from, to, strict) == None
  {
    hide StopsAt;
  }

  /** Padding in front of a stop is passed over: by the anchor if it is short, by the wider scan otherwise. */
  lemma PadSkipped(buf: bytes, s: nat, n: nat)
    requires n < 1030 && s + n + 16 < |buf| && AllQuiet(buf[s..s + n]) && StopsAt(buf, s + n, true)
    ensures WalkFrom(buf, s) == WalkFrom(buf, s + n)
  {
    hide StopsAt, AllQuiet, FirstStop, EndsAt, IsSubTag;
    QuietStops(buf, s, s + n, true);
    if n <= 6 {
      ShortPad(buf, s, n);
    } else {
      StrictStop(buf, s + n);
      LongPad(buf, s, n);
    }
  }

  lemma TailQuiet(buf: bytes, s: nat, n: nat)
    requires 6 < n && s + n <= |buf| && AllQuiet(buf[s..s + n])
    ensures AllQuiet(buf[s + 7..s + n]) && IsQuiet(buf[s + 6])
  {
    hide IsQuiet;
    assert buf[s + 6] == buf[s..s + n][6];
    assert buf[s + 7..s + n] == buf[s..s + n][7..];
  }

  lemma ShortPad(buf: bytes, s: nat, n: nat)
    requires n <= 6 && s + n + 16 < |buf| && StopsAt(buf, s + n, true)
    requires forall k | s <= k < s + n :: !StopsAt(buf, k, true)
    ensures WalkFrom(buf, s) == WalkFrom(buf, s + n)
  {
    hide *;
    assert Reanchored(buf, s) == Reanchored(buf, s + n) by { ShortAnchor(buf, s, n); }
    SameAnchor(buf, s, s + n);
    SameStep(buf, s, s + n);
  }

  lemma ShortAnchor(buf: bytes, s: nat, n: nat)
    requires n <= 6 && s + n + 16 < |buf| && StopsAt(buf, s + n, true)
    requires forall k | s <= k < s + n :: !StopsAt(buf, k, true)
    ensures Reanchored(buf, s) == Reanchored(buf, s + n) == s + n
  {
    hide StopsAt, FirstStop;
    StopFound(buf, s + n, Cap(buf, s + n + 6), s + n, true);
    if n < 6 {
      StopFound(buf, s, Cap(buf, s + 6), s + n, true);
    } else {
      NoStop(buf, s, Cap(buf, s + 6), true);
    }
  }

  lemma SameAnchor(buf: bytes, s: nat, t: nat)
    requires s + 8 < |buf| && t + 8 < |buf| && Reanchored(buf, s) == Reanchored(buf, t) >= t >= s
    ensures WalkStep(buf, s) == WalkStep(buf, t)
  {
    hide Reanchored, SubAt, FirstStop, IsSubTag;
  }

  lemma SameStep(buf: bytes, s: nat, t: nat)
    requires s + 8 < |buf| && t + 8 < |buf| && WalkStep(buf, s) == WalkStep(buf, t)
    ensures WalkFrom(buf, s) == WalkFrom(buf, t)
  {
    hide WalkStep, SubAt;
  }

  /** After six bytes the walk looks for the next sub-record, or for any end marker, whatever follows it. */
  lemma LongPad(buf: bytes, s: nat, n: nat)
    requires 6 < n < 1030 && s + n + 16 < |buf| && AllQuiet(buf[s..s + n])
    requires SubAt(buf, s + n).Some? || buf[s + n] == 0x63
    ensures WalkFrom(buf, s) == WalkFrom(buf, s + n)
  {
    hide StopsAt, FirstStop, IsSubTag, SubAt, AllQuiet, EndsAt;
    QuietStops(buf, s, s + n, true);
    NoStop(buf, s, Cap(buf, s + 6), true);
    assert Reanchored(buf, s) == s + 6;
    TailQuiet(buf, s, n);
    QuietStop(buf, s + 6, true);
    QuietStops(buf, s + 7, s + n, false);
    assert StopsAt(buf, s + n, false) by { LooseStop(buf, s + n); }
    StopFound(buf, s + 7, Cap(buf, s + 6 + 1024), s + n, false);
    assert WalkStep(buf, s) == Skip(s + n);
  }

  /** The tag of a sub-record without a sub-record, six bytes behind the last one, ends the walk. */
  lemma BadSubEnds(buf: bytes, s: nat)
    requires s + 14 < |buf| && AllQuiet(buf[s..s + 6]) && buf[s + 6] in {0x20, 0x21, 0x22} && SubAt(buf, s + 6).None?
    ensures WalkFrom(buf, s) == Walk(s + 6, [])
  {
    hide StopsAt, FirstStop, SubAt, AllQuiet, EndsAt;
    QuietStops(buf, s, s + 6, true);
    NoStop(buf, s, Cap(buf, s + 6), true);
    assert Reanchored(buf, s) == s + 6;
    assert WalkStep(buf, s) == Stop(s + 6);
  }

  /** One byte more and the walk gives up, six bytes in: whatever is behind is not read. */
  lemma PadTooLong(buf: bytes, s: nat)
    requires s + 1030 + 8 < |buf| && AllQuiet(buf[s..s + 1030])
    ensures WalkFrom(buf, s) == Walk(s + 6, [])
  {
    hide StopsAt, AllQuiet, FirstStop, IsSubTag, SubAt, EndsAt;
    QuietStops(buf, s, s + 1030, true);
    NoStop(buf, s, Cap(buf, s + 6), true);
    assert Reanchored(buf, s) == s + 6;
    TailQuiet(buf, s, 1030);
    QuietStop(buf, s + 6, true);
    QuietStops(buf, s + 7, s + 1030, false);
    NoStop(buf, s + 7, Cap(buf, s + 6 + 1024), false);
    assert WalkStep(buf, s) == Stop(s + 6);
  }

  lemma LooseStop(buf: bytes, t: nat)
    requires t < |buf| && (SubAt(buf, t).Some? || buf[t] == 0x63)
    ensures StopsAt(buf, t, false)
  {
    hide SubAt;
  }

  lemma StrictStop(buf: bytes, t: nat)
    requires t < |buf| && StopsAt(buf, t, true)
    ensures SubAt(buf, t).Some? || buf[t] == 0x63
  {
    hide SubAt;
  }

  lemma WalkOne(buf: bytes, s: nat)
    requires s + 8 < |buf| && SubAt(buf, s).Some?
    ensures var w := WalkFrom(buf, s + SubAt(buf, s).value.totalSize);
            WalkFrom(buf, s) == Walk(w.end, [s] + w.subs)
  {
    hide SubAt, WalkStep;
    WalkTakes(buf, s);
  }

  /** The walk takes a sub-record and goes on behind the padding. */
  lemma EntryWalked(buf: bytes, s: nat, at: nat, n: nat)
    requires s + 8 < |buf| && SubAt(buf, s).Some? && at == s + SubAt(buf, s).value.totalSize
    requires n < 1030 && at + n + 16 < |buf| && AllQuiet(buf[at..at + n]) && StopsAt(buf, at + n, true)
    ensures var w := WalkFrom(buf, at + n); WalkFrom(buf, s) == Walk(w.end, [s] + w.subs)
  {
    hide *;
    WalkOne(buf, s);
    PadSkipped(buf, at, n);
  }

  lemma {:induction false} WalkRoundTrip(pre: bytes, es: seq<Entry>, post: bytes)
    requires EntriesOk(es) && Follows(post)
    ensures var buf := pre + EntriesBytes(es) + ([0x63] + post);
            WalkFrom(buf, |pre|) == Walk(|pre| + |EntriesBytes(es)| + 1, Positions(|pre|, es))
    decreases |es|
  {
    hide SubAt, WalkStep, EndsAt, SubBytes, Parsed, Readable, SubOk, AllQuiet, StopsAt, IsRecordTag;
    var buf := pre + EntriesBytes(es) + ([0x63] + post);
    if es == [] {
      assert buf == pre + ([0x63] + post);
      EndPlaced(pre, post);
      assert |post| >= 16;
      WalkStops(buf, |pre|);
    } else {
      hide WalkFrom, Follows;
      var here := pre + EntryBytes(es[0]);
      assert buf == here + EntriesBytes(es[1..]) + ([0x63] + post);
      var at, n := EntryRead(pre, es, post, buf);
      EntryWalked(buf, |pre|, at, n);
      WalkRoundTrip(here, es[1..], post);
    }
  }

  lemma EntryPlaced(pre: bytes, e: Entry, rest: bytes, tail: bytes)
    requires EntryOk(e)
    ensures pre + (EntryBytes(e) + rest) + tail == pre + EntryBytes(e) + rest + tail
    ensures var at, next := |pre| + |SubBytes(e.sub)|, |pre| + |EntryBytes(e)|;
            next == at + |e.pad| && (pre + EntryBytes(e) + rest + tail)[at..next] == e.pad
  {
    hide SubBytes, EntryOk;
  }

  /** The first sub-record, the padding behind it and what stands there, by position. */
  lemma EntryRead(pre: bytes, es: seq<Entry>, post: bytes, buf: bytes) returns (at: nat, n: nat)
    requires EntriesOk(es) && es != [] && Follows(post) && buf == pre + EntriesBytes(es) + ([0x63] + post)
    ensures SubAt(buf, |pre|).Some? && at == |pre| + SubAt(buf, |pre|).value.totalSize
    ensures at + n == |pre| + |EntryBytes(es[0])| && n < 1030 && at + n + 16 < |buf|
    ensures AllQuiet(buf[at..at + n]) && StopsAt(buf, at + n, true)
  {
    hide SubAt, SubBytes, Parsed, Readable, SubOk, AllQuiet, StopsAt, EndsAt, Follows, IsRecordTag, EntryBytes;
    FirstSubReads(pre, es, post);
    ParsedSize(es[0].sub, |pre|);
    var rest := EntriesBytes(es[1..]);
    EntryPlaced(pre, es[0], rest, [0x63] + post);
    BodyStops(pre + EntryBytes(es[0]), es[1..], post, buf);
    at, n := |pre| + |SubBytes(es[0].sub)|, |es[0].pad|;
  }

  lemma ParsedSize(r: Sub, s: nat)
    requires SubOk(r)
    ensures Parsed(r, s).totalSize == |SubBytes(r)|
  {
    hide SubBytes, SubOk;
  }

  lemma {:induction false} SelectedFirst(buf: bytes, at: nat, rest: seq<nat>, locals: bool)
    requires SubAt(buf, at).Some?
    ensures Selected(buf, [at] + rest, locals)
            == (if (buf[at] == TAG_VARIABLE) == locals then [SubVariable(buf, at)] else []) + Selected(buf, rest, locals)
    decreases |rest|
  {
    hide SubAt, SubVariable;
    if rest == [] {
      assert [at] + rest == [] + [at];
      SelectNext(buf, [], at, SubVariable(buf, at));
      NoneSelected(buf);
    } else {
      SelectedFirst(buf, at, rest[..|rest| - 1], locals);
      assert ([at] + rest)[..|rest|] == [at] + rest[..|rest| - 1];
    }
  }

  /** The variables come out with the written names, offsets and type references. */
  lemma {:induction false} SelectedRoundTrip(pre: bytes, es: seq<Entry>, post: bytes, locals: bool)
    requires EntriesOk(es) && Follows(post)
    ensures var buf := pre + EntriesBytes(es) + ([0x63] + post);
            Selected(buf, Positions(|pre|, es), locals) == VariablesOf(|pre|, es, locals)
    decreases |es|
  {
    hide SubAt, SubVariable, EndsAt, SubBytes, Parsed, Readable, SubOk, AllQuiet, Follows;
    var buf := pre + EntriesBytes(es) + ([0x63] + post);
    if es != [] {
      FirstSubReads(pre, es, post);
      var here := pre + EntryBytes(es[0]);
      var tail := es[0].pad + (EntriesBytes(es[1..]) + ([0x63] + post));
      assert buf == here + EntriesBytes(es[1..]) + ([0x63] + post);
      assert buf == pre + SubBytes(es[0].sub) + tail;
      VariableReads(pre, es[0].sub, tail);
      SelectedFirst(buf, |pre|, Positions(|here|, es[1..]), locals);
      SelectedRoundTrip(here, es[1..], post, locals);
    } else {
      NoneSelected(buf);
    }
  }

  lemma VariableReads(pre: bytes, r: Sub, tail: bytes)
    requires SubOk(r) && SubAt(pre + SubBytes(r) + tail, |pre|) == Some(Parsed(r, |pre|))
    ensures SubVariable(pre + SubBytes(r) + tail, |pre|) == VariableOf(r, |pre|)
    ensures (pre + SubBytes(r) + tail)[|pre|] == r.tag
  {
    hide SubAt, TypeBytes, OffsetBytes;
    var buf := pre + SubBytes(r) + tail;
    var body := TypeBytes(r.ty) + OffsetBytes(r.offset) + tail;
    assert buf == (pre + [r.tag, |r.name|]) + (r.name + body);
    assert buf[|pre| + 2..|pre| + 2 + |r.name|] == r.name;
  }

  // ----- What the variables tell of the type ---------------------------------------------------------------

  /** New-style references other than hash 0. */
  predicate TypeKept(ty: TypeRef) {
    ty.ByMarker? || (ty.ByHash? && ty.hash != 0)
  }

  /** The variable determines the type reference it was read from exactly if that is a marker or a nonzero hash of
      a new-style record: all others leave the same nothing. */
  lemma TypeKeptIff(r: Sub, at: nat)
    requires SubOk(r) && Readable(r)
    ensures TypeKept(r.ty)
            <==> forall q | SubOk(q) && Readable(q) && VariableOf(q, at) == VariableOf(r, at) :: q.ty == r.ty
  {
    hide IsName, OffsetOk;
    if !TypeKept(r.ty) {
      var q := r.(ty := Old(0x21, if r.ty == Old(0x21, 0) then 2 else 0));
      assert SubOk(q) && Readable(q) && VariableOf(q, at) == VariableOf(r, at) && q.ty != r.ty;
    }
  }

  /** Two old-style parameters of different types, which read as the same variable. */
  lemma OldTypeLost(next: u8, post: bytes)
    requires IsRecordTag(next)
    ensures var p := Sub(0x21, [0x41], Old(0x21, 2), Short(0));
            var q := Sub(0x21, [0x41], Old(0x21, 4), Short(0));
            && SubOk(p) && SubOk(q) && SubBytes(p) != SubBytes(q)
            && var x, y := SubBytes(p) + ([next] + post), SubBytes(q) + ([next] + post);
               SubAt(x, 0).Some? && SubAt(y, 0).Some? && SubVariable(x, 0) == SubVariable(y, 0)
  {
    var p := Sub(0x21, [0x41], Old(0x21, 2), Short(0));
    var q := Sub(0x21, [0x41], Old(0x21, 4), Short(0));
    assert SubBytes(p)[6] == 2 && SubBytes(q)[6] == 4;
    hide SubAt, SubVariable, SubBytes, IsRecordTag;
    WrittenVariable(p, next, post);
    WrittenVariable(q, next, post);
  }

  lemma WrittenVariable(r: Sub, next: u8, post: bytes)
    requires SubOk(r) && Readable(r) && IsRecordTag(next)
    ensures var x := SubBytes(r) + ([next] + post); SubAt(x, 0).Some? && SubVariable(x, 0) == VariableOf(r, 0)
  {
    hide SubAt, SubVariable, SubBytes, IsRecordTag, Readable, SubOk, Parsed, VariableOf;
    assert [] + SubBytes(r) + ([next] + post) == SubBytes(r) + ([next] + post);
    SubRoundTrip([], r, next, post);
    VariableReads([], r, [next] + post);
  }

  // ----- Whole records -----------------------------------------------------------------------------------

  /** The bytes of a head, by position. */
  lemma HeadParts(p: ProcSpec)
    requires ProcOk(p)
    ensures var h, head, n := HeadBytes(p), 2 + |p.name|, |p.gap|;
            && |h| == head + n + 7 && h[0] == 0x28 && h[1] == |p.name| && h[2..head] == p.name
            && h[head] == p.subtag && h[head + 1] == p.second && h[head + 2] == p.third
            && h[head + 3 + n..head + 7 + n] == Le(16 * p.address + p.nibble, 4)
  {
    assert |p.name| <= 200;
    hide Le, ProcOk;
    var tag: bytes, three: bytes := [0x28, |p.name|], [p.subtag, p.second, p.third];
    var word := Le(16 * p.address + p.nibble, 4);
    var front, h := tag + p.name, HeadBytes(p);
    assert h == front + three + p.gap + word;
    FourParts(front, three, p.gap, word);
    assert h[|front| + 0] == three[0] && h[|front| + 1] == three[1] && h[|front| + 2] == three[2];
    assert h[0] == front[0] && h[1] == front[1] && h[2..|front|] == front[2..];
  }

  lemma FourParts(a: bytes, b: bytes, c: bytes, d: bytes)
    ensures var h := a + b + c + d;
            && h[..|a|] == a && (forall k | 0 <= k < |b| :: h[|a| + k] == b[k])
            && h[|a| + |b| + |c|..|a| + |b| + |c| + |d|] == d
  {
  }

  lemma Sliced(a: bytes, b: bytes, c: bytes)
    ensures (a + b + c)[|a|..|a| + |b|] == b
  {
  }

  lemma WithinSlice(buf: bytes, at: nat, h: bytes, i: nat, j: nat)
    requires at + |h| <= |buf| && buf[at..at + |h|] == h && i <= j <= |h|
    ensures buf[at + i..at + j] == h[i..j]
    ensures i < |h| ==> buf[at + i] == h[i]
  {
    SubRange(buf, at, at + |h|, i, j);
    assert i < |h| ==> buf[at + i] == buf[at..at + |h|][i];
  }

  /** The head of the record stands at `p`, and the buffer goes on far enough. */
  predicate HeadStands(buf: bytes, p: nat, spec: ProcSpec) {
    && ProcOk(spec) && p + 16 + |spec.name| < |buf|
    && p + |HeadBytes(spec)| <= |buf| && buf[p..p + |HeadBytes(spec)|] == HeadBytes(spec)
  }

  /** The parts of the head in the buffer. */
  lemma HeadStandsParts(buf: bytes, at: nat, p: ProcSpec)
    requires HeadStands(buf, at, p)
    ensures var head, n := at + 2 + |p.name|, |p.gap|;
            && at + |HeadBytes(p)| == head + n + 7 && buf[at] == 0x28 && buf[at + 1] == |p.name| && buf[at + 2..head] == p.name
            && buf[head] == p.subtag && buf[head + 1] == p.second && buf[head + 2] == p.third
            && head + n + 7 <= |buf| && buf[head + n + 3..head + n + 7] == Le(16 * p.address + p.nibble, 4)
  {
    hide Le, FromLe, ProcOk, HeadBytes;
    HeadParts(p);
    var h, head, n := HeadBytes(p), 2 + |p.name|, |p.gap|;
    WithinSlice(buf, at, h, 0, 0);
    WithinSlice(buf, at, h, 1, 1);
    WithinSlice(buf, at, h, 2, head);
    WithinSlice(buf, at, h, head, head);
    WithinSlice(buf, at, h, head + 1, head + 1);
    WithinSlice(buf, at, h, head + 2, head + 2);
    WithinSlice(buf, at, h, head + 3 + n, head + 7 + n);
  }

  lemma HeadReads(buf: bytes, at: nat, p: ProcSpec)
    requires HeadStands(buf, at, p)
    ensures HeadAt(buf, at) == Some(Head(p.name, p.address, p.subtag == 0x41, at + |HeadBytes(p)|))
  {
    hide Le, FromLe, IsName, EntriesOk, AllQuiet, HeadBytes;
    HeadStandsParts(buf, at, p);
    WordReads(16 * p.address + p.nibble);
    NibbleDropped(p.address, p.nibble);
  }

  /** Nothing else is taken for a head: one that is read was written so. */
  lemma HeadWritten(buf: bytes, p: nat) returns (spec: ProcSpec)
    requires p + 16 < |buf| && HeadAt(buf, p).Some?
    ensures HeadStands(buf, p, spec)
    ensures spec.name == HeadAt(buf, p).value.name && spec.address == HeadAt(buf, p).value.address
    ensures (spec.subtag == 0x41) == HeadAt(buf, p).value.nested && |HeadBytes(spec)| == HeadAt(buf, p).value.scanFrom - p
  {
    hide Le, FromLe, IsName;
    var head := p + 2 + buf[p + 1];
    var at := head + AddressGap(buf[head]);
    var w := FromLe(buf[at..at + 4]);
    WordWritten(buf[at..at + 4]);
    spec := ProcSpec(buf[p + 2..head], buf[head], buf[head + 1], buf[head + 2], buf[head + 3..at], w / 16, w % 16, [], []);
    hide HeadAt;
    HeadPieces(buf, p, head, at);
    assert buf[p..p + 2] == [0x28, |spec.name|];
    assert buf[head..head + 3] == [spec.subtag, spec.second, spec.third];
  }

  lemma HeadPieces(buf: bytes, p: nat, head: nat, at: nat)
    requires p + 2 <= head && head + 3 <= at && at + 4 <= |buf|
    ensures buf[p..at + 4] == buf[p..p + 2] + buf[p + 2..head] + buf[head..head + 3] + buf[head + 3..at] + buf[at..at + 4]
  {
  }

  lemma WordWritten(b: bytes)
    requires |b| == 4
    ensures FromLe(b) < 0x1_0000_0000 && Le(FromLe(b), 4) == b
  {
    FromLeBound(b);
    Pow256Values();
    LeOfFromLe(b);
  }

  lemma {:induction false} LeOfFromLe(b: bytes)
    ensures Le(FromLe(b), |b|) == b
  {
    if b != [] {
      LeOfFromLe(b[1..]);
      assert b == [b[0]] + b[1..];
      ByteSplit(b[0], FromLe(b[1..]));
    }
  }

  lemma ByteSplit(b: u8, v: nat)
    ensures (b + 256 * v) % 256 == b && (b + 256 * v) / 256 == v
  {
  }

  /** A head is recognised exactly where one stands: tag, a name of 2 to 200 name characters, one of the five sub-tags
      with its zeros, and the address. */
  lemma HeadIff(buf: bytes, p: nat)
    requires p + 16 < |buf|
    ensures HeadAt(buf, p).Some? <==> exists spec :: HeadStands(buf, p, spec)
  {
    hide HeadAt, HeadStands;
    if HeadAt(buf, p).Some? {
      var spec := HeadWritten(buf, p);
    }
    if exists spec :: HeadStands(buf, p, spec) {
      var spec :| HeadStands(buf, p, spec);
      HeadReads(buf, p, spec);
    }
  }

  /** An end marker in front of something that may follow a record, or a whole sub-record. */
  predicate BodyStarts(buf: bytes, t: nat) {
    t + 8 < |buf| && (SubAt(buf, t).Some? || (buf[t] == 0x63 && buf[t + 1] in {0x28, 0x20, 0x2A, 0xFF, 0x9C}))
  }

  /** A procedure record is where a head stands and its body, or its end, starts within the next 96 bytes. */
  lemma ProcIff(buf: bytes, p: nat)
    requires p + 16 < |buf|
    ensures ProcAt(buf, p).Some?
            <==> HeadAt(buf, p).Some? && var from := HeadAt(buf, p).value.scanFrom;
                                         exists t :: from <= t < from + 96 && BodyStarts(buf, t)
  {
    hide HeadAt, SubAt, WalkFrom, Selected;
    if HeadAt(buf, p).Some? {
      var from := HeadAt(buf, p).value.scanFrom;
      forall t | from <= t < Cap(buf, from + 96) ensures StopsAt(buf, t, true) <==> BodyStarts(buf, t) {
      }
      assert forall t :: from <= t < from + 96 && BodyStarts(buf, t) ==> t < Cap(buf, from + 96);
    }
  }

  lemma NibbleDropped(address: nat, nibble: nat)
    requires nibble < 16
    ensures (16 * address + nibble) / 16 == address
  {
  }

  lemma WordReads(v: nat)
    requires v < 0x1_0000_0000
    ensures FromLe(Le(v, 4)) == v
  {
    hide Le, FromLe;
    LeRoundTrip(v, 4);
    Pow256Values();
    SmallMod(v, Pow256(4));
  }

  lemma HeadPlaced(pre: bytes, p: ProcSpec, post: bytes, buf: bytes)
    requires ProcOk(p) && |post| >= 17 && buf == pre + HeadBytes(p) + post
    ensures |pre| + 16 < |buf| && HeadStands(buf, |pre|, p)
  {
    hide Le, IsName, EntriesOk, IsQuiet;
    HeadParts(p);
    Sliced(pre, HeadBytes(p), post);
  }

  /** A written procedure record is read back whole, wherever it stands. */
  lemma ProcRoundTrip(pre: bytes, p: ProcSpec, post: bytes)
    requires ProcOk(p) && Follows(post)
    ensures var buf := pre + ProcBytes(p) + post;
            |pre| + 16 < |buf| && ProcAt(buf, |pre|) == Some(RecordOf(p, |pre|))
  {
    hide SubAt, EndsAt, HeadBytes, EntriesBytes, HeadAt, WalkFrom, FirstStop, IsQuiet, VariablesOf, Positions, Selected,
         StopsAt, IsName, EntriesOk, AllQuiet;
    var buf := pre + ProcBytes(p) + post;
    var tail := [0x63] + post;
    assert buf == pre + HeadBytes(p) + (p.trailer + (EntriesBytes(p.entries) + tail));
    assert |post| >= 16;
    HeadPlaced(pre, p, p.trailer + (EntriesBytes(p.entries) + tail), buf);
    HeadReads(buf, |pre|, p);
    var from := |pre| + |HeadBytes(p)|;
    var body := pre + HeadBytes(p) + p.trailer;
    assert buf == body + EntriesBytes(p.entries) + tail;
    TrailerQuiet(pre + HeadBytes(p), p, EntriesBytes(p.entries) + tail, buf);
    BodyStops(body, p.entries, post, buf);
    StopFound(buf, from, Cap(buf, from + 96), |body|, true);
    WalkRoundTrip(body, p.entries, post);
    SelectedRoundTrip(body, p.entries, post, false);
    SelectedRoundTrip(body, p.entries, post, true);
    NoSubs(|body|, p.entries);
  }

  lemma NoSubs(at: nat, es: seq<Entry>)
    requires EntriesOk(es)
    ensures es == [] ==> |EntriesBytes(es)| == 0 && VariablesOf(at, es, false) == [] && VariablesOf(at, es, true) == []
  {
    hide Readable;
  }

  lemma TrailerQuiet(pre: bytes, p: ProcSpec, rest: bytes, buf: bytes)
    requires ProcOk(p) && buf == pre + p.trailer + rest
    ensures forall k | |pre| <= k < |pre + p.trailer| :: !StopsAt(buf, k, true)
  {
    hide SubAt, EndsAt, IsQuiet, StopsAt, EntriesOk, IsName;
    forall k | |pre| <= k < |pre + p.trailer| ensures !StopsAt(buf, k, true) {
      assert buf[k] == p.trailer[k - |pre|];
      QuietStop(buf, k, true);
    }
  }

  lemma BodyStops(body: bytes, es: seq<Entry>, post: bytes, buf: bytes)
    requires EntriesOk(es) && Follows(post) && buf == body + EntriesBytes(es) + ([0x63] + post)
    ensures |body| + 8 < |buf| && StopsAt(buf, |body|, true) && (es == [] <==> EndsAt(buf, |body|))
  {
    hide SubAt, EndsAt;
    assert |post| >= 16;
    if es == [] {
      assert buf == body + ([0x63] + post);
      EndPlaced(body, post);
    } else {
      FirstSubReads(body, es, post);
      SubTagEndsNot(buf, |body|);
    }
  }

  // ----- Streams of records --------------------------------------------------------------------------------

  predicate AllProcsOk(ps: seq<ProcSpec>) {
    forall i | 0 <= i < |ps| :: ProcOk(ps[i])
  }

  function StreamBytes(ps: seq<ProcSpec>): bytes
    requires AllProcsOk(ps)
  {
    if ps == [] then [] else ProcBytes(ps[0]) + StreamBytes(ps[1..])
  }

  function RecordsOf(ps: seq<ProcSpec>, at: nat): seq<ProcedureRecord>
    requires AllProcsOk(ps)
    decreases |ps|
  {
    if ps == [] then [] else [RecordOf(ps[0], at)] + RecordsOf(ps[1..], at + |ProcBytes(ps[0])|)
  }

  lemma StreamFollows(ps: seq<ProcSpec>, post: bytes)
    requires AllProcsOk(ps) && Follows(post)
    ensures Follows(StreamBytes(ps) + post)
  {
    hide EntriesOk, EntriesBytes, Le, IsName;
    if ps != [] {
      assert HeadBytes(ps[0])[0] == 0x28;
      assert ProcBytes(ps[0])[0] == 0x28;
      assert StreamBytes(ps)[0] == 0x28;
    }
  }

  /** The scan of any number of procedure records, one behind the other, finds exactly them, and goes on behind. */
  lemma {:induction false} StreamRoundTrip(pre: bytes, ps: seq<ProcSpec>, post: bytes)
    requires AllProcsOk(ps) && Follows(post)
    ensures var buf := pre + StreamBytes(ps) + post;
            Procs(buf, |pre|) == RecordsOf(ps, |pre|) + Procs(buf, |pre| + |StreamBytes(ps)|)
    decreases |ps|
  {
    hide ProcAt, ProcBytes, RecordOf, ProcOk, Follows;
    if ps == [] {
      assert RecordsOf(ps, |pre|) == [];
    } else {
      var here := pre + ProcBytes(ps[0]);
      var rest := StreamBytes(ps[1..]);
      var buf := pre + StreamBytes(ps) + post;
      assert buf == pre + ProcBytes(ps[0]) + (rest + post);
      assert buf == here + rest + post;
      StreamFollows(ps[1..], post);
      ProcRoundTrip(pre, ps[0], rest + post);
      RecordEnd(ps[0], |pre|);
      StreamRoundTrip(here, ps[1..], post);
    }
  }

  lemma RecordEnd(p: ProcSpec, at: nat)
    requires ProcOk(p)
    ensures RecordOf(p, at).fileOffsetEnd == at + |ProcBytes(p)|
  {
    hide ProcBytes, VariablesOf, HeadBytes;
  }
}
