/** The `.debug_line` writer: compiles a unit's line table to a DWARF v5 line-number program. */
module LineWriter {
  import opened Bytes
  import opened DwarfForms
  import opened LineReader
  import opened Model

  // ----- Sorting -------------------------------------------------------------------

  predicate SortedByAddress(es: seq<LineEntry>) {
    forall i, j :: 0 <= i < j < |es| ==> es[i].address <= es[j].address
  }

  /** All that an unstable sort promises. */
  predicate IsSortOf(sorted: seq<LineEntry>, es: seq<LineEntry>) {
    multiset(sorted) == multiset(es) && SortedByAddress(sorted)
  }

  lemma InsertedInOrder(a: seq<LineEntry>, e: LineEntry, b: seq<LineEntry>)
    requires SortedByAddress(a + b)
    requires a != [] ==> a[|a| - 1].address <= e.address
    requires b != [] ==> e.address <= b[0].address
    ensures SortedByAddress(a + [e] + b)
  {
    var s, r := a + b, a + [e] + b;
    forall i, j | 0 <= i < j < |r| ensures r[i].address <= r[j].address {
      if j < |a| {
        assert s[i].address <= s[j].address;
      } else if i > |a| {
        assert s[i - 1].address <= s[j - 1].address;
      } else {
        assert i < |a| ==> s[i].address <= s[|a| - 1].address || i == |a| - 1;
        assert j > |a| ==> s[|a|].address <= s[j - 1].address || j == |a| + 1;
        assert i < |a| ==> r[i] == s[i];
        assert j > |a| ==> r[j] == s[j - 1];
      }
    }
  }

  lemma Inserted(es: seq<LineEntry>, sorted: seq<LineEntry>, k: nat, e: LineEntry)
    requires IsSortOf(sorted, es) && k <= |sorted|
    requires k > 0 ==> sorted[k - 1].address <= e.address
    requires k < |sorted| ==> e.address <= sorted[k].address
    ensures IsSortOf(sorted[..k] + [e] + sorted[k..], es + [e])
  {
    assert sorted == sorted[..k] + sorted[k..];
    InsertedInOrder(sorted[..k], e, sorted[k..]);
  }

  lemma NothingSorted(es: seq<LineEntry>)
    requires es == []
    ensures IsSortOf([], es)
  {
  }

  lemma SortIsSorted(sorted: seq<LineEntry>, es: seq<LineEntry>)
    requires IsSortOf(sorted, es)
    ensures SortedByAddress(sorted)
  {
  }

  method Sort(es: seq<LineEntry>) returns (sorted: seq<LineEntry>)
    ensures IsSortOf(sorted, es)
  {
    hide IsSortOf;
    sorted := [];
    NothingSorted(es[..0]);
    for i := 0 to |es|
      invariant IsSortOf(sorted, es[..i])
    {
      var k := |sorted|;
      while k > 0 && sorted[k - 1].address > es[i].address
        invariant 0 <= k <= |sorted|
        invariant k < |sorted| ==> es[i].address <= sorted[k].address
      {
        k := k - 1;
      }
      Inserted(es[..i], sorted, k, es[i]);
      sorted := sorted[..k] + [es[i]] + sorted[k..];
      assert es[..i + 1] == es[..i] + [es[i]];
    }
    assert es[..|es|] == es;
  }

  // ----- What the machine does on each piece of an emitted program -------------------

  /** Running `piece` and whatever follows it, from `a`, is running what follows from `b`. */
  ghost predicate Leads(h: LineHeader, piece: bytes, a: Machine, b: Machine) {
    forall rest: bytes :: Run(h, piece + rest, a) == Run(h, rest, b)
  }

  lemma LeadsThrough(h: LineHeader, p: bytes, q: bytes, a: Machine, b: Machine, c: Machine)
    requires Leads(h, p, a, b) && Leads(h, q, b, c)
    ensures Leads(h, p + q, a, c)
  {
    hide Run;
    forall rest: bytes ensures Run(h, p + q + rest, a) == Run(h, rest, c) {
      assert p + q + rest == p + (q + rest);
      assert Run(h, q + rest, b) == Run(h, rest, c);
    }
  }

  lemma LeadsNowhere(h: LineHeader, a: Machine)
    ensures Leads(h, [], a, a)
  {
    hide Run;
    forall rest: bytes ensures Run(h, [] + rest, a) == Run(h, rest, a) {
      assert [] + rest == rest;
    }
  }

  const OPERAND_COUNTS: seq<nat> := [0, 1, 1, 1, 1, 0, 0, 0, 1, 0, 0, 1]

  function HeaderFor(split: PathSplit): LineHeader {
    LineHeader(1, 1, true, -5, 14, 13, OPERAND_COUNTS,
               EntryTable([LNCT_PATH], [[Text(split.dir)]]),
               EntryTable([LNCT_PATH, LNCT_DIRECTORY_INDEX], [[Text(split.file), Data1(0)]]))
  }

  lemma StandardStep(h: LineHeader, op: u8, operands: bytes, rest: bytes, m: Machine, m1: Machine)
    requires 0 < op < h.opcodeBase
    requires StandardOpcode(h, op, operands + rest, m) == Got(m1, rest)
    ensures Run(h, [op] + operands + rest, m) == Run(h, rest, m1)
  {
    hide StandardOpcode;
    var s := [op] + operands + rest;
    assert s[1..] == operands + rest;
  }

  lemma ExtendedStep(h: LineHeader, body: bytes, rest: bytes, m: Machine)
    requires 0 < h.opcodeBase && body != [] && ExtendedOpcode(h, body, m).Some?
    ensures Run(h, [0] + Uleb(|body|) + body + rest, m) == Run(h, rest, ExtendedOpcode(h, body, m).value)
  {
    hide ExtendedOpcode, Uleb, ReadBlock, StandardOpcode;
    var s := [0] + Uleb(|body|) + body + rest;
    assert s[1..] == Uleb(|body|) + body + rest;
    ReadBlockEncoded(body, rest);
  }

  lemma SetFileLeads(h: LineHeader, m: Machine, file: nat)
    requires h.opcodeBase == 13
    ensures Leads(h, [LNS_SET_FILE] + Uleb(file), m, m.(regs := m.regs.(file := file)))
  {
    hide Run, Uleb, ReadUleb;
    forall rest: bytes
      ensures Run(h, [LNS_SET_FILE] + Uleb(file) + rest, m) == Run(h, rest, m.(regs := m.regs.(file := file)))
    {
      UlebRoundTrip(file, rest);
      StandardStep(h, LNS_SET_FILE, Uleb(file), rest, m, m.(regs := m.regs.(file := file)));
    }
  }

  lemma AdvancePcLeads(h: LineHeader, m: Machine, delta: nat)
    requires h.opcodeBase == 13
    ensures Leads(h, [LNS_ADVANCE_PC] + Uleb(delta), m, Advance(h, m, delta))
  {
    hide Run, Uleb, ReadUleb, Advance;
    forall rest: bytes
      ensures Run(h, [LNS_ADVANCE_PC] + Uleb(delta) + rest, m) == Run(h, rest, Advance(h, m, delta))
    {
      UlebRoundTrip(delta, rest);
      StandardStep(h, LNS_ADVANCE_PC, Uleb(delta), rest, m, Advance(h, m, delta));
    }
  }

  lemma AdvanceLineLeads(h: LineHeader, m: Machine, delta: int)
    requires h.opcodeBase == 13
    ensures Leads(h, [LNS_ADVANCE_LINE] + Sleb(delta), m, m.(regs := m.regs.(line := m.regs.line + delta)))
  {
    hide Run, Sleb, ReadSleb;
    forall rest: bytes
      ensures Run(h, [LNS_ADVANCE_LINE] + Sleb(delta) + rest, m)
           == Run(h, rest, m.(regs := m.regs.(line := m.regs.line + delta)))
    {
      SlebRoundTrip(delta, rest);
      StandardStep(h, LNS_ADVANCE_LINE, Sleb(delta), rest, m, m.(regs := m.regs.(line := m.regs.line + delta)));
    }
  }

  lemma CopyLeads(h: LineHeader, m: Machine)
    requires h.opcodeBase == 13
    ensures Leads(h, [LNS_COPY], m, Emit(m, false))
  {
    hide Run;
    forall rest: bytes ensures Run(h, [LNS_COPY] + rest, m) == Run(h, rest, Emit(m, false)) {
      assert [] + rest == rest;
      assert [LNS_COPY] + [] + rest == [LNS_COPY] + rest;
      StandardStep(h, LNS_COPY, [], rest, m, Emit(m, false));
    }
  }

  lemma SetAddressLeads(h: LineHeader, m: Machine, address: u64)
    requires h.opcodeBase == 13
    ensures Leads(h, [0] + Uleb(9) + [LNE_SET_ADDRESS] + Le(address, 8), m, m.(regs := m.regs.(address := address)))
  {
    hide Run, Uleb, Le, FromLe;
    var body: bytes := [LNE_SET_ADDRESS] + Le(address, 8);
    assert body[1..] == Le(address, 8);
    LeRoundTrip(address, 8);
    Pow256Values();
    SmallMod(address, Pow256(8));
    forall rest: bytes
      ensures Run(h, [0] + Uleb(9) + [LNE_SET_ADDRESS] + Le(address, 8) + rest, m)
           == Run(h, rest, m.(regs := m.regs.(address := address)))
    {
      assert [0] + Uleb(9) + [LNE_SET_ADDRESS] + Le(address, 8) == [0] + Uleb(|body|) + body;
      ExtendedStep(h, body, rest, m);
    }
  }

  lemma EndSequenceLeads(h: LineHeader, m: Machine)
    requires h.opcodeBase == 13
    ensures Leads(h, [0] + Uleb(1) + [LNE_END_SEQUENCE], m, Emit(m, true).(regs := InitialRegs(h)))
  {
    hide Run, Uleb;
    forall rest: bytes
      ensures Run(h, [0] + Uleb(1) + [LNE_END_SEQUENCE] + rest, m)
           == Run(h, rest, Emit(m, true).(regs := InitialRegs(h)))
    {
      ExtendedStep(h, [LNE_END_SEQUENCE], rest, m);
    }
  }

  // ----- The rows a line table stands for ---------------------------------------------

  function RegsFor(e: LineEntry): Regs {
    Regs(e.address, 0, e.line, 0, true)
  }

  function RowsFor(es: seq<LineEntry>): (r: seq<Row>)
    ensures |r| == |es|
  {
    seq(|es|, i requires 0 <= i < |es| => Row(RegsFor(es[i]), false))
  }

  /** The registers after the rows of `es`: those of the last row, or the initial ones in file 0. */
  function RegsAfter(es: seq<LineEntry>): Regs {
    if es == [] then Regs(0, 0, 1, 0, true) else RegsFor(es[|es| - 1])
  }

  /** One row per entry, in address order, then a single end_sequence row where the last row was. */
  ghost predicate RowsMatch(rows: seq<Row>, es: seq<LineEntry>) {
    exists sorted :: IsSortOf(sorted, es) && rows == RowsFor(sorted) + [Row(RegsAfter(sorted), true)]
  }

  ghost predicate LineUnitMatches(u: LineUnit, cu: CompileUnit) {
    u.header == HeaderFor(SplitPath(cu.sourcePath)) && RowsMatch(u.rows, cu.lines)
  }

  // ----- The header ---------------------------------------------------------------------

  function HeaderFields(split: PathSplit): bytes {
    [1, 1, 1, 0xFB, 14, 13] + [0, 1, 1, 1, 1, 0, 0, 0, 1, 0, 0, 1]
    + [1, LNCT_PATH, FORM_STRING, 1] + (split.dir + [0])
    + [2, LNCT_PATH, FORM_STRING, LNCT_DIRECTORY_INDEX, FORM_DATA1, 1] + (split.file + [0]) + [0]
  }

  lemma {:induction false} ReadSmallUlebs(vs: bytes, rest: bytes)
    requires forall i | 0 <= i < |vs| :: vs[i] < 128
    ensures ReadUlebs(|vs|, vs + rest) == Got(vs, rest)
  {
    hide ReadUleb;
    if vs == [] {
      assert vs + rest == rest;
    } else {
      assert vs + rest == [vs[0]] + (vs[1..] + rest);
      ReadSmallUleb(vs[0], vs[1..] + rest);
      ReadSmallUlebs(vs[1..], rest);
      assert vs == [vs[0]] + vs[1..];
    }
  }

  /** A table of one entry, whose format is the (content, form) pairs `pairs`, reads back. */
  lemma ReadEntryTableEncoded(pairs: bytes, n: u8, e: seq<Val>, rest: bytes)
    requires |pairs| == 2 * n && forall i | 0 <= i < |pairs| :: pairs[i] < 128
    requires FormsOf(e) == OddItems(pairs)
    requires forall v <- e :: Fits(v)
    ensures ReadEntryTable([n] + pairs + [1] + EncVals(e) + rest) == Got(EntryTable(EvenItems(pairs), [e]), rest)
  {
    hide EncVals, Fits, ReadForms, FormsOf, ReadUleb, EvenItems, OddItems, ReadUlebs, FromLe;
    var t3 := EncVals(e) + rest;
    var t1 := pairs + ([1] + t3);
    assert [n] + pairs + [1] + EncVals(e) + rest == [n] + t1;
    ReadOneByte(n, t1);
    ReadSmallUlebs(pairs, [1] + t3);
    ReadSmallUleb(1, t3);
    ReadFormsEncoded(e, rest);
    assert [e] + [] == [e];
    assert ReadEntries(0, OddItems(pairs), rest) == Got([], rest);
    assert ReadEntries(1, OddItems(pairs), t3) == Got([e], rest);
  }

  lemma ReadLineHeaderParts(fixed: bytes, counts: bytes, tables: bytes, dirs: EntryTable, files: EntryTable)
    requires |fixed| == 6 && fixed[5] == |counts| + 1
    requires ReadEntryTable(tables).Got? && ReadEntryTable(tables).item == dirs
    requires ReadEntryTable(ReadEntryTable(tables).rest) == Got(files, [])
    ensures ReadLineHeader(fixed + counts + tables)
         == Got(LineHeader(fixed[0], fixed[1], fixed[2] != 0, Signed8(fixed[3]), fixed[4], fixed[5], counts, dirs, files), [])
  {
    hide ReadEntryTable, Signed8;
    var s := fixed + counts + tables;
    assert s[6..5 + s[5]] == counts && s[5 + s[5]..] == tables;
  }

  lemma ReadHeaderFields(split: PathSplit)
    requires NoNul(split.dir) && NoNul(split.file)
    ensures ReadLineHeader(HeaderFields(split)) == Got(HeaderFor(split), [])
  {
    hide ReadEntryTable, ReadLineHeader, EncVals, FormsOf, OddItems, EvenItems;
    var dirEntry, fileEntry := [Text(split.dir)], [Text(split.file), Data1(0)];
    var dirPairs: bytes := [LNCT_PATH, FORM_STRING];
    var filePairs: bytes := [LNCT_PATH, FORM_STRING, LNCT_DIRECTORY_INDEX, FORM_DATA1];
    var files: bytes := [2] + filePairs + [1] + EncVals(fileEntry) + [];
    var tables: bytes := [1] + dirPairs + [1] + EncVals(dirEntry) + files;
    HeaderEntryBytes(split);
    ReadEntryTableEncoded(dirPairs, 1, dirEntry, files);
    ReadEntryTableEncoded(filePairs, 2, fileEntry, []);
    var counts: bytes := [0, 1, 1, 1, 1, 0, 0, 0, 1, 0, 0, 1];
    ReadLineHeaderParts([1, 1, 1, 0xFB, 14, 13], counts, tables, HeaderFor(split).dirs, HeaderFor(split).files);
    HeaderFieldsTables(split);
  }

  lemma HeaderFieldsTables(split: PathSplit)
    ensures HeaderFields(split)
         == [1, 1, 1, 0xFB, 14, 13] + [0, 1, 1, 1, 1, 0, 0, 0, 1, 0, 0, 1]
            + ([1] + [LNCT_PATH, FORM_STRING] + [1] + (split.dir + [0])
               + ([2] + [LNCT_PATH, FORM_STRING, LNCT_DIRECTORY_INDEX, FORM_DATA1] + [1] + (split.file + [0] + [0]) + []))
  {
    var a: bytes, b: bytes := [1] + [LNCT_PATH, FORM_STRING] + [1], split.dir + [0];
    var c: bytes := [2] + [LNCT_PATH, FORM_STRING, LNCT_DIRECTORY_INDEX, FORM_DATA1] + [1];
    var d := split.file + [0];
    assert a == [1, LNCT_PATH, FORM_STRING, 1];
    assert c == [2, LNCT_PATH, FORM_STRING, LNCT_DIRECTORY_INDEX, FORM_DATA1, 1];
    var x: bytes, y: bytes := [1, 1, 1, 0xFB, 14, 13], [0, 1, 1, 1, 1, 0, 0, 0, 1, 0, 0, 1];
    assert x + y + a + b + c + d + [0] == x + y + (a + b + (c + (d + [0]) + []));
  }

  lemma HeaderEntryBytes(split: PathSplit)
    ensures EncVals([Text(split.dir)]) == split.dir + [0]
    ensures EncVals([Text(split.file), Data1(0)]) == split.file + [0] + [0]
    ensures OddItems([LNCT_PATH, FORM_STRING]) == FormsOf([Text(split.dir)])
    ensures EvenItems([LNCT_PATH, FORM_STRING]) == [LNCT_PATH]
    ensures OddItems([LNCT_PATH, FORM_STRING, LNCT_DIRECTORY_INDEX, FORM_DATA1])
            == FormsOf([Text(split.file), Data1(0)])
    ensures EvenItems([LNCT_PATH, FORM_STRING, LNCT_DIRECTORY_INDEX, FORM_DATA1]) == [LNCT_PATH, LNCT_DIRECTORY_INDEX]
  {
    assert [Text(split.file), Data1(0)][1..] == [Data1(0)];
    assert EncVals([Data1(0)]) == [0] by {
      assert Le(0, 1) == [0] + Le(0, 0);
    }
    var four: seq<nat> := [LNCT_PATH, FORM_STRING, LNCT_DIRECTORY_INDEX, FORM_DATA1];
    assert four[2..] == [LNCT_DIRECTORY_INDEX, FORM_DATA1];
    assert OddItems(four) == [FORM_STRING] + OddItems(four[2..]);
    assert EvenItems(four) == [LNCT_PATH] + EvenItems(four[2..]);
    assert OddItems([LNCT_DIRECTORY_INDEX, FORM_DATA1]) == [FORM_DATA1] + OddItems([]);
    assert EvenItems([LNCT_DIRECTORY_INDEX, FORM_DATA1]) == [LNCT_DIRECTORY_INDEX] + EvenItems([]);
  }

  method WriteHeaderFields(line: BytesBuf, split: PathSplit)
    modifies line
    ensures line.data == old(line.data) + HeaderFields(split)
  {
    hide Uleb;
    SmallUlebs();
    line.U8(1);     // minimum_instruction_length
    line.U8(1);     // maximum_operations_per_instruction
    line.U8(1);     // default_is_stmt
    line.U8(0xFB);  // line_base, -5
    line.U8(14);    // line_range
    line.U8(13);    // opcode_base
    ghost var d1 := line.data;
    assert d1 == old(line.data) + [1, 1, 1, 0xFB, 14, 13];
    var counts: bytes := [0, 1, 1, 1, 1, 0, 0, 0, 1, 0, 0, 1];
    for i := 0 to |counts|
      invariant line.data == d1 + counts[..i]
    {
      line.U8(counts[i]);
    }
    ghost var d2 := line.data;
    assert d2 == d1 + counts;
    WriteDirectoryTable(line, split);
    ghost var d3 := line.data;
    WriteFileTable(line, split);
    ghost var fixed: bytes, dirs: bytes := [1, 1, 1, 0xFB, 14, 13], [1, LNCT_PATH, FORM_STRING, 1];
    ghost var files: bytes := [2, LNCT_PATH, FORM_STRING, LNCT_DIRECTORY_INDEX, FORM_DATA1, 1];
    Regroup(old(line.data), fixed, counts, dirs, split.dir + [0], files, split.file + [0], [0]);
  }

  lemma Regroup(o: bytes, a: bytes, b: bytes, c: bytes, d: bytes, e: bytes, f: bytes, g: bytes)
    ensures o + a + b + (c + d) + (e + f + g) == o + (a + b + c + d + e + f + g)
  {
  }

  method WriteDirectoryTable(line: BytesBuf, split: PathSplit)
    modifies line
    ensures line.data == old(line.data) + ([1, LNCT_PATH, FORM_STRING, 1] + (split.dir + [0]))
  {
    hide Uleb;
    SmallUlebs();
    line.U8(1);                     // directory_entry_format_count
    line.Uleb128(LNCT_PATH);
    line.Uleb128(FORM_STRING);
    line.Uleb128(1);                // directories_count
    line.CStr(split.dir);
  }

  method WriteFileTable(line: BytesBuf, split: PathSplit)
    modifies line
    ensures line.data == old(line.data)
                         + ([2, LNCT_PATH, FORM_STRING, LNCT_DIRECTORY_INDEX, FORM_DATA1, 1] + (split.file + [0]) + [0])
  {
    hide Uleb;
    SmallUlebs();
    line.U8(2);                     // file_name_entry_format_count
    line.Uleb128(LNCT_PATH);
    line.Uleb128(FORM_STRING);
    line.Uleb128(LNCT_DIRECTORY_INDEX);
    line.Uleb128(FORM_DATA1);
    line.Uleb128(1);                // file_names_count
    line.CStr(split.file);
    line.U8(0);                     // directory_index
  }

  // ----- The program ----------------------------------------------------------------------

  function SetAddressOp(address: u64): bytes {
    [0] + Uleb(9) + [LNE_SET_ADDRESS] + Le(address, 8)
  }

  function AdvancePcOp(delta: nat): bytes {
    if delta == 0 then [] else [LNS_ADVANCE_PC] + Uleb(delta)
  }

  function AdvanceLineOp(delta: int): bytes {
    if delta == 0 then [] else [LNS_ADVANCE_LINE] + Sleb(delta)
  }

  method EmitSetAddress(line: BytesBuf, address: u64)
    modifies line
    ensures line.data == old(line.data) + SetAddressOp(address)
  {
    hide Uleb, Le;
    line.U8(0);
    line.Uleb128(1 + 8);
    line.U8(LNE_SET_ADDRESS);
    line.Fixed(address, 8);
  }

  method EmitAdvancePc(line: BytesBuf, delta: nat)
    modifies line
    ensures line.data == old(line.data) + AdvancePcOp(delta)
  {
    hide Uleb;
    if delta != 0 {
      line.U8(LNS_ADVANCE_PC);
      line.Uleb128(delta);
    }
  }

  method EmitAdvanceLine(line: BytesBuf, delta: int)
    modifies line
    ensures line.data == old(line.data) + AdvanceLineOp(delta)
  {
    hide Sleb;
    if delta != 0 {
      line.U8(LNS_ADVANCE_LINE);
      line.Sleb128(delta);
    }
  }

  /** What one iteration emits: `a` moves the address, `b` the line. */
  lemma EntryLeads(h: LineHeader, m: Machine, le: LineEntry, a: bytes, b: bytes)
    requires h.opcodeBase == 13 && h.minInst == 1
    requires m.regs.file == 0 && m.regs.column == 0 && m.regs.isStmt
    requires || a == SetAddressOp(le.address)
             || (le.address >= m.regs.address && a == AdvancePcOp(le.address - m.regs.address))
    requires b == AdvanceLineOp(le.line - m.regs.line)
    ensures Leads(h, a + b + [LNS_COPY], m, Machine(RegsFor(le), m.rows + [Row(RegsFor(le), false)]))
  {
    hide Leads, Uleb, Sleb, Le;
    var m1 := m.(regs := m.regs.(address := le.address));
    var m2 := m1.(regs := m1.regs.(line := le.line));
    LeadsNowhere(h, m);
    LeadsNowhere(h, m1);
    SetAddressLeads(h, m, le.address);
    if a != SetAddressOp(le.address) {
      AdvancePcLeads(h, m, le.address - m.regs.address);
      MulOne(le.address - m.regs.address);
    }
    AdvanceLineLeads(h, m1, le.line - m1.regs.line);
    CopyLeads(h, m2);
    LeadsThrough(h, a, b, m, m1, m2);
    LeadsThrough(h, a + b, [LNS_COPY], m, m2, Emit(m2, false));
  }

  lemma MulOne(n: nat)
    ensures 1 * n == n
  {
  }

  /** Writes one row per sorted entry; file 0 is selected and the other registers are initial. */
  method WriteRows(line: BytesBuf, sorted: seq<LineEntry>, ghost h: LineHeader) returns (ghost program: bytes)
    requires SortedByAddress(sorted)
    requires h.opcodeBase == 13 && h.minInst == 1
    modifies line
    ensures line.data == old(line.data) + program
    ensures Leads(h, program, Machine(RegsAfter([]), []), Machine(RegsAfter(sorted), RowsFor(sorted)))
  {
    hide Leads, SetAddressOp, AdvancePcOp, AdvanceLineOp;
    program := [];
    ghost var m0 := Machine(RegsAfter([]), []);
    LeadsNowhere(h, m0);
    var stateAddress: u64, stateLine: u32 := 0, 1;
    var haveInitialAddr := false;
    for i := 0 to |sorted|
      invariant line.data == old(line.data) + program
      invariant Leads(h, program, m0, Machine(RegsAfter(sorted[..i]), RowsFor(sorted[..i])))
      invariant haveInitialAddr == (i > 0)
      invariant stateLine == RegsAfter(sorted[..i]).line && stateAddress == RegsAfter(sorted[..i]).address
    {
      var le := sorted[i];
      ghost var m := Machine(RegsAfter(sorted[..i]), RowsFor(sorted[..i]));
      ghost var a, b: bytes;
      if !haveInitialAddr {
        EmitSetAddress(line, le.address);
        haveInitialAddr := true;
        a := SetAddressOp(le.address);
      } else {
        assert le.address >= stateAddress;
        EmitAdvancePc(line, le.address - stateAddress);
        a := AdvancePcOp(le.address - stateAddress);
      }
      EmitAdvanceLine(line, le.line - stateLine);
      b := AdvanceLineOp(le.line - stateLine);
      stateAddress, stateLine := le.address, le.line;
      line.U8(LNS_COPY);
      EntryLeads(h, m, le, a, b);
      assert sorted[..i + 1] == sorted[..i] + [le];
      assert RowsFor(sorted[..i + 1]) == RowsFor(sorted[..i]) + [Row(RegsFor(le), false)];
      LeadsThrough(h, program, a + b + [LNS_COPY], m0, m, Machine(RegsAfter(sorted[..i + 1]), RowsFor(sorted[..i + 1])));
      program := program + (a + b + [LNS_COPY]);
    }
    assert sorted[..|sorted|] == sorted;
  }

  lemma ProgramRuns(h: LineHeader, program: bytes, a: Machine, b: Machine)
    requires Leads(h, program, a, b)
    ensures Run(h, program, a) == Some(b)
  {
    assert Run(h, program + [], a) == Run(h, [], b);
    assert program + [] == program;
  }

  lemma BodyParses(split: PathSplit, program: bytes, m: Machine)
    requires NoNul(split.dir) && NoNul(split.file) && |HeaderFields(split)| < 0x1_0000_0000
    requires Leads(HeaderFor(split), program, Machine(InitialRegs(HeaderFor(split)), []), m)
    ensures ParseLineUnit(LineBody(split, program)) == Some(LineUnit(HeaderFor(split), m.rows))
  {
    hide Leads, HeaderFields, Run, FromLe, Le, ReadLineHeader;
    var fields := HeaderFields(split);
    var body := LineBody(split, program);
    Pow256Values();
    LeRoundTrip(5, 2);
    LeRoundTrip(|fields|, 4);
    SmallMod(5, Pow256(2));
    SmallMod(|fields|, Pow256(4));
    assert body[..2] == Le(5, 2) && body[4..8] == Le(|fields|, 4);
    assert body[8..8 + |fields|] == fields && body[8 + |fields|..] == program;
    ReadHeaderFields(split);
    ProgramRuns(HeaderFor(split), program, Machine(InitialRegs(HeaderFor(split)), []), m);
  }

  /** The bytes of a unit after `unit_length`. */
  function LineBody(split: PathSplit, program: bytes): bytes {
    Le(5, 2) + [8, 0] + Le(|HeaderFields(split)|, 4) + HeaderFields(split) + program
  }

  /** Appends one unit to `.debug_line`. Whatever the section holds later, the unit at `start`
      reads back with the CU's directory, file and rows. */
  method WriteLineProgram(line: BytesBuf, cu: CompileUnit) returns (start: u32)
    requires NoNul(cu.sourcePath)
    modifies line
    ensures old(line.data) <= line.data
    ensures |line.data| < 0xFFFF_FFF0 ==> start == |old(line.data)| && HoldsLineUnit(line.data, start, cu)
  {
    hide HeaderFields, Leads, Le, Uleb, NoNul, HoldsLineUnit, LineBody, SplitPath, IsSortOf, RowsFor, RegsAfter,
         SortedByAddress;
    start := |line.data| % 0x1_0000_0000;
    var split := SplitPath(cu.sourcePath);
    ghost var base := line.data;
    var unitLengthPos := line.ReservedU32();
    var lengthFieldEnd := |line.data|;
    WriteLineHeader(line, split);
    ghost var sorted, program := WriteOpcodes(line, cu, HeaderFor(split));
    ghost var body := LineBody(split, program);
    BodyExtends(split, program);
    assert line.data == base + [0, 0, 0, 0] + body;
    line.PatchU32(unitLengthPos, |line.data| - lengthFieldEnd);
    Patched(base, [0, 0, 0, 0], body);
    if |line.data| < 0xFFFF_FFF0 {
      SmallMod(|base|, 0x1_0000_0000);
      UnitHeld(base, cu, sorted, program);
    }
  }

  /** Selects file 0, adds the rows, and ends the sequence. */
  method WriteOpcodes(line: BytesBuf, cu: CompileUnit, ghost h: LineHeader)
    returns (ghost sorted: seq<LineEntry>, ghost program: bytes)
    requires h.opcodeBase == 13 && h.minInst == 1 && h.defaultIsStmt
    modifies line
    ensures line.data == old(line.data) + program && IsSortOf(sorted, cu.lines)
    ensures Leads(h, program, Machine(InitialRegs(h), []),
                  Machine(InitialRegs(h), RowsFor(sorted) + [Row(RegsAfter(sorted), true)]))
  {
    hide Leads, Uleb, IsSortOf, RowsFor, RegsAfter, SortedByAddress;
    line.U8(LNS_SET_FILE);
    line.Uleb128(0);
    var s := Sort(cu.lines);
    sorted := s;
    SortIsSorted(sorted, cu.lines);
    ghost var rows := WriteRows(line, s, h);
    line.U8(0);
    line.Uleb128(1);
    line.U8(LNE_END_SEQUENCE);
    WholeProgram(h, rows, sorted);
    program := [LNS_SET_FILE] + Uleb(0) + rows + ([0] + Uleb(1) + [LNE_END_SEQUENCE]);
  }

  method WriteLineHeader(line: BytesBuf, split: PathSplit)
    modifies line
    ensures line.data == old(line.data) + LineBody(split, [])
  {
    hide HeaderFields, Le;
    line.Fixed(5, 2);
    line.U8(8);
    line.U8(0);
    var headerLengthPos := line.ReservedU32();
    var headerLengthStart := |line.data|;
    WriteHeaderFields(line, split);
    ghost var before := old(line.data) + Le(5, 2) + [8, 0];
    Patched(before, [0, 0, 0, 0], HeaderFields(split));
    line.PatchU32(headerLengthPos, |line.data| - headerLengthStart);
  }

  lemma BodyExtends(split: PathSplit, program: bytes)
    ensures LineBody(split, program) == LineBody(split, []) + program
  {
    hide HeaderFields, Le;
  }

  ghost predicate HoldsLineUnit(section: bytes, off: nat, cu: CompileUnit) {
    forall later: bytes :: ReadsLineUnit(section + later, off, cu)
  }

  ghost predicate ReadsLineUnit(section: bytes, off: nat, cu: CompileUnit) {
    var u := ReadLineUnit(section, off);
    u.Some? && LineUnitMatches(u.value, cu)
  }

  /** The rows, between selecting file 0 and ending the sequence. */
  lemma WholeProgram(h: LineHeader, rows: bytes, sorted: seq<LineEntry>)
    requires h.opcodeBase == 13 && h.defaultIsStmt
    requires Leads(h, rows, Machine(RegsAfter([]), []), Machine(RegsAfter(sorted), RowsFor(sorted)))
    ensures Leads(h, [LNS_SET_FILE] + Uleb(0) + rows + ([0] + Uleb(1) + [LNE_END_SEQUENCE]), Machine(InitialRegs(h), []),
                  Machine(InitialRegs(h), RowsFor(sorted) + [Row(RegsAfter(sorted), true)]))
  {
    hide Leads, Uleb;
    var m0, m1 := Machine(InitialRegs(h), []), Machine(RegsAfter([]), []);
    var m2 := Machine(RegsAfter(sorted), RowsFor(sorted));
    SetFileLeads(h, m0, 0);
    EndSequenceLeads(h, m2);
    LeadsThrough(h, [LNS_SET_FILE] + Uleb(0), rows, m0, m1, m2);
    LeadsThrough(h, [LNS_SET_FILE] + Uleb(0) + rows, [0] + Uleb(1) + [LNE_END_SEQUENCE], m0, m2,
                 Emit(m2, true).(regs := InitialRegs(h)));
  }

  lemma UnitHeld(base: bytes, cu: CompileUnit, sorted: seq<LineEntry>, program: bytes)
    requires NoNul(cu.sourcePath) && IsSortOf(sorted, cu.lines)
    requires var split := SplitPath(cu.sourcePath); var h := HeaderFor(split);
             && |LineBody(split, program)| < 0xFFFF_FFF0
             && Leads(h, program, Machine(InitialRegs(h), []),
                      Machine(InitialRegs(h), RowsFor(sorted) + [Row(RegsAfter(sorted), true)]))
    ensures var body := LineBody(SplitPath(cu.sourcePath), program);
            HoldsLineUnit(base + Le(|body|, 4) + body, |base|, cu)
  {
    hide Leads, HeaderFields, Le, ParseLineUnit, ReadUnitLength, IsSortOf, SplitPath, RowsFor, RegsAfter;
    var split := SplitPath(cu.sourcePath);
    var body := LineBody(split, program);
    var m := Machine(InitialRegs(HeaderFor(split)), RowsFor(sorted) + [Row(RegsAfter(sorted), true)]);
    BodyParses(split, program, m);
    forall later: bytes ensures ReadsLineUnit(base + Le(|body|, 4) + body + later, |base|, cu) {
      ReadUnitAt(base, body, later);
    }
  }
}
