/** A reader of DWARF v5 line-number programs (section 6.2): the header, and the
    state machine that turns the program's opcodes into rows. */
module LineReader {
  import opened Bytes
  import opened DwarfForms

  const LNS_COPY := 1
  const LNS_ADVANCE_PC := 2
  const LNS_ADVANCE_LINE := 3
  const LNS_SET_FILE := 4
  const LNS_SET_COLUMN := 5
  const LNS_NEGATE_STMT := 6
  const LNS_SET_BASIC_BLOCK := 7
  const LNS_CONST_ADD_PC := 8
  const LNS_FIXED_ADVANCE_PC := 9
  const LNS_SET_PROLOGUE_END := 10
  const LNS_SET_EPILOGUE_BEGIN := 11

  const LNE_END_SEQUENCE := 1
  const LNE_SET_ADDRESS := 2

  const LNCT_PATH := 1
  const LNCT_DIRECTORY_INDEX := 2

  /** One directory or file entry: its values in the order of the format description. */
  datatype EntryTable = EntryTable(contents: seq<nat>, entries: seq<seq<Val>>)

  datatype LineHeader = LineHeader(
    minInst: nat, maxOps: nat, defaultIsStmt: bool, lineBase: int, lineRange: nat, opcodeBase: nat,
    operandCounts: seq<nat>, dirs: EntryTable, files: EntryTable)

  datatype Regs = Regs(address: nat, file: nat, line: int, column: nat, isStmt: bool)
  datatype Row = Row(regs: Regs, endSequence: bool)
  datatype Machine = Machine(regs: Regs, rows: seq<Row>)

  datatype LineUnit = LineUnit(header: LineHeader, rows: seq<Row>)

  // ----- The state machine -----------------------------------------------------------

  function InitialRegs(h: LineHeader): Regs {
    Regs(0, 1, 1, 0, h.defaultIsStmt)
  }

  function Emit(m: Machine, endSequence: bool): Machine {
    m.(rows := m.rows + [Row(m.regs, endSequence)])
  }

  function Advance(h: LineHeader, m: Machine, operation: nat): Machine {
    m.(regs := m.regs.(address := m.regs.address + h.minInst * operation))
  }

  function SpecialOpcode(h: LineHeader, op: nat, m: Machine): Machine
    requires h.lineRange > 0 && op >= h.opcodeBase
  {
    var adjusted := op - h.opcodeBase;
    var moved := Advance(h, m, adjusted / h.lineRange);
    Emit(moved.(regs := moved.regs.(line := moved.regs.line + h.lineBase + adjusted % h.lineRange)), false)
  }

  /** An extended opcode, given its sub-opcode and operand bytes. */
  function ExtendedOpcode(h: LineHeader, body: bytes, m: Machine): Option<Machine>
    requires body != []
  {
    if body[0] == LNE_END_SEQUENCE then
      Some(Emit(m, true).(regs := InitialRegs(h)))
    else if body[0] == LNE_SET_ADDRESS then
      if |body| != 9 then None else Some(m.(regs := m.regs.(address := FromLe(body[1..]))))
    else Some(m)
  }

  function SkipUlebs(n: nat, s: bytes): (r: Read<()>)
    ensures r.Got? ==> |r.rest| <= |s|
  {
    if n == 0 then Got((), s)
    else
      var (_, t) :- ReadUleb(s);
      SkipUlebs(n - 1, t)
  }

  /** A standard opcode, given the bytes after it. */
  function StandardOpcode(h: LineHeader, op: nat, s: bytes, m: Machine): (r: Read<Machine>)
    requires 0 < op
    ensures r.Got? ==> |r.rest| <= |s|
  {
    if op == LNS_COPY then Got(Emit(m, false), s)
    else if op == LNS_ADVANCE_PC then
      var (n, t) :- ReadUleb(s); Got(Advance(h, m, n), t)
    else if op == LNS_ADVANCE_LINE then
      var (n, t) :- ReadSleb(s); Got(m.(regs := m.regs.(line := m.regs.line + n)), t)
    else if op == LNS_SET_FILE then
      var (n, t) :- ReadUleb(s); Got(m.(regs := m.regs.(file := n)), t)
    else if op == LNS_SET_COLUMN then
      var (n, t) :- ReadUleb(s); Got(m.(regs := m.regs.(column := n)), t)
    else if op == LNS_NEGATE_STMT then Got(m.(regs := m.regs.(isStmt := !m.regs.isStmt)), s)
    else if op == LNS_SET_BASIC_BLOCK || op == LNS_SET_PROLOGUE_END || op == LNS_SET_EPILOGUE_BEGIN then Got(m, s)
    else if op == LNS_CONST_ADD_PC then
      if h.lineRange == 0 || h.opcodeBase > 255 then Bad
      else Got(Advance(h, m, (255 - h.opcodeBase) / h.lineRange), s)
    else if op == LNS_FIXED_ADVANCE_PC then
      var (n, t) :- ReadLe(2, s); Got(m.(regs := m.regs.(address := m.regs.address + n)), t)
    else if op <= |h.operandCounts| then
      var (_, t) :- SkipUlebs(h.operandCounts[op - 1], s); Got(m, t)
    else Bad
  }

  function Run(h: LineHeader, s: bytes, m: Machine): Option<Machine>
    decreases |s|
  {
    if s == [] then Some(m)
    else if s[0] >= h.opcodeBase then
      if h.lineRange == 0 then None else Run(h, s[1..], SpecialOpcode(h, s[0], m))
    else if s[0] == 0 then
      match ReadBlock(s[1..])
      case Bad => None
      case Got(body, rest) =>
        if body == [] then None
        else
          var m1 :- ExtendedOpcode(h, body, m);
          Run(h, rest, m1)
    else
      match StandardOpcode(h, s[0], s[1..], m)
      case Bad => None
      case Got(m1, rest) => Run(h, rest, m1)
  }

  // ----- The header ---------------------------------------------------------------------

  function ReadUlebs(n: nat, s: bytes): (r: Read<seq<nat>>)
    ensures r.Got? ==> |r.rest| <= |s| && |r.item| == n
  {
    if n == 0 then Got([], s)
    else
      var (v, t) :- ReadUleb(s);
      var (vs, rest) :- ReadUlebs(n - 1, t);
      Got([v] + vs, rest)
  }

  function EvenItems(vs: seq<nat>): seq<nat> {
    if |vs| < 2 then [] else [vs[0]] + EvenItems(vs[2..])
  }

  function OddItems(vs: seq<nat>): seq<nat> {
    if |vs| < 2 then [] else [vs[1]] + OddItems(vs[2..])
  }

  function ReadEntries(n: nat, forms: seq<nat>, s: bytes): (r: Read<seq<seq<Val>>>)
    ensures r.Got? ==> |r.rest| <= |s|
  {
    if n == 0 then Got([], s)
    else
      var (e, t) :- ReadForms(forms, s);
      var (es, rest) :- ReadEntries(n - 1, forms, t);
      Got([e] + es, rest)
  }

  /** An entry-format description (content type and form pairs), a count, and the entries. */
  function ReadEntryTable(s: bytes): (r: Read<EntryTable>)
    ensures r.Got? ==> |r.rest| <= |s|
  {
    var (formatCount, t1) :- ReadLe(1, s);
    var (pairs, t2) :- ReadUlebs(2 * formatCount, t1);
    var (count, t3) :- ReadUleb(t2);
    var (entries, t4) :- ReadEntries(count, OddItems(pairs), t3);
    Got(EntryTable(EvenItems(pairs), entries), t4)
  }

  function Signed8(b: u8): int {
    if b < 128 then b else b - 256
  }

  /** The header fields that `header_length` covers. */
  function ReadLineHeader(s: bytes): Read<LineHeader>
  {
    if |s| < 6 then Bad
    else
      var opcodeBase: nat := s[5];
      if opcodeBase == 0 || |s| < 5 + opcodeBase then Bad
      else
        var counts: seq<nat> := s[6..5 + opcodeBase];
        var (dirs, t1) :- ReadEntryTable(s[5 + opcodeBase..]);
        var (files, t2) :- ReadEntryTable(t1);
        Got(LineHeader(s[0], s[1], s[2] != 0, Signed8(s[3]), s[4], opcodeBase, counts, dirs, files), t2)
  }

  /** The line-number unit whose bytes after `unit_length` are `body`. */
  function ParseLineUnit(body: bytes): Option<LineUnit> {
    if |body| < 8 || FromLe(body[..2]) != 5 || body[2] != 8 || body[3] != 0 then None
    else
      var headerLength := FromLe(body[4..8]);
      if 8 + headerLength > |body| then None
      else
        match ReadLineHeader(body[8..8 + headerLength])
        case Bad => None
        case Got(h, _) =>
          if h.maxOps != 1 then None
          else
            var m :- Run(h, body[8 + headerLength..], Machine(InitialRegs(h), []));
            Some(LineUnit(h, m.rows))
  }

  function ReadLineUnit(section: bytes, off: nat): Option<LineUnit> {
    if off > |section| then None
    else
      match ReadUnitLength(section[off..])
      case Bad => None
      case Got(body, _) => ParseLineUnit(body)
  }
}
