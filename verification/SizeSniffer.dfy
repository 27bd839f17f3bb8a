/** The scan for `mov` instructions that tells the widths of stack variables from their displacements. */
module SizeSniffer {
  import opened Bytes

  type Widths = map<i32, nat>

  /** One recognised access to the frame, and where the next instruction is. */
  datatype Access = Access(disp: i32, width: nat, next: nat)

  predicate IsRex(b: u8) { 0x40 <= b < 0x50 }

  /** The position behind an optional operand-size prefix and an optional REX prefix. */
  function PrefixEnd(code: bytes, i: nat): (r: nat)
    requires i < |code|
    ensures i <= r <= i + 2 && r <= |code|
  {
    var j := if code[i] == 0x66 then i + 1 else i;
    if j < |code| && IsRex(code[j]) then j + 1 else j
  }

  function HasRexW(code: bytes, i: nat): bool
    requires i < |code|
  {
    var j := if code[i] == 0x66 then i + 1 else i;
    j < |code| && IsRex(code[j]) && code[j] >= 0x48
  }

  predicate IsMov(op: u8) {
    op == 0x88 || op == 0x8A || op == 0xC6 || op == 0x89 || op == 0x8B || op == 0xC7
  }

  /** Bytes accessed: one for the byte forms, else by the prefixes. */
  function Width(op: u8, op16: bool, rexW: bool): nat {
    if op == 0x88 || op == 0x8A || op == 0xC6 then 1 else if rexW then 8 else if op16 then 2 else 4
  }

  /** Bytes of immediate the scanner assumes behind the displacement. */
  function ImmediateSize(op: u8, op16: bool): nat {
    if op == 0xC6 then 1 else if op == 0xC7 then (if op16 then 2 else 4) else 0
  }

  /** The size of the displacement that an `[rbp + disp]` operand has, or 0 for other operands. */
  function DispSize(modRm: u8): nat {
    if modRm % 8 != 5 then 0 else if modRm / 64 == 1 then 1 else if modRm / 64 == 2 then 4 else 0
  }

  /** The access at `i`, if one of the known instructions starts there. */
  function MovAt(code: bytes, i: nat): (r: Option<Access>)
    requires i < |code|
    ensures r.Some? ==> i < r.value.next <= |code|
  {
    var pos := PrefixEnd(code, i);
    if pos + 1 >= |code| || !IsMov(code[pos]) then None
    else
      var op16, rexW, op := code[i] == 0x66, HasRexW(code, i), code[pos];
      var size := DispSize(code[pos + 1]);
      var next := pos + 2 + size + ImmediateSize(op, op16);
      if size == 0 || next > |code| then None
      else
        var disp := if size == 1 then AsSigned(code[pos + 2], 0x100) else SignedLe(code[pos + 2..pos + 6]);
        Some(Access(disp, Width(op, op16, rexW), next))
  }

  /** The first width recorded for a displacement stays. */
  function Record(out: Widths, disp: i32, width: nat): Widths {
    if disp in out then out else out[disp := width]
  }

  function SniffFrom(code: bytes, i: nat, out: Widths): Widths
    decreases if i < |code| then |code| - i else 0
  {
    if i >= |code| then out
    else match MovAt(code, i)
      case None => SniffFrom(code, i + 1, out)
      case Some(a) => SniffFrom(code, a.next, Record(out, a.disp, a.width))
  }

  method SniffStackVarSizes(code: bytes) returns (out: Widths)
    ensures out == SniffFrom(code, 0, map[])
  {
    hide MovAt;
    out := map[];
    var i := 0;
    while i < |code|
      invariant SniffFrom(code, 0, map[]) == SniffFrom(code, i, out)
    {
      if PrefixEnd(code, i) >= |code| {
        NothingLeft(code, i, out);
        break;
      }
      var a := ReadMov(code, i);
      if a.Some? {
        out := Record(out, a.value.disp, a.value.width);
        i := a.value.next;
      } else {
        i := i + 1;
      }
    }
  }

  /** No instruction is passed over: one that is not recorded lies within an earlier one that is. */
  lemma {:induction false} NoAccessMissed(code: bytes, i: nat, q: nat, out: Widths)
    requires i <= q < |code| && MovAt(code, q).Some?
    ensures exists r | i <= r <= q && MovAt(code, r).Some? ::
              q < MovAt(code, r).value.next && MovAt(code, r).value.disp in SniffFrom(code, i, out)
    decreases q - i
  {
    hide MovAt;
    var a := MovAt(code, i);
    if a.None? {
      NoAccessMissed(code, i + 1, q, out);
    } else if a.value.next <= q {
      NoAccessMissed(code, a.value.next, q, Record(out, a.value.disp, a.value.width));
    } else {
      RecordedStays(code, a.value.next, Record(out, a.value.disp, a.value.width), a.value.disp);
    }
  }

  lemma {:induction false} RecordedStays(code: bytes, i: nat, out: Widths, disp: i32)
    requires disp in out
    ensures disp in SniffFrom(code, i, out)
    decreases if i < |code| then |code| - i else 0
  {
    hide MovAt;
    if i < |code| {
      var a := MovAt(code, i);
      if a.None? {
        RecordedStays(code, i + 1, out, disp);
      } else {
        RecordedStays(code, a.value.next, Record(out, a.value.disp, a.value.width), disp);
      }
    }
  }

  /** Prefixes at the very end are no instruction, and nothing is found behind them. */
  lemma NothingLeft(code: bytes, i: nat, out: Widths)
    requires i < |code| && PrefixEnd(code, i) >= |code|
    ensures SniffFrom(code, i, out) == out
  {
    assert MovAt(code, i).None?;
    if i + 1 < |code| {
      assert MovAt(code, i + 1).None?;
      assert SniffFrom(code, i + 2, out) == out;
    }
  }

  method ReadMov(code: bytes, i: nat) returns (r: Option<Access>)
    requires i < |code|
    ensures r == MovAt(code, i)
  {
    hide AsSigned, SignedLe;
    r := None;
    var pos, op16, rexW := i, false, false;
    if code[pos] == 0x66 {
      op16, pos := true, pos + 1;
    }
    if pos < |code| && IsRex(code[pos]) {
      rexW, pos := code[pos] >= 0x48, pos + 1;
    }
    if pos >= |code| {
      return;
    }
    var op := code[pos];
    pos := pos + 1;
    var width, immAfter;
    match op {
      case 0x88 => width, immAfter := 1, 0;
      case 0x8A => width, immAfter := 1, 0;
      case 0xC6 => width, immAfter := 1, 1;
      case 0x89 => width, immAfter := if rexW then 8 else if op16 then 2 else 4, 0;
      case 0x8B => width, immAfter := if rexW then 8 else if op16 then 2 else 4, 0;
      case 0xC7 => width, immAfter := if rexW then 8 else if op16 then 2 else 4, if op16 then 2 else 4;
      case _ => return;
    }
    if pos >= |code| {
      return;
    }
    var modRm := code[pos];
    pos := pos + 1;
    if DispSize(modRm) == 1 {
      if pos < |code| && pos + 1 + immAfter <= |code| {
        r := Some(Access(AsSigned(code[pos], 0x100), width, pos + 1 + immAfter));
      }
    } else if DispSize(modRm) == 4 {
      if pos + 4 <= |code| && pos + 4 + immAfter <= |code| {
        r := Some(Access(SignedLe(code[pos..pos + 4]), width, pos + 4 + immAfter));
      }
    }
  }

  // ----- Instructions as the processor defines them -----------------------------------------------------

  /** A `mov` between a register or an immediate and `[base + disp]`. */
  datatype Mov = Mov(op16: bool, rex: Option<nat>, op: u8, reg: nat, disp: int, wide: bool, immediate: bytes)

  /** REX.W makes the operand 64 bits wide, else the prefix 16, else it has 32; byte forms have 8 bits. */
  function OperandSize(m: Mov): nat {
    if m.op == 0x88 || m.op == 0x8A || m.op == 0xC6 then 1
    else if m.rex.Some? && m.rex.value >= 8 then 8
    else if m.op16 then 2
    else 4
  }

  /** Immediates are as wide as the operand, but at most 32 bits. */
  function OperandImmediate(m: Mov): nat {
    if m.op != 0xC6 && m.op != 0xC7 then 0 else if OperandSize(m) == 8 then 4 else OperandSize(m)
  }

  datatype Base = Rbp | R13

  /** REX.B turns the base register into `r13`. */
  function BaseOf(m: Mov): Base {
    if m.rex.Some? && m.rex.value % 2 == 1 then R13 else Rbp
  }

  /** What the instruction at `at` does to the frame of `rbp`. */
  function FrameAccess(m: Mov, at: nat): Option<Access>
    requires MovOk(m)
  {
    if BaseOf(m) == Rbp then Some(Access(m.disp, OperandSize(m), at + |MovBytes(m)|)) else None
  }

  predicate MovOk(m: Mov) {
    && m.op in {0x88, 0x8A, 0xC6, 0x89, 0x8B, 0xC7} && m.reg < 8 && (m.op == 0xC6 || m.op == 0xC7 ==> m.reg == 0)
    && (m.rex.Some? ==> m.rex.value < 16)
    && (if m.wide then -0x8000_0000 <= m.disp < 0x8000_0000 else -0x80 <= m.disp < 0x80)
    && |m.immediate| == OperandImmediate(m)
  }

  /** The eleven forms the compiler uses, each with either displacement. */
  predicate Documented(m: Mov) {
    || (!m.op16 && m.rex.None?)
    || (m.op16 && m.rex.None? && (m.op == 0x89 || m.op == 0x8B))
    || (!m.op16 && m.rex == Some(8) && (m.op == 0x89 || m.op == 0x8B || m.op == 0xC7))
  }

  function Prefixes(m: Mov): bytes
    requires MovOk(m)
  {
    (if m.op16 then [0x66] else []) + (if m.rex.Some? then [0x40 + m.rex.value] else [])
  }

  function DispBytes(m: Mov): (r: bytes)
    requires MovOk(m)
    ensures |r| == if m.wide then 4 else 1
  {
    if m.wide then Le(Unsigned32(m.disp), 4) else [m.disp % 0x100]
  }

  function Operand(m: Mov): bytes
    requires MovOk(m)
  {
    [m.op, (if m.wide then 0x85 else 0x45) + 8 * m.reg] + DispBytes(m) + m.immediate
  }

  function MovBytes(m: Mov): bytes
    requires MovOk(m)
  {
    Prefixes(m) + Operand(m)
  }

  lemma PrefixesRead(code: bytes, i: nat, m: Mov)
    requires MovOk(m) && i + |Prefixes(m)| < |code| && code[i + |Prefixes(m)|] == m.op
    requires forall k | 0 <= k < |Prefixes(m)| :: code[i + k] == Prefixes(m)[k]
    ensures PrefixEnd(code, i) == i + |Prefixes(m)|
    ensures (code[i] == 0x66) == m.op16 && HasRexW(code, i) == (m.rex.Some? && m.rex.value >= 8)
  {
    var p := Prefixes(m);
    assert |p| >= 1 ==> code[i + 0] == p[0];
    assert |p| >= 2 ==> code[i + 1] == p[1];
  }

  lemma ModRmReads(reg: nat)
    requires reg < 8
    ensures DispSize(0x45 + 8 * reg) == 1 && DispSize(0x85 + 8 * reg) == 4
  {
  }

  /** The scanner reads a 16-bit immediate where REX.W overrides the operand-size prefix. */
  predicate ImmediateAgrees(m: Mov) {
    m.op == 0xC7 && m.rex.Some? && m.rex.value >= 8 ==> !m.op16
  }

  lemma OperandReads(code: bytes, at: nat, m: Mov)
    requires MovOk(m) && at + |Operand(m)| <= |code| && code[at..at + |Operand(m)|] == Operand(m)
    ensures code[at] == m.op && DispSize(code[at + 1]) == |DispBytes(m)|
    ensures (if m.wide then SignedLe(code[at + 2..at + 6]) else AsSigned(code[at + 2], 0x100)) == m.disp
  {
    hide SignedLe, Le, Unsigned32;
    var o := Operand(m);
    SubRange(code, at, at + |o|, 2, 2 + |DispBytes(m)|);
    assert o[2..2 + |DispBytes(m)|] == DispBytes(m);
    assert code[at] == o[0] && code[at + 1] == o[1] && code[at + 2] == o[2];
    ModRmReads(m.reg);
    if m.wide {
      SignedLeReads(m.disp);
    } else {
      ByteReads(m.disp);
    }
  }

  lemma ByteReads(v: int)
    requires -0x80 <= v < 0x80
    ensures AsSigned(v % 0x100, 0x100) == v
  {
  }

  /** The bytes that the scanner looks at. */
  lemma MovParts(pre: bytes, m: Mov, rest: bytes)
    requires MovOk(m)
    ensures var code, i, at := pre + MovBytes(m) + rest, |pre|, |pre| + |Prefixes(m)|;
            && PrefixEnd(code, i) == at && at + 2 + |DispBytes(m)| + OperandImmediate(m) == i + |MovBytes(m)| <= |code|
            && (code[i] == 0x66) == m.op16 && HasRexW(code, i) == (m.rex.Some? && m.rex.value >= 8)
            && code[at] == m.op && DispSize(code[at + 1]) == |DispBytes(m)|
            && (if m.wide then SignedLe(code[at + 2..at + 6]) else AsSigned(code[at + 2], 0x100)) == m.disp
  {
    hide SignedLe, AsSigned, Operand, Prefixes, DispSize, DispBytes, OperandImmediate, PrefixEnd, HasRexW;
    var code := pre + MovBytes(m) + rest;
    var at := |pre + Prefixes(m)|;
    assert code == (pre + Prefixes(m)) + (Operand(m) + rest);
    assert code[at..at + |Operand(m)|] == Operand(m);
    OperandReads(code, at, m);
    OperandLength(m);
    assert forall k | 0 <= k < |Prefixes(m)| :: code[|pre| + k] == Prefixes(m)[k];
    PrefixesRead(code, |pre|, m);
  }

  /** The scanner records the displacement and the width of each such instruction, also of one whose base is
      `r13`. It sees what the processor does to the frame exactly if the base is `rbp` and the instruction does not
      have the one prefix combination whose immediate the scanner takes for shorter than it is. */
  lemma MovReads(pre: bytes, m: Mov, rest: bytes)
    requires MovOk(m)
    ensures var a := MovAt(pre + MovBytes(m) + rest, |pre|);
            && a.Some? && a.value.disp == m.disp && a.value.width == OperandSize(m)
            && (a.value.next == |pre| + |MovBytes(m)| <==> ImmediateAgrees(m))
    ensures MovAt(pre + MovBytes(m) + rest, |pre|) == FrameAccess(m, |pre|)
            <==> ImmediateAgrees(m) && BaseOf(m) == Rbp
  {
    hide SignedLe, AsSigned, MovBytes, Prefixes, DispSize, DispBytes, PrefixEnd, HasRexW;
    MovParts(pre, m, rest);
  }

  /** And it records nothing else: behind optional prefixes is the opcode of a mov and an operand with a displacement
      from register 5, all of it within the code. */
  lemma OnlyMovs(code: bytes, i: nat)
    requires i < |code| && MovAt(code, i).Some?
    ensures exists at | i <= at <= i + 2 ::
              && (at == i || (at == i + 1 && (code[i] == 0x66 || 0x40 <= code[i] < 0x50))
                  || (at == i + 2 && code[i] == 0x66 && 0x40 <= code[i + 1] < 0x50))
              && at + 2 < MovAt(code, i).value.next <= |code| && code[at] in {0x88, 0x8A, 0xC6, 0x89, 0x8B, 0xC7}
              && code[at + 1] % 8 == 5 && code[at + 1] / 64 in {1, 2}
  {
    var at := PrefixEnd(code, i);
    assert at == i || at == i + 1 || at == i + 2;
  }

  /** `41 89 45 F8` writes `[r13 - 8]`, but counts as four bytes of the frame. */
  lemma R13Recorded()
    ensures var m := Mov(false, Some(1), 0x89, 0, -8, false, []);
            && MovOk(m) && ImmediateAgrees(m) && FrameAccess(m, 0).None?
            && MovBytes(m) == [0x41, 0x89, 0x45, 0xF8]
            && SniffFrom(MovBytes(m), 0, map[]) == map[-8 := 4]
  {
    var m := Mov(false, Some(1), 0x89, 0, -8, false, []);
    assert MovBytes(m) == [0x41, 0x89, 0x45, 0xF8];
    assert [] + MovBytes(m) + [] == MovBytes(m);
    MovReads([], m, []);
    hide MovAt, MovBytes;
    assert SniffFrom(MovBytes(m), 4, map[-8 := 4]) == map[-8 := 4];
  }

  /** `66 48 C7 45 F8` and four bytes of immediate: the scan goes on within the immediate. */
  lemma ShortImmediate(imm: bytes, rest: bytes)
    requires |imm| == 4
    ensures var m := Mov(true, Some(8), 0xC7, 0, -8, false, imm);
            && MovOk(m) && BaseOf(m) == Rbp && MovBytes(m) == [0x66, 0x48, 0xC7, 0x45, 0xF8] + imm
            && FrameAccess(m, 0) == Some(Access(-8, 8, 9)) && MovAt(MovBytes(m) + rest, 0) == Some(Access(-8, 8, 7))
  {
    var m := Mov(true, Some(8), 0xC7, 0, -8, false, imm);
    assert MovBytes(m) == [0x66, 0x48, 0xC7, 0x45, 0xF8] + imm;
    MovReads([], m, rest);
    assert [] + MovBytes(m) + rest == MovBytes(m) + rest;
  }

  lemma OperandLength(m: Mov)
    requires MovOk(m)
    ensures |Operand(m)| == 2 + |DispBytes(m)| + OperandImmediate(m)
  {
  }

  predicate AllDocumented(ms: seq<Mov>) {
    forall i | 0 <= i < |ms| :: MovOk(ms[i]) && Documented(ms[i])
  }

  function MovsBytes(ms: seq<Mov>): bytes
    requires AllDocumented(ms)
  {
    if ms == [] then [] else MovBytes(ms[0]) + MovsBytes(ms[1..])
  }

  /** The width of each displacement's first access. */
  function Fold(ms: seq<Mov>, out: Widths): Widths
    requires AllDocumented(ms)
    decreases |ms|
  {
    if ms == [] then out else Fold(ms[1..], Record(out, ms[0].disp, OperandSize(ms[0])))
  }

  lemma {:induction false} SniffsMovs(pre: bytes, ms: seq<Mov>, rest: bytes, out: Widths)
    requires AllDocumented(ms)
    ensures SniffFrom(pre + MovsBytes(ms) + rest, |pre|, out)
            == SniffFrom(pre + MovsBytes(ms) + rest, |pre| + |MovsBytes(ms)|, Fold(ms, out))
    decreases |ms|
  {
    hide MovBytes, MovAt, OperandSize, MovOk;
    if ms != [] {
      var code := pre + MovsBytes(ms) + rest;
      var here := pre + MovBytes(ms[0]);
      assert code == pre + MovBytes(ms[0]) + (MovsBytes(ms[1..]) + rest);
      assert code == here + MovsBytes(ms[1..]) + rest;
      MovReads(pre, ms[0], MovsBytes(ms[1..]) + rest);
      SniffsMovs(here, ms[1..], rest, Record(out, ms[0].disp, OperandSize(ms[0])));
    }
  }

  /** Over any concatenation of documented instructions, the scan yields exactly their first accesses. */
  lemma SniffDecodes(ms: seq<Mov>)
    requires AllDocumented(ms)
    ensures SniffFrom(MovsBytes(ms), 0, map[]) == Fold(ms, map[])
  {
    hide MovsBytes;
    assert [] + MovsBytes(ms) + [] == MovsBytes(ms);
    SniffsMovs([], ms, [], map[]);
  }

  /** The first access decides: a displacement has the width of the first instruction that uses it. */
  lemma {:induction false} FirstWins(ms: seq<Mov>, out: Widths, disp: i32)
    requires AllDocumented(ms)
    ensures disp in Fold(ms, out) <==> disp in out || exists i | 0 <= i < |ms| :: ms[i].disp == disp
    ensures disp in out ==> Fold(ms, out)[disp] == out[disp]
    ensures forall i | 0 <= i < |ms| && ms[i].disp == disp && disp !in out && (forall j | 0 <= j < i :: ms[j].disp != disp) ::
              Fold(ms, out)[disp] == OperandSize(ms[i])
    decreases |ms|
  {
    hide Documented, OperandSize;
    if ms != [] {
      FirstWins(ms[1..], Record(out, ms[0].disp, OperandSize(ms[0])), disp);
      assert forall i | 0 < i < |ms| :: ms[i] == ms[1..][i - 1];
    }
  }
}
