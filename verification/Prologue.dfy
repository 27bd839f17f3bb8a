/** The decoder for function prologues, against an executable model of the instructions it looks for. */
module Prologue {
  import opened Bytes

  const WORD64 := 0x1_0000_0000_0000_0000

  // ----- The decoder ------------------------------------------------------------------------------

  datatype ParsedPrologue = ParsedPrologue(subRsp: i32, extraPushes: u8)

  const MAX_PUSHES := 16

  predicate IsPush(b: u8) { 0x50 <= b <= 0x57 }

  /** The length of the `push` at `i`, plain or with a REX.B prefix, or 0. */
  function PushLength(code: bytes, i: nat): nat
    requires i < |code|
  {
    if IsPush(code[i]) then 1
    else if code[i] == 0x41 && i + 1 < |code| && IsPush(code[i + 1]) then 2
    else 0
  }

  /** Where a run of at most `n` pushes ends, and how many they are. */
  function PushRun(code: bytes, i: nat, n: nat): (r: (nat, nat))
    ensures r.1 <= n && i <= r.0
    decreases n
  {
    if n == 0 || i >= |code| || PushLength(code, i) == 0 then (i, 0)
    else
      var r := PushRun(code, i + PushLength(code, i), n - 1);
      (r.0, r.1 + 1)
  }

  /** The immediate of a `sub rsp` at `i`, or 0. */
  function SubImmediate(code: bytes, i: nat): i32 {
    if i + 3 >= |code| || code[i] != 0x48 then 0
    else if code[i + 1] == 0x83 && code[i + 2] == 0xEC then AsSigned(code[i + 3], 0x100)
    else if code[i + 1] == 0x81 && code[i + 2] == 0xEC && i + 6 < |code| then SignedLe(code[i + 3..i + 7])
    else 0
  }

  function PrologueOf(code: bytes): ParsedPrologue {
    if |code| < 5 || code[0] != 0x55 then ParsedPrologue(0, 0)
    else
      var run := PushRun(code, 1, MAX_PUSHES);
      ParsedPrologue(SubImmediate(code, run.0), run.1)
  }

  lemma PushRunStep(code: bytes, i: nat, n: nat)
    ensures PushRun(code, i, n)
         == if n == 0 || i >= |code| || PushLength(code, i) == 0 then (i, 0)
            else var r := PushRun(code, i + PushLength(code, i), n - 1); (r.0, r.1 + 1)
  {
  }

  method ParsePrologue(code: bytes) returns (out: ParsedPrologue)
    ensures out == PrologueOf(code)
  {
    hide SubImmediate, PushLength, PushRun;
    out := ParsedPrologue(0, 0);
    if |code| < 5 || code[0] != 0x55 {
      return;
    }
    var i, extras := 1, 0;
    while i < |code| && extras < MAX_PUSHES
      invariant 1 <= i && extras <= MAX_PUSHES
      invariant var rest := PushRun(code, i, MAX_PUSHES - extras); PushRun(code, 1, MAX_PUSHES) == (rest.0, rest.1 + extras)
    {
      PushRunStep(code, i, MAX_PUSHES - extras);
      var length := PushLength(code, i);
      if length == 0 {
        break;
      }
      i, extras := i + length, extras + 1;
    }
    PushRunStep(code, i, MAX_PUSHES - extras);
    out := ParsedPrologue(SubImmediate(code, i), extras);
  }

  // ----- The machine -----------------------------------------------------------------------------------

  const RSP := 4
  const RBP := 5

  /** Sixteen registers and the memory words written so far. */
  datatype State = State(regs: seq<u64>, memory: map<u64, u64>)

  predicate StateOk(s: State) {
    |s.regs| == 16
  }

  /** Address arithmetic wraps around. */
  function Moved(a: u64, d: int): u64 {
    var x: int := a;
    (x + d) % WORD64
  }

  datatype Instr = Push(reg: nat) | SubRsp(imm: int) | MovRbpRsp

  datatype Decoded = Decoded(instr: Instr, size: nat)

  /** The instruction at the start of the code, for the few instructions prologues are made of. */
  function Decode(code: bytes): (r: Option<Decoded>)
    ensures r.Some? ==> 0 < r.value.size <= |code| && (r.value.instr.Push? ==> r.value.instr.reg < 16)
  {
    if |code| >= 1 && IsPush(code[0]) then Some(Decoded(Push(code[0] - 0x50), 1))
    else if |code| >= 2 && code[0] == 0x41 && IsPush(code[1]) then Some(Decoded(Push(code[1] - 0x50 + 8), 2))
    else if |code| >= 4 && code[..3] == [0x48, 0x83, 0xEC] then Some(Decoded(SubRsp(AsSigned(code[3], 0x100)), 4))
    else if |code| >= 7 && code[..3] == [0x48, 0x81, 0xEC] then Some(Decoded(SubRsp(SignedLe(code[3..7])), 7))
    else if |code| >= 3 && (code[..3] == [0x48, 0x8B, 0xEC] || code[..3] == [0x48, 0x89, 0xE5]) then Some(Decoded(MovRbpRsp, 3))
    else None
  }

  function Execute(i: Instr, s: State): (t: State)
    requires StateOk(s) && (i.Push? ==> i.reg < 16)
    ensures StateOk(t)
  {
    match i
    case Push(reg) =>
      var rsp := Moved(s.regs[RSP], -8);
      State(s.regs[RSP := rsp], s.memory[rsp := s.regs[reg]])
    case SubRsp(imm) => s.(regs := s.regs[RSP := Moved(s.regs[RSP], -imm)])
    case MovRbpRsp => s.(regs := s.regs[RBP := s.regs[RSP]])
  }

  /** Runs all of the code, if all of it decodes. */
  function Run(code: bytes, s: State): (t: Option<State>)
    requires StateOk(s)
    ensures t.Some? ==> StateOk(t.value)
    decreases |code|
  {
    if code == [] then Some(s)
    else
      var d :- Decode(code);
      Run(code[d.size..], Execute(d.instr, s))
  }

  // ----- Prologues as the compiler writes them ----------------------------------------------------------

  /** `push rbp`, further pushes, `sub rsp` with an immediate in one byte or four, `mov rbp, rsp` in either
      of its encodings. */
  datatype Shape = Shape(pushes: seq<nat>, size: int, wide: bool, storeForm: bool)

  predicate ShapeOk(p: Shape) {
    (forall i | 0 <= i < |p.pushes| :: p.pushes[i] < 16)
    && (if p.wide then -0x8000_0000 <= p.size < 0x8000_0000 else -0x80 <= p.size < 0x80)
  }

  function PushBytes(reg: nat): bytes
    requires reg < 16
  {
    if reg < 8 then [0x50 + reg] else [0x41, 0x50 + reg - 8]
  }

  function PushesBytes(regs: seq<nat>): bytes
    requires forall i | 0 <= i < |regs| :: regs[i] < 16
  {
    if regs == [] then [] else PushBytes(regs[0]) + PushesBytes(regs[1..])
  }

  function SubBytes(p: Shape): bytes
    requires ShapeOk(p)
  {
    if p.wide then [0x48, 0x81, 0xEC] + Le(Unsigned32(p.size), 4) else [0x48, 0x83, 0xEC, p.size % 0x100]
  }

  function MovBytes(p: Shape): bytes {
    if p.storeForm then [0x48, 0x89, 0xE5] else [0x48, 0x8B, 0xEC]
  }

  function ShapeBytes(p: Shape): bytes
    requires ShapeOk(p)
  {
    [0x55] + PushesBytes(p.pushes) + SubBytes(p) + MovBytes(p)
  }

  // ----- What running them does --------------------------------------------------------------------------

  lemma MovedTwice(a: u64, d: int, e: int)
    ensures Moved(Moved(a, d), e) == Moved(a, d + e)
  {
    var x: int := a;
    var q := (x + d) / WORD64;
    var y: int := Moved(a, d);
    assert x + d == q * WORD64 + y;
    var r := (y + e) / WORD64;
    assert y + e == r * WORD64 + (y + e) % WORD64;
    assert x + d + e == (q + r) * WORD64 + (y + e) % WORD64;
  }

  /** The pushes move `rsp` down a word each, and write only below where it was. */
  lemma {:induction false} PushesRun(regs: seq<nat>, rest: bytes, s: State) returns (t: State)
    requires StateOk(s) && forall i | 0 <= i < |regs| :: regs[i] < 16
    ensures StateOk(t) && Run(PushesBytes(regs) + rest, s) == Run(rest, t)
    ensures t.regs == s.regs[RSP := Moved(s.regs[RSP], -8 * |regs|)]
    ensures forall d: nat | d + 8 * |regs| < WORD64 :: Kept(s, t, Moved(s.regs[RSP], d))
    decreases |regs|
  {
    hide Run;
    if regs == [] {
      assert PushesBytes(regs) + rest == rest;
      t := s;
      MovedTwice(s.regs[RSP], 0, 0);
      assert s.regs[RSP := s.regs[RSP]] == s.regs;
    } else {
      var tail := PushesBytes(regs[1..]) + rest;
      assert PushesBytes(regs) + rest == PushBytes(regs[0]) + tail;
      PushRuns(regs[0], tail, s);
      var u := Execute(Push(regs[0]), s);
      t := PushesRun(regs[1..], rest, u);
      MovedTwice(s.regs[RSP], -8, -8 * |regs[1..]|);
      forall d: nat | d + 8 * |regs| < WORD64 ensures Kept(s, t, Moved(s.regs[RSP], d)) {
        MovedTwice(s.regs[RSP], -8, d + 8);
        assert Kept(u, t, Moved(u.regs[RSP], d + 8));
        NotBelow(s.regs[RSP], d);
      }
    }
  }

  /** The memory at an address is the same in both states. */
  predicate Kept(s: State, t: State, a: u64) {
    (a in s.memory <==> a in t.memory) && (a in s.memory ==> t.memory[a] == s.memory[a])
  }

  lemma NotBelow(a: u64, d: nat)
    requires d + 8 < WORD64
    ensures Moved(a, d) != Moved(a, -8)
  {
    var x: int := a;
    var q, r := (x + d) / WORD64, (x - 8) / WORD64;
    assert x + d == q * WORD64 + (x + d) % WORD64;
    assert x - 8 == r * WORD64 + (x - 8) % WORD64;
  }

  lemma PushRuns(reg: nat, rest: bytes, s: State)
    requires StateOk(s) && reg < 16
    ensures Run(PushBytes(reg) + rest, s) == Run(rest, Execute(Push(reg), s))
  {
    hide Execute, AsSigned, SignedLe;
    var code := PushBytes(reg) + rest;
    assert code[|PushBytes(reg)|..] == rest;
  }

  lemma SubReads(p: Shape, rest: bytes)
    requires ShapeOk(p)
    ensures var code := SubBytes(p) + rest;
            Decode(code) == Some(Decoded(SubRsp(p.size), |SubBytes(p)|)) && SubImmediate(code, 0) == p.size
  {
    hide Le, FromLe, SignedLe, Unsigned32;
    var code := SubBytes(p) + rest;
    if p.wide {
      var word := Le(Unsigned32(p.size), 4);
      assert code[..3] == [0x48, 0x81, 0xEC] && code[3..7] == code[0 + 3..0 + 7] == word;
      SignedLeReads(p.size);
    } else {
      assert code[..3] == [0x48, 0x83, 0xEC];
    }
  }

  lemma MovRuns(p: Shape, s: State)
    requires StateOk(s)
    ensures Run(MovBytes(p), s) == Some(Execute(MovRbpRsp, s))
  {
    hide Execute, AsSigned, SignedLe;
    var code := MovBytes(p);
    assert code[..3] == code && code[3..] == [];
  }

  /** Behind the prologue, `rbp` is the entry `rsp` less the saved `rbp`, the other pushes and the frame. */
  lemma PrologueRuns(p: Shape, s: State) returns (t: State)
    requires ShapeOk(p) && StateOk(s)
    ensures StateOk(t) && Run(ShapeBytes(p), s) == Some(t)
    ensures t.regs[RBP] == t.regs[RSP] == Moved(s.regs[RSP], -8 - 8 * |p.pushes| - p.size)
    ensures forall d: nat | d + 8 * |p.pushes| + 8 < WORD64 :: Kept(s, t, Moved(s.regs[RSP], d))
  {
    hide Run, Decode;
    var sub, mov := SubBytes(p), MovBytes(p);
    assert [RBP][1..] == [];
    assert [RBP] + p.pushes == [RBP] + ([RBP] + p.pushes)[1..];
    var all := [RBP] + p.pushes;
    assert PushesBytes(all) == [0x55] + PushesBytes(p.pushes);
    assert ShapeBytes(p) == PushesBytes(all) + (sub + mov);
    var u := PushesRun(all, sub + mov, s);
    SubRuns(p, mov, u);
    var v := Execute(SubRsp(p.size), u);
    MovRuns(p, v);
    t := Execute(MovRbpRsp, v);
    MovedTwice(s.regs[RSP], -8 * |all|, -p.size);
  }

  lemma SubRuns(p: Shape, rest: bytes, s: State)
    requires ShapeOk(p) && StateOk(s)
    ensures Run(SubBytes(p) + rest, s) == Run(rest, Execute(SubRsp(p.size), s))
  {
    hide Execute, Decode, SubBytes;
    SubReads(p, rest);
    After(SubBytes(p), rest);
  }

  // ----- What the decoder makes of them -------------------------------------------------------------------

  lemma PushLengthAt(pre: bytes, reg: nat, rest: bytes)
    requires reg < 16
    ensures PushLength(pre + PushBytes(reg) + rest, |pre|) == |PushBytes(reg)| > 0
    ensures (pre + PushBytes(reg) + rest)[|pre|] != 0x48
  {
    var code := pre + PushBytes(reg) + rest;
    assert code[|pre|] == PushBytes(reg)[0];
    assert reg >= 8 ==> code[|pre| + 1] == PushBytes(reg)[1];
  }

  lemma {:induction false} RunOfPushes(pre: bytes, regs: seq<nat>, rest: bytes, n: nat)
    requires (forall i | 0 <= i < |regs| :: regs[i] < 16) && |rest| > 0 && rest[0] == 0x48
    ensures var code := pre + PushesBytes(regs) + rest;
            if |regs| <= n then PushRun(code, |pre|, n) == (|pre| + |PushesBytes(regs)|, |regs|)
            else var r := PushRun(code, |pre|, n); r.1 == n && r.0 < |code| && code[r.0] != 0x48
    decreases n
  {
    hide PushRun, PushLength, PushBytes;
    var code := pre + PushesBytes(regs) + rest;
    PushRunStep(code, |pre|, n);
    if regs == [] {
      assert code[|pre|] == rest[0];
      assert PushLength(code, |pre|) == 0 by { NoPush(code, |pre|); }
    } else {
      var tail := PushesBytes(regs[1..]) + rest;
      assert code == pre + PushBytes(regs[0]) + tail;
      PushLengthAt(pre, regs[0], tail);
      if n > 0 {
        var here := pre + PushBytes(regs[0]);
        assert code == here + PushesBytes(regs[1..]) + rest;
        RunOfPushes(here, regs[1..], rest, n - 1);
      }
    }
  }

  lemma NoPush(code: bytes, i: nat)
    requires i < |code| && code[i] == 0x48
    ensures PushLength(code, i) == 0
  {
  }

  lemma SubImmediateFrom(pre: bytes, code: bytes)
    ensures SubImmediate(pre + code, |pre|) == SubImmediate(code, 0)
  {
    hide AsSigned, SignedLe;
    var all := pre + code;
    assert forall k | 0 <= k < |code| :: all[|pre| + k] == code[k];
    if |code| >= 7 {
      assert all[|pre| + 3..|pre| + 7] == code[0 + 3..0 + 7];
    }
    if |code| >= 4 {
      assert all[|pre| + 0] == code[0] && all[|pre| + 1] == code[1] && all[|pre| + 2] == code[2]
      && all[|pre| + 3] == code[3];
    }
  }

  /** The decoder finds the number of pushes and the frame size exactly if there are at most sixteen pushes.
      Of more it counts sixteen and takes the frame for empty. */
  lemma PrologueDecodes(p: Shape, rest: bytes)
    requires ShapeOk(p)
    ensures var r := PrologueOf(ShapeBytes(p) + rest);
            && ((r.subRsp == p.size && r.extraPushes == |p.pushes|) <==> |p.pushes| <= MAX_PUSHES)
            && (|p.pushes| > MAX_PUSHES ==> r == ParsedPrologue(0, MAX_PUSHES))
  {
    hide SubImmediate, PushRun, AsSigned, SignedLe, Le;
    var code := ShapeBytes(p) + rest;
    var tail := SubBytes(p) + (MovBytes(p) + rest);
    assert code == [0x55] + PushesBytes(p.pushes) + tail;
    RunOfPushes([0x55], p.pushes, tail, MAX_PUSHES);
    NoImmediate(code, PushRun(code, 1, MAX_PUSHES).0);
    SubImmediateFrom([0x55] + PushesBytes(p.pushes), tail);
    SubReads(p, MovBytes(p) + rest);
  }

  /** Code that is shorter than five bytes has no prologue, whatever it is, and neither has code that does not start
      with `push rbp`. Five bytes are enough: `push rbp` and four times `push rbx`. */
  lemma ShortCode(code: bytes)
    ensures |code| < 5 || code[0] != 0x55 ==> PrologueOf(code) == ParsedPrologue(0, 0)
    ensures code == [0x55, 0x53, 0x53, 0x53, 0x53] ==> PrologueOf(code) == ParsedPrologue(0, 4)
  {
    if code == [0x55, 0x53, 0x53, 0x53, 0x53] {
      hide PushRun, SubImmediate;
      PushRunStep(code, 1, 16);
      PushRunStep(code, 2, 15);
      PushRunStep(code, 3, 14);
      PushRunStep(code, 4, 13);
      PushRunStep(code, 5, 12);
      assert SubImmediate(code, 5) == 0 by { NothingBehind(code, 5); }
    }
  }

  lemma NothingBehind(code: bytes, i: nat)
    ensures i + 3 >= |code| ==> SubImmediate(code, i) == 0
  {
  }

  lemma NoImmediate(code: bytes, i: nat)
    ensures i < |code| && code[i] != 0x48 ==> SubImmediate(code, i) == 0
  {
  }

  /** Seventeen times `push rbx` and a frame of 32 bytes: the frame is lost. */
  lemma SeventeenPushes(rest: bytes)
    ensures var p := Shape(seq(17, _ => 3), 0x20, false, false);
            ShapeOk(p) && PrologueOf(ShapeBytes(p) + rest) == ParsedPrologue(0, 16)
  {
    PrologueDecodes(Shape(seq(17, _ => 3), 0x20, false, false), rest);
  }
}
