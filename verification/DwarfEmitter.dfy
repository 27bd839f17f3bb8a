/** The DWARF v5 emitter: one compile unit per model unit with line entries. Its sections, read
    back by an independent reader, describe the model they were emitted from. */
module DwarfEmitter {
  import opened Bytes
  import opened DwarfForms
  import opened Model
  import opened DieReader
  import opened DieWriter
  import opened AbbrevWriter
  import opened DwarfReader
  import opened TypeDies
  import LineReader
  import LineWriter

  const LANG_PASCAL83 := 0x0009

  // ----- Address ranges ------------------------------------------------------------------

  datatype AddressRange = AddressRange(lo: u64, hi: u64)

  /** The addresses `cuRange` absorbs, in order: line entries, then function symbols. */
  function Absorbed(cu: CompileUnit): seq<u64> {
    LineAddresses(cu.lines) + FunctionAddresses(cu.symbols)
  }

  function LineAddresses(lines: seq<LineEntry>): (r: seq<u64>)
    ensures |r| == |lines|
  {
    seq(|lines|, i requires 0 <= i < |lines| => lines[i].address)
  }

  function FunctionAddresses(symbols: seq<Symbol>): seq<u64> {
    if symbols == [] then []
    else
      var last := symbols[|symbols| - 1];
      FunctionAddresses(symbols[..|symbols| - 1]) + if last.kind == Function then [last.address] else []
  }

  /** The least and greatest of the nonzero addresses; (0, 0) when there are none. */
  predicate IsRangeOf(addresses: seq<u64>, r: AddressRange) {
    if forall a <- addresses :: a == 0 then r == AddressRange(0, 0)
    else
      && r.lo in addresses && r.hi in addresses && 0 < r.lo
      && forall a <- addresses :: a != 0 ==> r.lo <= a <= r.hi
  }

  function Absorb(r: AddressRange, first: bool, a: u64): (AddressRange, bool) {
    if a == 0 then (r, first)
    else if first then (AddressRange(a, a), false)
    else (AddressRange(if a < r.lo then a else r.lo, if a > r.hi then a else r.hi), false)
  }

  predicate Absorbing(addresses: seq<u64>, r: AddressRange, first: bool) {
    IsRangeOf(addresses, r) && (first <==> forall a <- addresses :: a == 0)
  }

  lemma AbsorbOne(addresses: seq<u64>, r: AddressRange, first: bool, a: u64)
    requires Absorbing(addresses, r, first)
    ensures var (r1, first1) := Absorb(r, first, a);
            Absorbing(addresses + [a], r1, first1)
  {
    var all := addresses + [a];
    assert all[|addresses|] == a;
    assert forall b <- addresses :: b in all;
    assert forall b <- all :: b in addresses || b == a;
  }

  method CuRange(cu: CompileUnit) returns (r: AddressRange)
    ensures IsRangeOf(Absorbed(cu), r)
  {
    hide Absorbing, Absorb;
    r := AddressRange(0, 0);
    var first := true;
    AbsorbNone();
    assert LineAddresses(cu.lines[..0]) == [];
    for i := 0 to |cu.lines|
      invariant Absorbing(LineAddresses(cu.lines[..i]), r, first)
    {
      AbsorbOne(LineAddresses(cu.lines[..i]), r, first, cu.lines[i].address);
      assert LineAddresses(cu.lines[..i + 1]) == LineAddresses(cu.lines[..i]) + [cu.lines[i].address];
      var (r1, first1) := Absorb(r, first, cu.lines[i].address);
      r, first := r1, first1;
    }
    assert cu.lines[..|cu.lines|] == cu.lines;
    ghost var lines := LineAddresses(cu.lines);
    assert lines + FunctionAddresses(cu.symbols[..0]) == lines;
    for i := 0 to |cu.symbols|
      invariant Absorbing(lines + FunctionAddresses(cu.symbols[..i]), r, first)
    {
      var sym := cu.symbols[i];
      assert cu.symbols[..i + 1][..i] == cu.symbols[..i];
      if sym.kind == Function {
        AbsorbOne(lines + FunctionAddresses(cu.symbols[..i]), r, first, sym.address);
        assert lines + FunctionAddresses(cu.symbols[..i + 1])
        == lines + FunctionAddresses(cu.symbols[..i]) + [sym.address];
        var (r1, first1) := Absorb(r, first, sym.address);
        r, first := r1, first1;
      } else {
        assert FunctionAddresses(cu.symbols[..i + 1]) == FunctionAddresses(cu.symbols[..i]);
      }
    }
    assert cu.symbols[..|cu.symbols|] == cu.symbols;
    AbsorbedAll(Absorbed(cu), r, first);
  }

  lemma AbsorbNone()
    ensures Absorbing([], AddressRange(0, 0), true)
  {
  }

  lemma AbsorbedAll(addresses: seq<u64>, r: AddressRange, first: bool)
    requires Absorbing(addresses, r, first)
    ensures IsRangeOf(addresses, r)
  {
  }

  /** The least symbol address above `address`, if that is below `bound`. */
  function NextAddress(symbols: seq<Symbol>, address: u64, bound: u64): (best: u64)
    ensures best <= bound
    ensures forall s <- symbols :: s.address > address ==> best <= s.address
    ensures best == bound || exists s <- symbols :: s.address == best > address
  {
    if symbols == [] then bound
    else
      var last := symbols[|symbols| - 1];
      var best := NextAddress(symbols[..|symbols| - 1], address, bound);
      assert symbols == symbols[..|symbols| - 1] + [last];
      if last.address > address && last.address < best then last.address else best
  }

  function Wrap64(a: nat): u64 {
    a % 0x1_0000_0000_0000_0000
  }

  const TWO_TO_64 := 0x1_0000_0000_0000_0000

  /** A range from `address` in a unit that ends at `high`: it ends at the unit's end or at a symbol, and no symbol
      lies within it. From an address that the unit does not end behind, it is one byte. */
  ghost predicate EndsAt(symbols: seq<Symbol>, address: nat, high: nat, end: nat) {
    if address < high then
      && address < end <= high && (end == high || exists s <- symbols :: s.address == end)
      && forall s <- symbols :: s.address <= address || end <= s.address
    else end == (address + 1) % TWO_TO_64
  }

  /** Where a symbol's range ends: at the next symbol of the unit, or at the unit's own end. */
  function SymbolEnd(symbols: seq<Symbol>, address: u64, cuHigh: u64): (end: u64)
    ensures EndsAt(symbols, address, cuHigh, end)
  {
    var best := NextAddress(symbols, address, cuHigh);
    if best > address then best else Wrap64(address + 1)
  }

  method ComputeSymbolEnd(cu: CompileUnit, sym: Symbol, cuHigh: u64) returns (end: u64)
    ensures end == SymbolEnd(cu.symbols, sym.address, cuHigh) && EndsAt(cu.symbols, sym.address, cuHigh, end)
  {
    hide NextAddress;
    var best := cuHigh;
    NoNext(sym.address, cuHigh);
    assert cu.symbols[..0] == [];
    for i := 0 to |cu.symbols|
      invariant best == NextAddress(cu.symbols[..i], sym.address, cuHigh)
    {
      NextStep(cu.symbols, i, sym.address, cuHigh);
      var other := cu.symbols[i];
      if other.address > sym.address && other.address < best {
        best := other.address;
      }
    }
    assert cu.symbols[..|cu.symbols|] == cu.symbols;
    end := if best > sym.address then best else Wrap64(sym.address + 1);
  }

  lemma NoNext(address: u64, bound: u64)
    ensures NextAddress([], address, bound) == bound
  {
  }

  lemma NextStep(symbols: seq<Symbol>, i: nat, address: u64, bound: u64)
    requires i < |symbols|
    ensures var best, other := NextAddress(symbols[..i], address, bound), symbols[i].address;
            NextAddress(symbols[..i + 1], address, bound) == if other > address && other < best then other else best
  {
    assert symbols[..i + 1][..i] == symbols[..i];
  }

  // ----- What a unit must read back as -------------------------------------------------------

  function ExpectedVar(mod: Module, v: LocalVar, isParam: bool): StackVar {
    StackVar(isParam, v.name, Meaning(mod, v.ty), v.stackOffset)
  }

  function ExpectedVars(mod: Module, vs: seq<LocalVar>, isParam: bool): (r: seq<StackVar>)
    ensures |r| == |vs|
  {
    seq(|vs|, i requires 0 <= i < |vs| => ExpectedVar(mod, vs[i], isParam))
  }

  /** A function in the unit's range, or a variable; other symbols are not described. */
  function ExpectedEntities(mod: Module, cu: CompileUnit, r: AddressRange, sym: Symbol): seq<Entity> {
    match sym.kind
    case Function =>
      if sym.address < r.lo || sym.address > r.hi then []
      else [Func(sym.name, sym.address, SymbolEnd(cu.symbols, sym.address, Wrap64(r.hi + 1)),
                 ExpectedVars(mod, sym.params, true) + ExpectedVars(mod, sym.locals, false))]
    case Variable => [Var(sym.name, sym.address, Meaning(mod, sym.ty))]
    case Unknown => []
  }

  function AllExpected(mod: Module, cu: CompileUnit, r: AddressRange, symbols: seq<Symbol>): seq<Entity> {
    if symbols == [] then []
    else ExpectedEntities(mod, cu, r, symbols[0]) + AllExpected(mod, cu, r, symbols[1..])
  }

  /** Functions in the unit's range and all variables are described. */
  predicate IsDescribed(sym: Symbol, r: AddressRange) {
    sym.kind == Variable || (sym.kind == Function && r.lo <= sym.address <= r.hi)
  }

  /** What is read for a symbol of a unit that ends at `high`. */
  ghost predicate Describes(e: Entity, mod: Module, symbols: seq<Symbol>, high: nat, sym: Symbol) {
    if sym.kind == Function then
      && e.Func? && e.name == sym.name && e.low == sym.address && EndsAt(symbols, sym.address, high, e.high)
      && |e.vars| == |sym.params| + |sym.locals|
      && (forall i | 0 <= i < |sym.params| ::
            e.vars[i] == StackVar(true, sym.params[i].name, Meaning(mod, sym.params[i].ty), sym.params[i].stackOffset))
      && forall i | 0 <= i < |sym.locals| ::
           e.vars[|sym.params| + i]
           == StackVar(false, sym.locals[i].name, Meaning(mod, sym.locals[i].ty), sym.locals[i].stackOffset)
    else e == Var(sym.name, sym.address, Meaning(mod, sym.ty))
  }

  ghost predicate Ascending(ids: seq<nat>) {
    forall k, l | 0 <= k < l < |ids| :: ids[k] < ids[l]
  }

  /** Entity `k` is that of symbol `ids[k]`. */
  ghost predicate EachDescribes(es: seq<Entity>, mod: Module, cu: CompileUnit, r: AddressRange, high: nat, ids: seq<nat>,
                                i: nat) {
    |ids| == |es| && forall k | 0 <= k < |ids| ::
      i <= ids[k] < |cu.symbols| && IsDescribed(cu.symbols[ids[k]], r)
      && Describes(es[k], mod, cu.symbols, high, cu.symbols[ids[k]])
  }

  ghost predicate AllDescribed(cu: CompileUnit, r: AddressRange, ids: seq<nat>, i: nat) {
    forall j: nat | i <= j < |cu.symbols| && IsDescribed(cu.symbols[j], r) :: j in ids
  }

  /** One entity for each described symbol from index `i` on, in order. */
  ghost predicate EntitiesFor(es: seq<Entity>, mod: Module, cu: CompileUnit, r: AddressRange, high: nat, ids: seq<nat>,
                              i: nat) {
    Ascending(ids) && EachDescribes(es, mod, cu, r, high, ids, i) && AllDescribed(cu, r, ids, i)
  }

  ghost predicate UnitMatches(u: UnitInfo, mod: Module, cu: CompileUnit, producer: bytes) {
    var split := SplitPath(cu.sourcePath);
    && u.producer == producer && u.language == 0x09
    && u.name == split.file && u.dir == split.dir
    && LineWriter.LineUnitMatches(u.lines, cu)
    && exists r, ids :: IsRangeOf(Absorbed(cu), r) && u.low == r.lo && u.high == (r.hi + 1) % TWO_TO_64
                        && EntitiesFor(u.entities, mod, cu, r, u.high, ids, 0)
  }

  lemma ExpectedDescribes(mod: Module, cu: CompileUnit, r: AddressRange, sym: Symbol)
    ensures var es := ExpectedEntities(mod, cu, r, sym);
            if IsDescribed(sym, r) then |es| == 1 && Describes(es[0], mod, cu.symbols, Wrap64(r.hi + 1), sym) else es == []
  {
    hide SymbolEnd, EndsAt, Meaning, Wrap64;
  }

  lemma OneMoreEntity(e: Entity, es: seq<Entity>, mod: Module, cu: CompileUnit, r: AddressRange, high: nat,
                      ids: seq<nat>, i: nat)
    requires i < |cu.symbols| && EntitiesFor(es, mod, cu, r, high, ids, i + 1)
    requires IsDescribed(cu.symbols[i], r) && Describes(e, mod, cu.symbols, high, cu.symbols[i])
    ensures EntitiesFor([e] + es, mod, cu, r, high, [i] + ids, i)
  {
    OneMoreDescribed(cu, r, ids, i);
    OneMoreMatch(e, es, mod, cu, r, high, ids, i);
    assert forall k | 0 <= k < |ids| :: i < ids[k];
    hide *;
    OneMoreBelow(ids, i);
  }

  lemma OneMoreBelow(ids: seq<nat>, i: nat)
    requires Ascending(ids) && forall k | 0 <= k < |ids| :: i < ids[k]
    ensures Ascending([i] + ids)
  {
  }

  lemma OneMoreMatch(e: Entity, es: seq<Entity>, mod: Module, cu: CompileUnit, r: AddressRange, high: nat,
                     ids: seq<nat>, i: nat)
    requires i < |cu.symbols| && EachDescribes(es, mod, cu, r, high, ids, i + 1)
    requires IsDescribed(cu.symbols[i], r) && Describes(e, mod, cu.symbols, high, cu.symbols[i])
    ensures EachDescribes([e] + es, mod, cu, r, high, [i] + ids, i)
  {
    hide IsDescribed, Describes;
  }

  lemma OneMoreDescribed(cu: CompileUnit, r: AddressRange, ids: seq<nat>, i: nat)
    requires AllDescribed(cu, r, ids, i + 1)
    ensures AllDescribed(cu, r, [i] + ids, i)
  {
    hide IsDescribed;
    forall j: nat | i <= j < |cu.symbols| && IsDescribed(cu.symbols[j], r) ensures j in [i] + ids {
      assert j == i || j in ids;
    }
  }

  lemma NoEntityHere(es: seq<Entity>, mod: Module, cu: CompileUnit, r: AddressRange, high: nat, ids: seq<nat>, i: nat)
    requires i < |cu.symbols| && EntitiesFor(es, mod, cu, r, high, ids, i + 1) && !IsDescribed(cu.symbols[i], r)
    ensures EntitiesFor(es, mod, cu, r, high, ids, i)
  {
    hide IsDescribed, Describes;
  }

  lemma {:induction false} ExpectedFrom(mod: Module, cu: CompileUnit, r: AddressRange, i: nat) returns (ids: seq<nat>)
    requires i <= |cu.symbols|
    ensures EntitiesFor(AllExpected(mod, cu, r, cu.symbols[i..]), mod, cu, r, Wrap64(r.hi + 1), ids, i)
    decreases |cu.symbols| - i
  {
    hide ExpectedEntities, Describes, IsDescribed, Wrap64;
    ids := [];
    if i < |cu.symbols| {
      hide EntitiesFor;
      ids := ExpectedFrom(mod, cu, r, i + 1);
      assert cu.symbols[i..][1..] == cu.symbols[i + 1..];
      ExpectedDescribes(mod, cu, r, cu.symbols[i]);
      var here, es := ExpectedEntities(mod, cu, r, cu.symbols[i]), AllExpected(mod, cu, r, cu.symbols[i + 1..]);
      if IsDescribed(cu.symbols[i], r) {
        OneMoreEntity(here[0], es, mod, cu, r, Wrap64(r.hi + 1), ids, i);
        assert here == [here[0]];
        ids := [i] + ids;
      } else {
        NoEntityHere(es, mod, cu, r, Wrap64(r.hi + 1), ids, i);
        assert here + es == es;
      }
    }
  }

  lemma ExpectedMatches(mod: Module, cu: CompileUnit, r: AddressRange) returns (ids: seq<nat>)
    ensures EntitiesFor(AllExpected(mod, cu, r, cu.symbols), mod, cu, r, (r.hi + 1) % TWO_TO_64, ids, 0)
  {
    hide EntitiesFor, AllExpected;
    ids := ExpectedFrom(mod, cu, r, 0);
    assert cu.symbols[0..] == cu.symbols;
  }

  // ----- What a debugger finds at an address ------------------------------------------------------------

  lemma FunctionAbsorbed(symbols: seq<Symbol>, i: nat)
    requires i < |symbols| && symbols[i].kind == Function
    ensures symbols[i].address in FunctionAddresses(symbols)
  {
    if i < |symbols| - 1 {
      FunctionAbsorbed(symbols[..|symbols| - 1], i);
    }
  }

  lemma EntityAt(es: seq<Entity>, mod: Module, cu: CompileUnit, r: AddressRange, high: nat, ids: seq<nat>, k: nat)
    requires EntitiesFor(es, mod, cu, r, high, ids, 0) && k < |es|
    ensures k < |ids| && ids[k] < |cu.symbols| && IsDescribed(cu.symbols[ids[k]], r)
    ensures Describes(es[k], mod, cu.symbols, high, cu.symbols[ids[k]])
  {
    hide IsDescribed, Describes;
  }

  lemma DescribedAt(es: seq<Entity>, mod: Module, cu: CompileUnit, r: AddressRange, high: nat, ids: seq<nat>, i: nat)
    returns (k: nat)
    requires EntitiesFor(es, mod, cu, r, high, ids, 0) && i < |cu.symbols| && IsDescribed(cu.symbols[i], r)
    ensures k < |es| && Describes(es[k], mod, cu.symbols, high, cu.symbols[i])
  {
    hide IsDescribed, Describes;
    assert i in ids;
    k :| 0 <= k < |ids| && ids[k] == i;
  }

  /** Every address between the nearest symbol below it, if that is a function, and the end of the unit lies in the
      range that is read for that function. */
  lemma NearestFunctionFound(u: UnitInfo, mod: Module, cu: CompileUnit, producer: bytes, i: nat, a: nat)
    requires UnitMatches(u, mod, cu, producer) && i < |cu.symbols|
    requires cu.symbols[i].kind == Function && 0 < cu.symbols[i].address <= a < u.high
    requires forall s <- cu.symbols :: s.address <= a ==> s.address <= cu.symbols[i].address
    ensures exists e <- u.entities ::
              e.Func? && e.name == cu.symbols[i].name && e.low == cu.symbols[i].address && e.low <= a < e.high
  {
    hide Meaning, SplitPath, EntitiesFor, LineWriter.LineUnitMatches, FunctionAddresses, LineAddresses;
    var r, ids :| IsRangeOf(Absorbed(cu), r) && u.low == r.lo && u.high == (r.hi + 1) % TWO_TO_64
                  && EntitiesFor(u.entities, mod, cu, r, u.high, ids, 0);
    FunctionAbsorbed(cu.symbols, i);
    assert cu.symbols[i].address in Absorbed(cu);
    hide Absorbed;
    var k := DescribedAt(u.entities, mod, cu, r, u.high, ids, i);
    assert u.entities[k] in u.entities;
  }

  /** The range that is read for a function starts at a symbol of the unit, within the unit. */
  lemma FunctionRange(u: UnitInfo, mod: Module, cu: CompileUnit, producer: bytes, e: Entity)
    requires UnitMatches(u, mod, cu, producer) && e in u.entities && e.Func?
    ensures EndsAt(cu.symbols, e.low, u.high, e.high) && u.low <= e.low && (u.high != 0 ==> e.low < u.high)
    ensures exists s <- cu.symbols :: s.address == e.low
  {
    hide Meaning, SplitPath, IsRangeOf, Absorbed, EndsAt, EntitiesFor, LineWriter.LineUnitMatches;
    var r, ids :| IsRangeOf(Absorbed(cu), r) && u.low == r.lo && u.high == (r.hi + 1) % TWO_TO_64
                  && EntitiesFor(u.entities, mod, cu, r, u.high, ids, 0);
    var k :| 0 <= k < |u.entities| && u.entities[k] == e;
    EntityAt(u.entities, mod, cu, r, u.high, ids, k);
    assert cu.symbols[ids[k]] in cu.symbols;
  }

  /** And it lies in no other function's: ranges of functions at different addresses do not overlap. */
  lemma FunctionRanges(u: UnitInfo, mod: Module, cu: CompileUnit, producer: bytes, e: Entity, f: Entity)
    requires UnitMatches(u, mod, cu, producer) && u.high != 0
    requires e in u.entities && f in u.entities && e.Func? && f.Func? && e.low < f.low
    ensures u.low <= e.low < e.high <= f.low < f.high <= u.high
  {
    hide UnitMatches;
    FunctionRange(u, mod, cu, producer, e);
    FunctionRange(u, mod, cu, producer, f);
  }

  predicate VarsOk(vs: seq<LocalVar>) {
    forall i | 0 <= i < |vs| :: NoNul(vs[i].name)
  }

  /** What the emitter needs of a unit: names without NUL, valid type ids, arrays one level deep. */
  ghost predicate CuOk(mod: Module, cu: CompileUnit) {
    && NoNul(cu.sourcePath)
    && (forall i | 0 <= i < |cu.symbols| ::
          NoNul(cu.symbols[i].name) && VarsOk(cu.symbols[i].params) && VarsOk(cu.symbols[i].locals))
    && AllUsable(mod, ReferencedTypes(cu.symbols))
  }

  // ----- Nodes of symbols ----------------------------------------------------------------------

  function LocalNode(v: LocalVar, code: nat, offs: TypeOffsets): Node {
    Node(code, [Text(v.name), RefAddr(RefOf(offs, v.ty)), Expr([OP_FBREG] + Sleb(v.stackOffset))], false, [])
  }

  function LocalNodes(vs: seq<LocalVar>, code: nat, offs: TypeOffsets): seq<Node> {
    if vs == [] then [] else [LocalNode(vs[0], code, offs)] + LocalNodes(vs[1..], code, offs)
  }

  function KidNodes(sym: Symbol, offs: TypeOffsets): seq<Node> {
    LocalNodes(sym.params, ABBREV_FORMAL_PARAMETER, offs) + LocalNodes(sym.locals, ABBREV_LOCAL_VARIABLE, offs)
  }

  function FunctionNode(sym: Symbol, end: u64, offs: TypeOffsets): Node {
    if sym.params == [] && sym.locals == [] then
      Node(ABBREV_SUBPROGRAM, [Text(sym.name), Addr(sym.address), Addr(end), Flag(1)], false, [])
    else
      Node(ABBREV_SUBPROGRAM_WITH_KIDS,
           [Text(sym.name), Addr(sym.address), Addr(end), Flag(1), Expr([OP_BREG6] + Sleb(0))], true, KidNodes(sym, offs))
  }

  function VariableNode(sym: Symbol, offs: TypeOffsets): Node {
    var location := Expr([OP_ADDR] + Le(sym.address, 8));
    var ref := RefOf(offs, sym.ty);
    if ref != 0 then Node(ABBREV_TYPED_VARIABLE, [Text(sym.name), location, RefAddr(ref), Flag(1)], false, [])
    else Node(ABBREV_VARIABLE, [Text(sym.name), location, Flag(1)], false, [])
  }

  function SymbolNodes(cu: CompileUnit, r: AddressRange, sym: Symbol, offs: TypeOffsets): seq<Node> {
    match sym.kind
    case Function =>
      if sym.address < r.lo || sym.address > r.hi then []
      else [FunctionNode(sym, SymbolEnd(cu.symbols, sym.address, Wrap64(r.hi + 1)), offs)]
    case Variable => [VariableNode(sym, offs)]
    case Unknown => []
  }

  function AllSymbolNodes(cu: CompileUnit, r: AddressRange, symbols: seq<Symbol>, offs: TypeOffsets): seq<Node> {
    if symbols == [] then []
    else SymbolNodes(cu, r, symbols[0], offs) + AllSymbolNodes(cu, r, symbols[1..], offs)
  }

  // ----- They are declared, and read back as the symbols -----------------------------------------

  lemma FormsOfStep(v: Val, vs: seq<Val>)
    ensures FormsOf([v] + vs) == [FormOf(v)] + FormsOf(vs)
  {
    assert ([v] + vs)[1..] == vs;
  }

  lemma FormsOf4(vs: seq<Val>)
    requires |vs| == 4
    ensures FormsOf(vs) == [FormOf(vs[0]), FormOf(vs[1]), FormOf(vs[2]), FormOf(vs[3])]
  {
    hide FormOf;
    FormsOfStep(vs[0], vs[1..]);
    FormsOf3(vs[1..]);
    assert [vs[0]] + vs[1..] == vs;
  }

  lemma FormsOf5(vs: seq<Val>)
    requires |vs| == 5
    ensures FormsOf(vs) == [FormOf(vs[0]), FormOf(vs[1]), FormOf(vs[2]), FormOf(vs[3]), FormOf(vs[4])]
  {
    hide FormOf;
    FormsOfStep(vs[0], vs[1..]);
    FormsOf4(vs[1..]);
    assert [vs[0]] + vs[1..] == vs;
  }

  lemma LocalDeclared(v: LocalVar, code: nat, offs: TypeOffsets)
    requires NoNul(v.name) && (code == ABBREV_FORMAL_PARAMETER || code == ABBREV_LOCAL_VARIABLE)
    ensures NodeDeclared(TABLE, LocalNode(v, code, offs))
  {
    hide TABLE, DECLS, Sleb;
    TableEntries();
    FormsOf3(LocalNode(v, code, offs).vals);
  }

  lemma {:induction false} LocalsDeclared(vs: seq<LocalVar>, code: nat, offs: TypeOffsets)
    requires VarsOk(vs) && (code == ABBREV_FORMAL_PARAMETER || code == ABBREV_LOCAL_VARIABLE)
    ensures Declared(TABLE, LocalNodes(vs, code, offs))
  {
    hide TABLE, DECLS, LocalNode, NodeDeclared;
    if vs != [] {
      LocalDeclared(vs[0], code, offs);
      LocalsDeclared(vs[1..], code, offs);
    }
  }

  /** `DW_OP_fbreg n` gives back `n`; `DW_OP_addr a` gives back `a`. */
  lemma ExprsRead(n: int, a: u64)
    ensures FrameOffset([OP_FBREG] + Sleb(n)) == Some(n)
    ensures FixedAddress([OP_ADDR] + Le(a, 8)) == Some(a)
    ensures Sleb(0) == [0]
  {
    hide ReadSleb, FromLe, Le;
    SlebRoundTrip(n, []);
    assert Sleb(n) + [] == Sleb(n);
    assert ([OP_FBREG] + Sleb(n))[1..] == Sleb(n);
    Pow256Values();
    LeRoundTrip(a, 8);
    SmallMod(a, Pow256(8));
    assert ([OP_ADDR] + Le(a, 8))[1..] == Le(a, 8);
  }

  lemma LocalMeans(mod: Module, dies: seq<Die>, v: LocalVar, code: nat, offs: TypeOffsets, off: nat)
    requires NoNul(v.name) && (code == ABBREV_FORMAL_PARAMETER || code == ABBREV_LOCAL_VARIABLE)
    requires TypeAt(dies, RefOf(offs, v.ty)) == Meaning(mod, v.ty)
    ensures NodeDeclared(TABLE, LocalNode(v, code, offs))
    ensures StackVarOf(dies, LocateNode(TABLE, LocalNode(v, code, offs), off))
         == Some(ExpectedVar(mod, v, code == ABBREV_FORMAL_PARAMETER))
  {
    hide TABLE, DECLS, Sleb, Le, Meaning, TypeAt, AttrFrom, FrameOffset, FixedAddress, FormsOf;
    LocalDeclared(v, code, offs);
    TableEntries();
    var n := LocalNode(v, code, offs);
    AttrAt(FORMAL_PARAMETER.names, n.vals, 0);
    AttrAt(FORMAL_PARAMETER.names, n.vals, 1);
    AttrAt(FORMAL_PARAMETER.names, n.vals, 2);
    ExprsRead(v.stackOffset, 0);
  }

  lemma {:induction false} LocalsMean(mod: Module, dies: seq<Die>, vs: seq<LocalVar>, code: nat, offs: TypeOffsets,
                                      off: nat)
    requires VarsOk(vs) && (code == ABBREV_FORMAL_PARAMETER || code == ABBREV_LOCAL_VARIABLE)
    requires forall i | 0 <= i < |vs| :: TypeAt(dies, RefOf(offs, vs[i].ty)) == Meaning(mod, vs[i].ty)
    ensures Declared(TABLE, LocalNodes(vs, code, offs))
    ensures StackVarsOf(dies, Locate(TABLE, LocalNodes(vs, code, offs), off))
         == Some(ExpectedVars(mod, vs, code == ABBREV_FORMAL_PARAMETER))
  {
    hide TABLE, DECLS, TypeAt, Meaning, LocalNode, NodeDeclared, LocateNode, StackVarOf, ExpectedVar, EncNode;
    LocalsDeclared(vs, code, offs);
    if vs != [] {
      var n := LocalNode(vs[0], code, offs);
      LocalMeans(mod, dies, vs[0], code, offs, off);
      LocalsMean(mod, dies, vs[1..], code, offs, off + |EncNode(n)|);
      var isParam := code == ABBREV_FORMAL_PARAMETER;
      assert ExpectedVars(mod, vs, isParam) == [ExpectedVar(mod, vs[0], isParam)] + ExpectedVars(mod, vs[1..], isParam);
      var ns := LocalNodes(vs, code, offs);
      assert ns[1..] == LocalNodes(vs[1..], code, offs);
    }
  }

  lemma {:induction false} StackVarsConcat(dies: seq<Die>, a: seq<Die>, b: seq<Die>)
    requires StackVarsOf(dies, a).Some? && StackVarsOf(dies, b).Some?
    ensures StackVarsOf(dies, a + b) == Some(StackVarsOf(dies, a).value + StackVarsOf(dies, b).value)
  {
    hide StackVarOf, StackVarsOf;
    StackVarsStep(dies, a);
    StackVarsStep(dies, a + b);
    if a == [] {
      assert a + b == b;
      assert [] + StackVarsOf(dies, b).value == StackVarsOf(dies, b).value;
    } else {
      assert (a + b)[1..] == a[1..] + b;
      StackVarsConcat(dies, a[1..], b);
      var v, vs, ws := StackVarOf(dies, a[0]).value, StackVarsOf(dies, a[1..]).value, StackVarsOf(dies, b).value;
      assert [v] + (vs + ws) == [v] + vs + ws;
    }
  }

  lemma StackVarsStep(dies: seq<Die>, a: seq<Die>)
    ensures StackVarsOf(dies, a)
         == if a == [] then Some([])
            else if StackVarOf(dies, a[0]).None? || StackVarsOf(dies, a[1..]).None? then None
            else Some([StackVarOf(dies, a[0]).value] + StackVarsOf(dies, a[1..]).value)
  {
    hide StackVarOf;
  }

  lemma {:induction false} EntitiesConcat(dies: seq<Die>, a: seq<Die>, b: seq<Die>)
    requires EntitiesOf(dies, a).Some? && EntitiesOf(dies, b).Some?
    ensures EntitiesOf(dies, a + b) == Some(EntitiesOf(dies, a).value + EntitiesOf(dies, b).value)
  {
    hide EntityOf;
    if a == [] {
      assert a + b == b;
      assert [] + EntitiesOf(dies, b).value == EntitiesOf(dies, b).value;
    } else {
      assert (a + b)[1..] == a[1..] + b;
      EntitiesConcat(dies, a[1..], b);
      var v, vs, ws := EntityOf(dies, a[0]).value, EntitiesOf(dies, a[1..]).value, EntitiesOf(dies, b).value;
      assert v + (vs + ws) == v + vs + ws;
    }
  }

  /** The type references of a symbol, followed among `dies`, have the meanings of its types. */
  ghost predicate RefsRight(mod: Module, dies: seq<Die>, sym: Symbol, offs: TypeOffsets) {
    forall id <- TypeIdsOf(sym) :: TypeAt(dies, RefOf(offs, id)) == Meaning(mod, id)
  }

  lemma KidsMean(mod: Module, dies: seq<Die>, sym: Symbol, offs: TypeOffsets, off: nat)
    requires sym.kind == Function && VarsOk(sym.params) && VarsOk(sym.locals) && RefsRight(mod, dies, sym, offs)
    ensures Declared(TABLE, KidNodes(sym, offs))
    ensures StackVarsOf(dies, Locate(TABLE, KidNodes(sym, offs), off))
         == Some(ExpectedVars(mod, sym.params, true) + ExpectedVars(mod, sym.locals, false))
  {
    hide TABLE, DECLS, TypeAt, Meaning, LocalNode, NodeDeclared, LocateNode, StackVarOf, ExpectedVar, EncNode,
         ExpectedVars, LocalNodes;
    var ids := TypeIdsOf(sym);
    forall i | 0 <= i < |sym.params| ensures TypeAt(dies, RefOf(offs, sym.params[i].ty)) == Meaning(mod, sym.params[i].ty) {
      assert ids[i] == sym.params[i].ty;
    }
    forall i | 0 <= i < |sym.locals| ensures TypeAt(dies, RefOf(offs, sym.locals[i].ty)) == Meaning(mod, sym.locals[i].ty) {
      assert ids[|sym.params| + i] == sym.locals[i].ty;
    }
    var ps := LocalNodes(sym.params, ABBREV_FORMAL_PARAMETER, offs);
    var ls := LocalNodes(sym.locals, ABBREV_LOCAL_VARIABLE, offs);
    LocalsMean(mod, dies, sym.params, ABBREV_FORMAL_PARAMETER, offs, off);
    LocalsMean(mod, dies, sym.locals, ABBREV_LOCAL_VARIABLE, offs, off + |EncForest(ps)|);
    LocateConcat(TABLE, ps, ls, off);
    StackVarsConcat(dies, Locate(TABLE, ps, off), Locate(TABLE, ls, off + |EncForest(ps)|));
  }

  /** What the DIE of a function has. */
  lemma FunctionAttrs(sym: Symbol, end: u64, offs: TypeOffsets, off: nat)
    requires NodeDeclared(TABLE, FunctionNode(sym, end, offs))
    ensures var n := FunctionNode(sym, end, offs); var d := LocateNode(TABLE, n, off);
            && d.tag == TAG_SUBPROGRAM && TextAttr(d, AT_NAME) == Some(sym.name) && IsExternal(d)
            && NumAttr(d, AT_LOW_PC) == Some(sym.address) && NumAttr(d, AT_HIGH_PC) == Some(end)
            && (n.hasKids ==> ExprAttr(d, AT_FRAME_BASE) == Some([OP_BREG6] + Sleb(0)))
            && Declared(TABLE, n.kids)
            && d.kids == Locate(TABLE, n.kids, off + |Uleb(n.code)| + |EncVals(n.vals)|)
  {
    hide TABLE, DECLS, KidNodes, NodeDeclared, AttrFrom, Locate, Uleb, Sleb, EncVals, CU, UNTYPED_VARIABLE,
         TYPED_VARIABLE, BASE_TYPE, ARRAY_TYPE, SUBRANGE_TYPE, FORMAL_PARAMETER, LOCAL_VARIABLE;
    TableEntries();
    var n := FunctionNode(sym, end, offs);
    DeclaredKids(n);
    var names := TABLE[n.code].names;
    AttrAt(names, n.vals, 0);
    AttrAt(names, n.vals, 1);
    AttrAt(names, n.vals, 2);
    AttrAt(names, n.vals, 3);
    if n.hasKids {
      AttrAt(names, n.vals, 4);
    }
  }

  lemma FunctionMeans(mod: Module, dies: seq<Die>, sym: Symbol, end: u64, offs: TypeOffsets, off: nat)
    requires sym.kind == Function && NoNul(sym.name) && VarsOk(sym.params) && VarsOk(sym.locals)
    requires RefsRight(mod, dies, sym, offs)
    ensures NodeDeclared(TABLE, FunctionNode(sym, end, offs))
    ensures EntityOf(dies, LocateNode(TABLE, FunctionNode(sym, end, offs), off))
         == Some([Func(sym.name, sym.address, end, ExpectedVars(mod, sym.params, true) + ExpectedVars(mod, sym.locals, false))])
  {
    hide TABLE, DECLS, TypeAt, Meaning, KidNodes, NodeDeclared, LocateNode, StackVarsOf, ExpectedVars, Locate, Uleb, Sleb,
         EncVals, TextAttr, NumAttr, ExprAttr, IsExternal, RefsRight, VarsOk, NoNul, Declared;
    FunctionDeclared(sym, end, offs);
    FunctionAttrs(sym, end, offs, off);
    var n := FunctionNode(sym, end, offs);
    var kidsAt := off + |Uleb(n.code)| + |EncVals(n.vals)|;
    if n.hasKids {
      ExprsRead(0, 0);
      assert [OP_BREG6] + Sleb(0) == [OP_BREG6, 0];
      KidsMean(mod, dies, sym, offs, kidsAt);
    } else {
      NoKids(mod, dies, sym, kidsAt);
    }
  }

  lemma DeclaredKids(n: Node)
    requires NodeDeclared(TABLE, n)
    ensures Declared(TABLE, n.kids)
  {
    hide TABLE;
  }

  lemma NoKids(mod: Module, dies: seq<Die>, sym: Symbol, off: nat)
    requires sym.params == [] && sym.locals == []
    ensures StackVarsOf(dies, Locate(TABLE, [], off))
         == Some(ExpectedVars(mod, sym.params, true) + ExpectedVars(mod, sym.locals, false))
    ensures ExpectedVars(mod, sym.params, true) + ExpectedVars(mod, sym.locals, false) == []
  {
    hide TABLE;
    assert ExpectedVars(mod, sym.params, true) + ExpectedVars(mod, sym.locals, false) == [];
  }

  lemma FunctionDeclared(sym: Symbol, end: u64, offs: TypeOffsets)
    requires sym.kind == Function && NoNul(sym.name) && VarsOk(sym.params) && VarsOk(sym.locals)
    ensures NodeDeclared(TABLE, FunctionNode(sym, end, offs))
  {
    hide TABLE, DECLS, Sleb, LocalNodes;
    TableEntries();
    var n := FunctionNode(sym, end, offs);
    if n.hasKids {
      FormsOf5(n.vals);
      LocalsDeclared(sym.params, ABBREV_FORMAL_PARAMETER, offs);
      LocalsDeclared(sym.locals, ABBREV_LOCAL_VARIABLE, offs);
    } else {
      FormsOf4(n.vals);
    }
  }

  /** What the DIE of a variable has. */
  lemma VariableAttrs(sym: Symbol, offs: TypeOffsets, off: nat)
    requires NodeDeclared(TABLE, VariableNode(sym, offs))
    ensures var d := LocateNode(TABLE, VariableNode(sym, offs), off); var ref := RefOf(offs, sym.ty);
            && d.tag == TAG_VARIABLE && TextAttr(d, AT_NAME) == Some(sym.name) && IsExternal(d)
            && ExprAttr(d, AT_LOCATION) == Some([OP_ADDR] + Le(sym.address, 8))
            && NumAttr(d, AT_TYPE) == if ref != 0 then Some(ref) else None
  {
    hide TABLE, DECLS, NodeDeclared, AttrFrom, Locate, Uleb, Le, RefOf, EncVals, CU, SUBPROGRAM, SUBPROGRAM_WITH_KIDS,
         BASE_TYPE, ARRAY_TYPE, SUBRANGE_TYPE, FORMAL_PARAMETER, LOCAL_VARIABLE;
    TableEntries();
    var n := VariableNode(sym, offs);
    var names := TABLE[n.code].names;
    AttrAt(names, n.vals, 0);
    AttrAt(names, n.vals, 1);
    AttrAt(names, n.vals, 2);
    if n.code == ABBREV_TYPED_VARIABLE {
      AttrAt(names, n.vals, 3);
    } else {
      AttrAbsent(names, n.vals, AT_TYPE);
    }
  }

  lemma VariableMeans(mod: Module, dies: seq<Die>, sym: Symbol, offs: TypeOffsets, off: nat)
    requires sym.kind == Variable && NoNul(sym.name) && RefsRight(mod, dies, sym, offs)
    ensures NodeDeclared(TABLE, VariableNode(sym, offs))
    ensures EntityOf(dies, LocateNode(TABLE, VariableNode(sym, offs), off))
            == Some([Var(sym.name, sym.address, Meaning(mod, sym.ty))])
  {
    hide TABLE, DECLS, Meaning, FixedAddress, RefOf, NodeDeclared, LocateNode, TextAttr, NumAttr, ExprAttr, IsExternal,
         VariableNode, Le, FrameOffset, NoNul;
    VariableDeclared(sym, offs);
    VariableAttrs(sym, offs, off);
    ExprsRead(0, sym.address);
    assert sym.ty in TypeIdsOf(sym);
  }

  lemma VariableDeclared(sym: Symbol, offs: TypeOffsets)
    requires NoNul(sym.name)
    ensures NodeDeclared(TABLE, VariableNode(sym, offs))
  {
    hide TABLE, DECLS, Le, RefOf;
    TableEntries();
    var n := VariableNode(sym, offs);
    if n.code == ABBREV_TYPED_VARIABLE {
      FormsOf4(n.vals);
    } else {
      FormsOf3(n.vals);
    }
  }

  ghost predicate SymbolOk(sym: Symbol) {
    NoNul(sym.name) && VarsOk(sym.params) && VarsOk(sym.locals)
  }

  lemma OneLocated(n: Node, off: nat)
    requires NodeDeclared(TABLE, n)
    ensures Locate(TABLE, [n], off) == [LocateNode(TABLE, n, off)]
  {
    hide TABLE, NodeDeclared, LocateNode, EncNode;
    assert [n][1..] == [];
  }

  lemma OneEntity(dies: seq<Die>, d: Die, e: Entity)
    requires EntityOf(dies, d) == Some([e])
    ensures EntitiesOf(dies, [d]) == Some([e])
  {
    hide EntityOf;
    assert [d][1..] == [];
    assert [e] + [] == [e];
  }

  lemma SymbolMeans(mod: Module, dies: seq<Die>, cu: CompileUnit, r: AddressRange, sym: Symbol, offs: TypeOffsets,
                    off: nat)
    requires SymbolOk(sym) && RefsRight(mod, dies, sym, offs)
    ensures Declared(TABLE, SymbolNodes(cu, r, sym, offs))
    ensures EntitiesOf(dies, Locate(TABLE, SymbolNodes(cu, r, sym, offs), off))
            == Some(ExpectedEntities(mod, cu, r, sym))
  {
    hide TABLE, NodeDeclared, LocateNode, FunctionNode, VariableNode, RefsRight, EntityOf, SymbolEnd, Meaning,
         ExpectedVars;
    var ns := SymbolNodes(cu, r, sym, offs);
    if ns != [] {
      var e := ExpectedEntities(mod, cu, r, sym)[0];
      if sym.kind == Function {
        FunctionMeans(mod, dies, sym, SymbolEnd(cu.symbols, sym.address, Wrap64(r.hi + 1)), offs, off);
      } else {
        VariableMeans(mod, dies, sym, offs, off);
      }
      OneLocated(ns[0], off);
      OneEntity(dies, LocateNode(TABLE, ns[0], off), e);
    }
  }

  lemma {:induction false} SymbolsMean(mod: Module, dies: seq<Die>, cu: CompileUnit, r: AddressRange,
                                       symbols: seq<Symbol>, offs: TypeOffsets, off: nat)
    requires forall i | 0 <= i < |symbols| :: SymbolOk(symbols[i]) && RefsRight(mod, dies, symbols[i], offs)
    ensures Declared(TABLE, AllSymbolNodes(cu, r, symbols, offs))
    ensures EntitiesOf(dies, Locate(TABLE, AllSymbolNodes(cu, r, symbols, offs), off))
            == Some(AllExpected(mod, cu, r, symbols))
  {
    hide TABLE, NodeDeclared, SymbolNodes, RefsRight, SymbolOk, ExpectedEntities, LocateNode, EntityOf, EncNode;
    if symbols != [] {
      var a, b := SymbolNodes(cu, r, symbols[0], offs), AllSymbolNodes(cu, r, symbols[1..], offs);
      SymbolMeans(mod, dies, cu, r, symbols[0], offs, off);
      SymbolsMean(mod, dies, cu, r, symbols[1..], offs, off + |EncForest(a)|);
      LocateConcat(TABLE, a, b, off);
      EntitiesConcat(dies, Locate(TABLE, a, off), Locate(TABLE, b, off + |EncForest(a)|));
    }
  }

  /** Type DIEs describe no entity. */
  lemma {:induction false} TypesMean(dies: seq<Die>, nodes: seq<Node>, off: nat)
    requires Declared(TABLE, nodes) && OnlyTypes(nodes)
    ensures EntitiesOf(dies, Locate(TABLE, nodes, off)) == Some([])
  {
    hide TABLE, DECLS, EncNode, Uleb, EncVals;
    if nodes != [] {
      TableEntries();
      TypesMean(dies, nodes[1..], off + |EncNode(nodes[0])|);
      var none: seq<Entity> := [];
      assert none + none == none;
    }
  }

  // ----- Compile units ------------------------------------------------------------------------------

  function CuVals(producer: bytes, file: bytes, dir: bytes, lo: u64, hi: u64, stmtList: u32): seq<Val> {
    [Text(producer), Data2(LANG_PASCAL83), Text(file), Text(dir), Addr(lo), Addr(hi), SecOffset(stmtList)]
  }

  function CuNode(producer: bytes, cu: CompileUnit, r: AddressRange, stmtList: u32, kids: seq<Node>): Node {
    var split := SplitPath(cu.sourcePath);
    Node(ABBREV_CU, CuVals(producer, split.file, split.dir, r.lo, Wrap64(r.hi + 1), stmtList), true, kids)
  }

  lemma CuDeclared(producer: bytes, cu: CompileUnit, r: AddressRange, stmtList: u32, kids: seq<Node>)
    requires NoNul(producer) && NoNul(cu.sourcePath) && Declared(TABLE, kids)
    ensures NodeDeclared(TABLE, CuNode(producer, cu, r, stmtList, kids))
  {
    hide TABLE, DECLS, SplitPath, Wrap64, FormsOf, Declared, Fits, NoNul, FormOf, SUBPROGRAM, UNTYPED_VARIABLE,
         TYPED_VARIABLE, BASE_TYPE, ARRAY_TYPE, SUBRANGE_TYPE, SUBPROGRAM_WITH_KIDS, FORMAL_PARAMETER, LOCAL_VARIABLE;
    TableEntries();
    var split := SplitPath(cu.sourcePath);
    CuForms(producer, split.file, split.dir, r.lo, Wrap64(r.hi + 1), stmtList);
    CuFits(producer, split.file, split.dir, r.lo, Wrap64(r.hi + 1), stmtList);
  }

  lemma CuForms(producer: bytes, file: bytes, dir: bytes, lo: u64, hi: u64, stmtList: u32)
    ensures FormsOf(CuVals(producer, file, dir, lo, hi, stmtList)) == CU.forms
  {
    hide FormsOf;
    var vals := CuVals(producer, file, dir, lo, hi, stmtList);
    FormsOfStep(vals[0], vals[1..]);
    FormsOfStep(vals[1], vals[2..]);
    FormsOf5(vals[2..]);
    assert [vals[0]] + vals[1..] == vals && [vals[1]] + vals[2..] == vals[1..];
  }

  lemma CuFits(producer: bytes, file: bytes, dir: bytes, lo: u64, hi: u64, stmtList: u32)
    requires NoNul(producer) && NoNul(file) && NoNul(dir)
    ensures forall v <- CuVals(producer, file, dir, lo, hi, stmtList) :: Fits(v)
  {
    hide NoNul;
  }

  /** The root DIE of a unit whose children describe `entities` reads as the unit. */
  lemma CuMeans(producer: bytes, cu: CompileUnit, r: AddressRange, stmtList: u32, kids: seq<Node>, off: nat,
                entities: seq<Entity>, line: bytes)
    requires NoNul(producer) && NoNul(cu.sourcePath) && Declared(TABLE, kids)
    requires var dies := Locate(TABLE, kids, off + RootSize(producer, cu, r, stmtList));
             EntitiesOf(dies, dies) == Some(entities)
    requires LineReader.ReadLineUnit(line, stmtList).Some?
    ensures NodeDeclared(TABLE, CuNode(producer, cu, r, stmtList, kids))
    ensures UnitOf(LocateNode(TABLE, CuNode(producer, cu, r, stmtList, kids), off), line)
         == Some(UnitInfo(producer, LANG_PASCAL83, SplitPath(cu.sourcePath).file, SplitPath(cu.sourcePath).dir,
                          r.lo, Wrap64(r.hi + 1), entities, LineReader.ReadLineUnit(line, stmtList).value))
  {
    hide TABLE, DECLS, SplitPath, Wrap64, AttrFrom, Locate, EntitiesOf, LineReader.ReadLineUnit, Uleb, EncVals,
         NodeDeclared;
    CuDeclared(producer, cu, r, stmtList, kids);
    TableEntries();
    var n := CuNode(producer, cu, r, stmtList, kids);
    DeclaredKids(n);
    AttrAt(CU.names, n.vals, 0);
    AttrAt(CU.names, n.vals, 1);
    AttrAt(CU.names, n.vals, 2);
    AttrAt(CU.names, n.vals, 3);
    AttrAt(CU.names, n.vals, 4);
    AttrAt(CU.names, n.vals, 5);
    AttrAt(CU.names, n.vals, 6);
  }

  /** The size of a unit's root DIE up to its first child. */
  function RootSize(producer: bytes, cu: CompileUnit, r: AddressRange, stmtList: u32): nat {
    |Uleb(ABBREV_CU)| + |EncVals(CuNode(producer, cu, r, stmtList, []).vals)|
  }

  /** Type DIEs followed by symbol DIEs, at their offsets, describe the unit's symbols. */
  lemma ChildrenMean(mod: Module, cu: CompileUnit, r: AddressRange, types: seq<Node>, offs: TypeOffsets, base: nat)
    requires CuOk(mod, cu) && Declared(TABLE, types) && OnlyTypes(types)
    requires forall id <- ReferencedTypes(cu.symbols) :: TypeAt(Locate(TABLE, types, base), RefOf(offs, id)) == Meaning(mod, id)
    ensures var kids := types + AllSymbolNodes(cu, r, cu.symbols, offs);
            && Declared(TABLE, kids)
            && EntitiesOf(Locate(TABLE, kids, base), Locate(TABLE, kids, base)) == Some(AllExpected(mod, cu, r, cu.symbols))
  {
    hide TABLE, NodeDeclared, TypeAt, Meaning, Locate, EntitiesOf, AllExpected, AllSymbolNodes, RefOf, NoNul, VarsOk;
    var syms := AllSymbolNodes(cu, r, cu.symbols, offs);
    SymbolsDeclared(mod, cu, r, offs);
    LocateConcat(TABLE, types, syms, base);
    var a, b := Locate(TABLE, types, base), Locate(TABLE, syms, base + |EncForest(types)|);
    var dies := a + b;
    forall i | 0 <= i < |cu.symbols| ensures SymbolOk(cu.symbols[i]) && RefsRight(mod, dies, cu.symbols[i], offs) {
      Referenced(cu.symbols, cu.symbols[i]);
      forall id <- TypeIdsOf(cu.symbols[i]) ensures TypeAt(dies, RefOf(offs, id)) == Meaning(mod, id) {
        MeaningResolved(mod, id);
        TypeAtStable(a, b, RefOf(offs, id));
      }
    }
    TypesMean(dies, types, base);
    SymbolsMean(mod, dies, cu, r, cu.symbols, offs, base + |EncForest(types)|);
    EntitiesConcat(dies, a, b);
    assert [] + AllExpected(mod, cu, r, cu.symbols) == AllExpected(mod, cu, r, cu.symbols);
  }

  lemma SymbolsDeclared(mod: Module, cu: CompileUnit, r: AddressRange, offs: TypeOffsets)
    requires CuOk(mod, cu)
    ensures Declared(TABLE, AllSymbolNodes(cu, r, cu.symbols, offs))
  {
    AllDeclared(cu, r, cu.symbols, offs);
  }

  lemma {:induction false} AllDeclared(cu: CompileUnit, r: AddressRange, symbols: seq<Symbol>, offs: TypeOffsets)
    requires forall i | 0 <= i < |symbols| :: SymbolOk(symbols[i])
    ensures Declared(TABLE, AllSymbolNodes(cu, r, symbols, offs))
  {
    hide TABLE, NodeDeclared, FunctionNode, VariableNode, SymbolEnd;
    if symbols != [] {
      var sym := symbols[0];
      if sym.kind == Function {
        FunctionDeclared(sym, SymbolEnd(cu.symbols, sym.address, Wrap64(r.hi + 1)), offs);
      } else if sym.kind == Variable {
        VariableDeclared(sym, offs);
      }
      AllDeclared(cu, r, symbols[1..], offs);
    }
  }

  // ----- Emission ------------------------------------------------------------------------------------

  /** The emitter's own SLEB128 encoder, which fills a fresh vector. */
  method Sleb128Bytes(value: int) returns (out: bytes)
    ensures out == Sleb(value)
  {
    hide Sleb;
    out := [];
    var v, more := value, true;
    while more
      invariant more ==> out + Sleb(v) == Sleb(value)
      invariant !more ==> out == Sleb(value)
      decreases more, if v >= 0 then v else -v - 1
    {
      var b := v % 128;
      ghost var u, before := v, out;
      SlebStep(v);
      v := v / 128;
      var sign := b >= 64;
      if (v == 0 && !sign) || (v == -1 && sign) {
        more := false;
      } else {
        b := b + 128;
      }
      out := out + [b];
      assert more ==> before + Sleb(u) == out + Sleb(v);
    }
  }

  lemma SlebStep(v: int)
    ensures var b, w := v % 128, v / 128;
            Sleb(v) == if (w == 0 && b < 64) || (w == -1 && b >= 64) then [b] else [b + 128] + Sleb(w)
  {
  }

  lemma EncVals1(a: Val)
    ensures EncVals([a]) == EncVal(a)
  {
    hide EncVal;
    assert EncVals([a]) == EncVal(a) + EncVals([]);
  }

  lemma EncValsStep(a: Val, vs: seq<Val>)
    ensures EncVals([a] + vs) == EncVal(a) + EncVals(vs)
  {
    hide EncVal;
    assert ([a] + vs)[1..] == vs;
  }

  lemma EncVals3(vs: seq<Val>)
    requires |vs| == 3
    ensures EncVals(vs) == EncVal(vs[0]) + EncVal(vs[1]) + EncVal(vs[2])
  {
    hide EncVal, EncVals;
    EncVals1(vs[2]);
    EncValsStep(vs[1], [vs[2]]);
    EncValsStep(vs[0], [vs[1]] + [vs[2]]);
    assert vs == [vs[0]] + ([vs[1]] + [vs[2]]);
  }

  lemma EncVals4(vs: seq<Val>)
    requires |vs| == 4
    ensures EncVals(vs) == EncVal(vs[0]) + EncVal(vs[1]) + EncVal(vs[2]) + EncVal(vs[3])
  {
    hide EncVal, EncVals;
    EncVals3(vs[1..]);
    EncValsStep(vs[0], vs[1..]);
    assert vs == [vs[0]] + vs[1..];
  }

  lemma EncVals5(vs: seq<Val>)
    requires |vs| == 5
    ensures EncVals(vs) == EncVal(vs[0]) + EncVal(vs[1]) + EncVal(vs[2]) + EncVal(vs[3]) + EncVal(vs[4])
  {
    hide *;
    EncVals4(vs[1..]);
    EncValsStep(vs[0], vs[1..]);
    assert vs == [vs[0]] + vs[1..];
    Regroup5(EncVal(vs[0]), EncVal(vs[1]), EncVal(vs[2]), EncVal(vs[3]), EncVal(vs[4]));
  }

  lemma Regroup5(a: bytes, b: bytes, c: bytes, d: bytes, e: bytes)
    ensures a + (b + c + d + e) == a + b + c + d + e
  {
  }

  /** The bytes of single values. */
  lemma ValBytes(s: bytes, n: u64, op: u8, operand: bytes)
    ensures EncVal(Text(s)) == s + [0]
    ensures EncVal(Addr(n)) == Le(n, 8) && EncVal(Flag(1)) == [1]
    ensures EncVal(RefAddr(n)) == EncVal(SecOffset(n)) == Le(n, 4)
    ensures EncVal(Expr([op] + operand)) == Uleb(1 + |operand|) + ([op] + operand)
  {
    hide Le, Uleb;
    OneByte(1);
  }

  method EmitFrameOffset(info: BytesBuf, offset: i32)
    modifies info
    ensures info.data == old(info.data) + EncVal(Expr([OP_FBREG] + Sleb(offset)))
  {
    hide Uleb, Sleb, EncVal;
    var leb := Sleb128Bytes(offset);
    info.Uleb128(1 + |leb|);
    info.U8(OP_FBREG);
    info.Raw(leb);
    ValBytes([], 0, OP_FBREG, leb);
  }

  method EmitParamOrLocal(info: BytesBuf, v: LocalVar, code: nat, offs: TypeOffsets)
    modifies info
    ensures info.data == old(info.data) + EncNode(LocalNode(v, code, offs))
  {
    hide Uleb, Le, Sleb, RefOf, EncVal, EncVals;
    var typeOff := RefOf(offs, v.ty);
    ValBytes(v.name, typeOff, OP_FBREG, []);
    info.Uleb128(code);
    info.CStr(v.name);
    info.Fixed(typeOff, 4);
    EmitFrameOffset(info, v.stackOffset);
    EncVals3(LocalNode(v, code, offs).vals);
  }

  method EmitVars(info: BytesBuf, vs: seq<LocalVar>, code: nat, offs: TypeOffsets)
    modifies info
    ensures info.data == old(info.data) + EncForest(LocalNodes(vs, code, offs))
  {
    hide LocalNode, EncNode;
    for i := 0 to |vs|
      invariant old(info.data) + EncForest(LocalNodes(vs, code, offs))
                == info.data + EncForest(LocalNodes(vs[i..], code, offs))
    {
      ghost var before := info.data;
      EmitParamOrLocal(info, vs[i], code, offs);
      LocalNodesStep(before, vs[i..], code, offs);
    }
    assert LocalNodes(vs[|vs|..], code, offs) == [];
  }

  lemma LocalNodesStep(before: bytes, vs: seq<LocalVar>, code: nat, offs: TypeOffsets)
    requires vs != []
    ensures before + EncForest(LocalNodes(vs, code, offs))
         == before + EncNode(LocalNode(vs[0], code, offs)) + EncForest(LocalNodes(vs[1..], code, offs))
  {
    hide LocalNode, EncNode, EncForest;
    var n, more := LocalNode(vs[0], code, offs), LocalNodes(vs[1..], code, offs);
    OneForest(n);
    EncForestConcat([n], more);
  }

  lemma NoForest()
    ensures EncForest([]) == []
  {
  }

  lemma OneForest(n: Node)
    ensures EncForest([n]) == EncNode(n)
  {
    hide EncNode;
    EncForestAdd([], n);
    assert [] + [n] == [n];
  }

  /** The attributes that both forms of a subprogram DIE start with. */
  function SubprogramHead(sym: Symbol, end: u64): bytes {
    (sym.name + [0]) + Le(sym.address, 8) + Le(end, 8) + [1]
  }

  lemma SubprogramBytes(sym: Symbol, end: u64, offs: TypeOffsets)
    ensures var n := FunctionNode(sym, end, offs);
            EncNode(n) == Uleb(n.code) + SubprogramHead(sym, end)
                          + if n.hasKids then Uleb(1 + |Sleb(0)|) + ([OP_BREG6] + Sleb(0)) + (EncForest(n.kids) + [0]) else []
  {
    hide Uleb, Le, Sleb, EncVals, EncForest, KidNodes;
    var n := FunctionNode(sym, end, offs);
    OneByte(1);
    if n.hasKids {
      EncVals5(n.vals);
      Regroup3(Uleb(n.code), SubprogramHead(sym, end), EncVal(n.vals[4]), EncForest(n.kids) + [0]);
    } else {
      EncVals4(n.vals);
    }
  }

  lemma Regroup3(a: bytes, b: bytes, c: bytes, d: bytes)
    ensures a + (b + c) + d == a + b + (c + d)
  {
  }

  method EmitSubprogramHead(info: BytesBuf, code: nat, sym: Symbol, end: u64)
    modifies info
    ensures info.data == old(info.data) + (Uleb(code) + SubprogramHead(sym, end))
  {
    hide Uleb, Le;
    info.Uleb128(code);
    info.CStr(sym.name);
    info.Fixed(sym.address, 8);
    info.Fixed(end, 8);
    info.U8(1);
  }

  /** The frame base: `DW_OP_breg6 0`, that is rbp itself. */
  method EmitFrameBase(info: BytesBuf)
    modifies info
    ensures info.data == old(info.data) + (Uleb(1 + |Sleb(0)|) + ([OP_BREG6] + Sleb(0)))
  {
    hide Uleb, Sleb;
    var leb := Sleb128Bytes(0);
    info.Uleb128(1 + |leb|);
    info.U8(OP_BREG6);
    info.Raw(leb);
  }

  method EmitFunction(info: BytesBuf, cu: CompileUnit, sym: Symbol, r: AddressRange, offs: TypeOffsets)
    modifies info
    ensures info.data == old(info.data)
                         + EncNode(FunctionNode(sym, SymbolEnd(cu.symbols, sym.address, Wrap64(r.hi + 1)), offs))
  {
    hide Uleb, Sleb, SymbolEnd, LocalNodes, EncNode, EncForest, KidNodes, SubprogramHead;
    var end := ComputeSymbolEnd(cu, sym, Wrap64(r.hi + 1));
    SubprogramBytes(sym, end, offs);
    if sym.params == [] && sym.locals == [] {
      EmitSubprogramHead(info, ABBREV_SUBPROGRAM, sym, end);
    } else {
      EmitSubprogramHead(info, ABBREV_SUBPROGRAM_WITH_KIDS, sym, end);
      EmitFrameBase(info);
      ghost var head := info.data;
      EmitVars(info, sym.params, ABBREV_FORMAL_PARAMETER, offs);
      EmitVars(info, sym.locals, ABBREV_LOCAL_VARIABLE, offs);
      info.U8(0);
      KidsBytes(head, sym, offs);
    }
  }

  lemma KidsBytes(head: bytes, sym: Symbol, offs: TypeOffsets)
    ensures head + EncForest(LocalNodes(sym.params, ABBREV_FORMAL_PARAMETER, offs))
            + EncForest(LocalNodes(sym.locals, ABBREV_LOCAL_VARIABLE, offs)) + [0]
         == head + (EncForest(KidNodes(sym, offs)) + [0])
  {
    hide EncForest, LocalNodes;
    EncForestConcat(LocalNodes(sym.params, ABBREV_FORMAL_PARAMETER, offs), LocalNodes(sym.locals, ABBREV_LOCAL_VARIABLE, offs));
  }

  method EmitLocation(info: BytesBuf, address: u64)
    modifies info
    ensures info.data == old(info.data) + EncVal(Expr([OP_ADDR] + Le(address, 8)))
  {
    hide Uleb, Le;
    info.Uleb128(1 + 8);
    info.U8(OP_ADDR);
    info.Fixed(address, 8);
  }

  method EmitVariable(info: BytesBuf, sym: Symbol, offs: TypeOffsets)
    modifies info
    ensures info.data == old(info.data) + EncNode(VariableNode(sym, offs))
  {
    var typeOff := RefOf(offs, sym.ty);
    hide Uleb, Le, RefOf, EncVals, EncVal;
    ghost var node := VariableNode(sym, offs);
    ValBytes(sym.name, typeOff, OP_ADDR, []);
    if typeOff != 0 {
      info.Uleb128(ABBREV_TYPED_VARIABLE);
      info.CStr(sym.name);
      EmitLocation(info, sym.address);
      info.Fixed(typeOff, 4);
      info.U8(1);
      EncVals4(node.vals);
    } else {
      info.Uleb128(ABBREV_VARIABLE);
      info.CStr(sym.name);
      EmitLocation(info, sym.address);
      info.U8(1);
      EncVals3(node.vals);
    }
  }

  method EmitSubprogramAndVariableDIEs(info: BytesBuf, cu: CompileUnit, r: AddressRange, offs: TypeOffsets)
    modifies info
    ensures info.data == old(info.data) + EncForest(AllSymbolNodes(cu, r, cu.symbols, offs))
  {
    hide EncNode, FunctionNode, VariableNode, SymbolEnd, EncForest, AllSymbolNodes;
    for i := 0 to |cu.symbols|
      invariant old(info.data) + EncForest(AllSymbolNodes(cu, r, cu.symbols, offs))
             == info.data + EncForest(AllSymbolNodes(cu, r, cu.symbols[i..], offs))
    {
      var sym := cu.symbols[i];
      ghost var before := info.data;
      match sym.kind {
        case Function =>
          if sym.address >= r.lo && sym.address <= r.hi {
            EmitFunction(info, cu, sym, r, offs);
          }
        case Variable =>
          EmitVariable(info, sym, offs);
        case Unknown =>
      }
      SymbolNodesStep(before, info.data, cu, r, cu.symbols[i..], offs);
    }
    NoMoreSymbols(cu, r, cu.symbols[|cu.symbols|..], offs);
  }

  lemma NoMoreSymbols(cu: CompileUnit, r: AddressRange, symbols: seq<Symbol>, offs: TypeOffsets)
    requires symbols == []
    ensures EncForest(AllSymbolNodes(cu, r, symbols, offs)) == []
  {
  }

  lemma SymbolNodesStep(before: bytes, after: bytes, cu: CompileUnit, r: AddressRange, symbols: seq<Symbol>,
                        offs: TypeOffsets)
    requires symbols != []
    requires var ns := SymbolNodes(cu, r, symbols[0], offs);
             after == if ns == [] then before else before + EncNode(ns[0])
    ensures before + EncForest(AllSymbolNodes(cu, r, symbols, offs))
         == after + EncForest(AllSymbolNodes(cu, r, symbols[1..], offs))
  {
    hide EncNode, FunctionNode, VariableNode, SymbolEnd, EndsAt, EncForest;
    var ns, more := SymbolNodes(cu, r, symbols[0], offs), AllSymbolNodes(cu, r, symbols[1..], offs);
    EncForestConcat(ns, more);
    if ns != [] {
      OneForest(ns[0]);
      assert ns == [ns[0]];
    } else {
      assert EncForest([]) == [] by { NoForest(); }
    }
  }

  /** Reads as the unit, whenever its line program does. */
  ghost predicate RootRight(root: Node, off: nat, mod: Module, cu: CompileUnit, producer: bytes, stmtList: u32) {
    NodeDeclared(TABLE, root) &&
    forall line: bytes | LineWriter.ReadsLineUnit(line, stmtList, cu) ::
      var u := UnitOf(LocateNode(TABLE, root, off), line);
      u.Some? && UnitMatches(u.value, mod, cu, producer)
  }

  /** Appends one compile unit to `.debug_info`. */
  method WriteCompileUnit(info: BytesBuf, mod: Module, cu: CompileUnit, producer: bytes, stmtList: u32)
    returns (ghost root: Node)
    requires CuOk(mod, cu) && NoNul(producer)
    modifies info
    ensures info.data == old(info.data) + Le(|UnitBody(0, root)|, 4) + UnitBody(0, root)
    ensures |info.data| < 0x1_0000_0000 ==>
              RootRight(root, |old(info.data)| + HEADER_SIZE, mod, cu, producer, stmtList)
  {
    hide Le, EncForest, AllSymbolNodes, Locate, TypeAt, RefOf, Meaning, CuOk, RootRight, IsRangeOf, Absorbed, Declared,
         OnlyTypes, NoNul, SplitPath, RootHead, UnitBody, CuNode, RootSize;
    ghost var start := info.data;
    var unitLengthPos := info.ReservedU32();
    var lengthFieldEnd := |info.data|;
    var r := WriteRootHead(info, cu, producer, stmtList);
    ghost var base := info.data;
    CuUsable(mod, cu);
    ghost var kids0 := [];
    RootBytes(producer, cu, r, stmtList, kids0);
    assert |base| == |start| + HEADER_SIZE + RootSize(producer, cu, r, stmtList);
    var offs;
    ghost var types;
    offs, types := EmitTypeDIEs(info, mod, cu.symbols);
    EmitSubprogramAndVariableDIEs(info, cu, r, offs);
    info.U8(0);
    ghost var kids := types + AllSymbolNodes(cu, r, cu.symbols, offs);
    root := CuNode(producer, cu, r, stmtList, kids);
    UnitAssembled(start + [0, 0, 0, 0], producer, cu, r, stmtList, types, AllSymbolNodes(cu, r, cu.symbols, offs));
    info.PatchU32(unitLengthPos, |info.data| - lengthFieldEnd);
    Patched(start, [0, 0, 0, 0], UnitBody(0, root));
    if |info.data| < 0x1_0000_0000 {
      RootIsRight(mod, cu, producer, stmtList, r, types, offs, |start| + HEADER_SIZE);
    }
  }

  lemma UnitAssembled(start: bytes, producer: bytes, cu: CompileUnit, r: AddressRange, stmtList: u32,
                      types: seq<Node>, syms: seq<Node>)
    ensures start + RootHead(cu, r, producer, stmtList) + EncForest(types) + EncForest(syms) + [0]
         == start + UnitBody(0, CuNode(producer, cu, r, stmtList, types + syms))
  {
    hide EncForest, RootHead, UnitBody, CuNode;
    EncForestConcat(types, syms);
    RootBytes(producer, cu, r, stmtList, types + syms);
  }

  lemma CuUsable(mod: Module, cu: CompileUnit)
    requires CuOk(mod, cu)
    ensures AllUsable(mod, ReferencedTypes(cu.symbols))
  {
  }

  /** The unit header after `unit_length`, and the root DIE up to its first child. */
  function RootHead(cu: CompileUnit, r: AddressRange, producer: bytes, stmtList: u32): bytes {
    Le(5, 2) + [UT_COMPILE, 8] + Le(0, 4) + (Uleb(ABBREV_CU) + EncVals(CuNode(producer, cu, r, stmtList, []).vals))
  }

  lemma RootBytes(producer: bytes, cu: CompileUnit, r: AddressRange, stmtList: u32, kids: seq<Node>)
    ensures UnitBody(0, CuNode(producer, cu, r, stmtList, kids))
            == RootHead(cu, r, producer, stmtList) + (EncForest(kids) + [0])
    ensures |RootHead(cu, r, producer, stmtList)| == 8 + RootSize(producer, cu, r, stmtList)
  {
    hide Uleb, Le, EncVals, EncForest, SplitPath, Wrap64;
    var n := CuNode(producer, cu, r, stmtList, kids);
    assert EncNode(n) == Uleb(ABBREV_CU) + EncVals(n.vals) + (EncForest(kids) + [0]);
  }

  method WriteRootHead(info: BytesBuf, cu: CompileUnit, producer: bytes, stmtList: u32) returns (r: AddressRange)
    modifies info
    ensures info.data == old(info.data) + RootHead(cu, r, producer, stmtList)
    ensures IsRangeOf(Absorbed(cu), r)
  {
    hide Uleb, Le, Wrap64, EncVals, SplitPath, IsRangeOf, Absorbed, EncVal, CuNode, TailVals;
    info.Fixed(5, 2);
    info.U8(UT_COMPILE);
    info.U8(8);
    info.Fixed(0, 4);
    info.Uleb128(ABBREV_CU);
    ghost var d1 := info.data;
    info.CStr(producer);
    info.Fixed(LANG_PASCAL83, 2);
    ghost var d2 := info.data;
    assert d2 == d1 + ((producer + [0]) + Le(LANG_PASCAL83, 2));
    r := WriteRootTail(info, cu, stmtList);
    HeadVals(cu, r, producer, stmtList);
    HeadRegroup(old(info.data), producer + [0], Le(LANG_PASCAL83, 2), EncVals(TailVals(cu, r, stmtList)));
  }

  lemma HeadVals(cu: CompileUnit, r: AddressRange, producer: bytes, stmtList: u32)
    ensures EncVals(CuNode(producer, cu, r, stmtList, []).vals)
         == producer + [0] + (Le(LANG_PASCAL83, 2) + EncVals(TailVals(cu, r, stmtList)))
  {
    hide Uleb, Le, Wrap64, EncVals, SplitPath;
    var vals := CuNode(producer, cu, r, stmtList, []).vals;
    EncValsStep(vals[0], vals[1..]);
    EncValsStep(vals[1], vals[2..]);
    assert [vals[0]] + vals[1..] == vals && [vals[1]] + vals[2..] == vals[1..];
    assert vals[2..] == TailVals(cu, r, stmtList);
  }

  /** The name, directory, address range and line program of a unit. */
  method WriteRootTail(info: BytesBuf, cu: CompileUnit, stmtList: u32) returns (r: AddressRange)
    modifies info
    ensures IsRangeOf(Absorbed(cu), r)
    ensures info.data == old(info.data) + EncVals(TailVals(cu, r, stmtList))
  {
    hide Uleb, Le, Wrap64, EncVals, SplitPath, IsRangeOf, Absorbed, EncVal;
    var split := SplitPath(cu.sourcePath);
    info.CStr(split.file);
    info.CStr(split.dir);
    ValBytes(split.file, 0, 0, []);
    ValBytes(split.dir, stmtList, 0, []);
    ghost var names := info.data;
    assert names == old(info.data) + EncVal(Text(split.file)) + EncVal(Text(split.dir));
    r := CuRange(cu);
    info.Fixed(r.lo, 8);
    info.Fixed(Wrap64(r.hi + 1), 8);
    info.Fixed(stmtList, 4);
    ValBytes([], r.lo, 0, []);
    ValBytes([], Wrap64(r.hi + 1), 0, []);
    EncVals5(TailVals(cu, r, stmtList));
  }

  function TailVals(cu: CompileUnit, r: AddressRange, stmtList: u32): seq<Val> {
    var split := SplitPath(cu.sourcePath);
    [Text(split.file), Text(split.dir), Addr(r.lo), Addr(Wrap64(r.hi + 1)), SecOffset(stmtList)]
  }

  lemma HeadRegroup(o: bytes, a: bytes, b: bytes, c: bytes)
    ensures o + Le(5, 2) + [UT_COMPILE] + [8] + Le(0, 4) + Uleb(ABBREV_CU) + (a + b) + c
         == o + (Le(5, 2) + [UT_COMPILE, 8] + Le(0, 4) + (Uleb(ABBREV_CU) + (a + (b + c))))
  {
    hide Le, Uleb;
  }

  lemma RootIsRight(mod: Module, cu: CompileUnit, producer: bytes, stmtList: u32, r: AddressRange,
                    types: seq<Node>, offs: TypeOffsets, off: nat)
    requires CuOk(mod, cu) && NoNul(producer) && IsRangeOf(Absorbed(cu), r)
    requires Declared(TABLE, types) && OnlyTypes(types)
    requires forall id <- ReferencedTypes(cu.symbols) ::
               TypeAt(Locate(TABLE, types, off + RootSize(producer, cu, r, stmtList)), RefOf(offs, id)) == Meaning(mod, id)
    ensures RootRight(CuNode(producer, cu, r, stmtList, types + AllSymbolNodes(cu, r, cu.symbols, offs)),
                      off, mod, cu, producer, stmtList)
  {
    hide TABLE, NodeDeclared, LocateNode, UnitOf, TypeAt, Locate, EntitiesOf, AllSymbolNodes, AllExpected, IsRangeOf,
         Absorbed, Meaning, RefOf, RootSize, LineReader.ReadLineUnit, CuNode, LineWriter.LineUnitMatches, OnlyTypes,
         EntitiesFor;
    var kids := types + AllSymbolNodes(cu, r, cu.symbols, offs);
    ChildrenMean(mod, cu, r, types, offs, off + RootSize(producer, cu, r, stmtList));
    CuDeclared(producer, cu, r, stmtList, kids);
    var ids := ExpectedMatches(mod, cu, r);
    forall line: bytes | LineWriter.ReadsLineUnit(line, stmtList, cu)
      ensures var u := UnitOf(LocateNode(TABLE, CuNode(producer, cu, r, stmtList, kids), off), line);
              u.Some? && UnitMatches(u.value, mod, cu, producer)
    {
      CuMeans(producer, cu, r, stmtList, kids, off, AllExpected(mod, cu, r, cu.symbols), line);
    }
  }

  // ----- The whole module -----------------------------------------------------------------------------

  datatype EmitResult = NoUnits | Emitted(sections: Sections)

  /** The units that get a compile unit: those with line entries, in order. */
  function UnitsWithLines(units: seq<CompileUnit>): (r: seq<CompileUnit>)
    ensures forall cu <- r :: cu in units && cu.lines != []
    ensures forall cu <- units :: cu.lines != [] ==> cu in r
  {
    if units == [] then []
    else
      var last := units[|units| - 1];
      UnitsWithLines(units[..|units| - 1]) + if last.lines == [] then [] else [last]
  }

  ghost predicate ModuleOk(mod: Module) {
    forall i | 0 <= i < |mod.units| :: CuOk(mod, mod.units[i])
  }

  ghost predicate UnitsMatch(us: seq<UnitInfo>, mod: Module, cus: seq<CompileUnit>, producer: bytes) {
    |us| == |cus| && forall i | 0 <= i < |us| :: UnitMatches(us[i], mod, cus[i], producer)
  }

  /** The emitted units so far, as raw bytes that read back as the model's units whatever
      `.debug_line` gains later. */
  ghost predicate Written(info: bytes, line: bytes, abbrev: bytes, mod: Module, cus: seq<CompileUnit>,
                          producer: bytes) {
    var raws := SplitUnits(info, |info|);
    && raws.Some? && |raws.value| == |cus|
    && forall i | 0 <= i < |cus| :: RawRight(raws.value[i], line, abbrev, mod, cus[i], producer)
  }

  ghost predicate RawRight(raw: RawUnit, line: bytes, abbrev: bytes, mod: Module, cu: CompileUnit, producer: bytes) {
    forall later: bytes ::
      var u := ReadUnit(raw, abbrev, line + later);
      u.Some? && UnitMatches(u.value, mod, cu, producer)
  }

  /** Emits the sections of a module. While they fit the 32-bit format, reading them back gives one
      unit per model unit with lines, in order, each matching its model unit. */
  method EmitDwarf(mod: Module, producer: bytes) returns (r: EmitResult)
    requires ModuleOk(mod) && NoNul(producer)
    ensures r.NoUnits? <==> mod.units == []
    ensures r.Emitted? && Fit32(r.sections.info, r.sections.line) ==>
              var us := ReadDebugInfo(r.sections);
              us.Some? && UnitsMatch(us.value, mod, UnitsWithLines(mod.units), producer)
  {
    if mod.units == [] {
      return NoUnits;
    }
    hide DECLS, TABLE, CuOk, NoNul, ReadAbbrevs, Written, UnitsMatch, ReadDebugInfo, UnitMatches, ModuleOk, UnitsWithLines;
    var info := new BytesBuf();
    var abbrev := new BytesBuf();
    var line := new BytesBuf();
    WriteOnlyTable(abbrev);
    EmitUnits(info, line, mod, producer, abbrev.data);
    r := Emitted(Sections(info.data, abbrev.data, line.data));
    if Fit32(info.data, line.data) {
      WrittenReads(info.data, line.data, abbrev.data, mod, UnitsWithLines(mod.units), producer);
    }
  }

  /** The abbreviations as a section of their own. */
  method WriteOnlyTable(abbrev: BytesBuf)
    requires abbrev.data == []
    modifies abbrev
    ensures ReadAbbrevs(abbrev.data) == Got(TABLE, [])
  {
    hide DECLS, TABLE, ReadAbbrevs, IsTable;
    WriteAbbrevTable(abbrev);
    ghost var table :| abbrev.data == [] + table && IsTable(table);
    assert [] + table == table;
    TableIsRead(table);
  }

  /** A line program and a compile unit for every unit with lines. */
  method EmitUnits(info: BytesBuf, line: BytesBuf, mod: Module, producer: bytes, ghost table: bytes)
    requires info != line && info.data == [] && line.data == []
    requires ModuleOk(mod) && NoNul(producer) && ReadAbbrevs(table) == Got(TABLE, [])
    modifies info, line
    ensures Fit32(info.data, line.data) ==>
              Written(info.data, line.data, table, mod, UnitsWithLines(mod.units), producer)
  {
    hide Written, TABLE, CuOk, NoNul, ReadAbbrevs, UnitsWithLines;
    NoUnitsYet(mod.units);
    NothingWritten(table, mod, producer);
    for i := 0 to |mod.units|
      invariant Fit32(info.data, line.data) ==>
                  Written(info.data, line.data, table, mod, UnitsWithLines(mod.units[..i]), producer)
    {
      var cu := mod.units[i];
      OneMoreUnit(mod.units, i);
      if cu.lines != [] {
        EmitUnit(info, line, mod, cu, producer, table, UnitsWithLines(mod.units[..i]));
      }
    }
    assert mod.units[..|mod.units|] == mod.units;
  }

  lemma NoUnitsYet(units: seq<CompileUnit>)
    ensures UnitsWithLines(units[..0]) == []
  {
  }

  lemma OneMoreUnit(units: seq<CompileUnit>, i: nat)
    requires i < |units|
    ensures UnitsWithLines(units[..i + 1])
         == if units[i].lines == [] then UnitsWithLines(units[..i]) else UnitsWithLines(units[..i]) + [units[i]]
  {
    assert units[..i + 1][..i] == units[..i];
  }

  predicate Fit32(info: bytes, line: bytes) {
    |info| < 0xFFFF_FFF0 && |line| < 0xFFFF_FFF0
  }

  /** One line program and one compile unit that refers to it. */
  method EmitUnit(info: BytesBuf, line: BytesBuf, mod: Module, cu: CompileUnit, producer: bytes,
                  ghost table: bytes, ghost cus: seq<CompileUnit>)
    requires info != line && CuOk(mod, cu) && NoNul(producer)
    requires ReadAbbrevs(table) == Got(TABLE, [])
    requires Fit32(info.data, line.data) ==> Written(info.data, line.data, table, mod, cus, producer)
    modifies info, line
    ensures Fit32(info.data, line.data) ==> Written(info.data, line.data, table, mod, cus + [cu], producer)
  {
    hide RootRight, Written, TABLE, CuOk, NoNul, ReadAbbrevs, UnitBody, Le, LineWriter.HoldsLineUnit;
    ghost var info0, line0 := info.data, line.data;
    assert NoNul(cu.sourcePath) by { CuPath(mod, cu); }
    var stmtList := LineWriter.WriteLineProgram(line, cu);
    ghost var root := WriteCompileUnit(info, mod, cu, producer, stmtList);
    if Fit32(info.data, line.data) {
      OneMoreWritten(info0, line0, line.data, table, mod, cus, cu, producer, root, stmtList);
    }
  }

  lemma TableIsRead(table: bytes)
    requires IsTable(table)
    ensures ReadAbbrevs(table) == Got(TABLE, [])
  {
    hide ReadAbbrevs, TABLE;
    assert table + [] == table;
  }

  lemma CuPath(mod: Module, cu: CompileUnit)
    requires CuOk(mod, cu)
    ensures NoNul(cu.sourcePath)
  {
  }

  lemma NothingWritten(abbrev: bytes, mod: Module, producer: bytes)
    ensures Written([], [], abbrev, mod, [], producer)
  {
  }

  lemma RawStaysRight(raw: RawUnit, line0: bytes, line1: bytes, abbrev: bytes, mod: Module, cu: CompileUnit,
                      producer: bytes)
    requires line0 <= line1 && RawRight(raw, line0, abbrev, mod, cu, producer)
    ensures RawRight(raw, line1, abbrev, mod, cu, producer)
  {
    hide ReadUnit, UnitMatches;
    forall later: bytes
      ensures var u := ReadUnit(raw, abbrev, line1 + later); u.Some? && UnitMatches(u.value, mod, cu, producer)
    {
      assert line1 + later == line0 + (line1[|line0|..] + later);
    }
  }

  lemma NewRawRight(off: nat, line: bytes, abbrev: bytes, mod: Module, cu: CompileUnit, producer: bytes, root: Node,
                    stmtList: u32)
    requires ReadAbbrevs(abbrev) == Got(TABLE, [])
    requires RootRight(root, off + HEADER_SIZE, mod, cu, producer, stmtList)
    requires LineWriter.HoldsLineUnit(line, stmtList, cu)
    ensures RawRight(RawUnit(off, UnitBody(0, root)), line, abbrev, mod, cu, producer)
  {
    hide ReadAbbrevs, TABLE, ParseUnit, UnitOf, UnitMatches, UnitBody, LocateNode, NodeDeclared,
         LineWriter.ReadsLineUnit;
    ParseWritten(TABLE, off, root, abbrev, []);
    var raw := RawUnit(off, UnitBody(0, root));
    forall later: bytes
      ensures var u := ReadUnit(raw, abbrev, line + later); u.Some? && UnitMatches(u.value, mod, cu, producer)
    {
      assert LineWriter.ReadsLineUnit(line + later, stmtList, cu);
    }
  }

  lemma OneMoreWritten(info: bytes, line0: bytes, line: bytes, abbrev: bytes, mod: Module, cus: seq<CompileUnit>,
                       cu: CompileUnit, producer: bytes, root: Node, stmtList: u32)
    requires Written(info, line0, abbrev, mod, cus, producer) && line0 <= line
    requires ReadAbbrevs(abbrev) == Got(TABLE, [])
    requires RootRight(root, |info| + HEADER_SIZE, mod, cu, producer, stmtList)
    requires LineWriter.HoldsLineUnit(line, stmtList, cu)
    requires |UnitBody(0, root)| < 0xFFFF_FFF0
    ensures Written(info + Le(|UnitBody(0, root)|, 4) + UnitBody(0, root), line, abbrev, mod, cus + [cu], producer)
  {
    hide ReadAbbrevs, TABLE, UnitBody, RootRight, RawRight, SplitUnits, LineWriter.HoldsLineUnit, Le;
    var body := UnitBody(0, root);
    var raws := SplitUnits(info, |info|).value;
    SplitAppended(info, |info|, body);
    NewRawRight(|info|, line, abbrev, mod, cu, producer, root, stmtList);
    forall i | 0 <= i < |cus| ensures RawRight(raws[i], line, abbrev, mod, cus[i], producer) {
      RawStaysRight(raws[i], line0, line, abbrev, mod, cus[i], producer);
    }
  }

  lemma {:induction false} RawsRead(raws: seq<RawUnit>, line: bytes, abbrev: bytes, mod: Module, cus: seq<CompileUnit>,
                                    producer: bytes)
    requires |raws| == |cus|
    requires forall i | 0 <= i < |cus| :: RawRight(raws[i], line, abbrev, mod, cus[i], producer)
    ensures ReadUnits(raws, abbrev, line).Some?
    ensures UnitsMatch(ReadUnits(raws, abbrev, line).value, mod, cus, producer)
  {
    hide ReadUnit, UnitMatches;
    if raws != [] {
      assert RawRight(raws[0], line, abbrev, mod, cus[0], producer);
      assert line + [] == line;
      RawsRead(raws[1..], line, abbrev, mod, cus[1..], producer);
    }
  }

  lemma WrittenReads(info: bytes, line: bytes, abbrev: bytes, mod: Module, cus: seq<CompileUnit>, producer: bytes)
    requires Written(info, line, abbrev, mod, cus, producer)
    ensures var us := ReadDebugInfo(Sections(info, abbrev, line));
            us.Some? && UnitsMatch(us.value, mod, cus, producer)
  {
    hide ReadUnits, SplitUnits, RawRight, UnitsMatch;
    RawsRead(SplitUnits(info, |info|).value, line, abbrev, mod, cus, producer);
  }
}
