/** A debugger's view of the emitted sections: units, with functions, variables and their types
    resolved to what they mean, and line tables resolved to rows. */
module DwarfReader {
  import opened Bytes
  import opened DwarfForms
  import opened DieReader
  import opened LineReader

  const OP_ADDR: u8 := 0x03
  const OP_BREG6: u8 := 0x76
  const OP_FBREG: u8 := 0x91

  /** What a type reference stands for. `Dangling` is a reference to no type DIE of the unit. */
  datatype Ty =
    | NoTy
    | BaseTy(name: bytes, size: nat, encoding: nat)
    | ArrayTy(element: Ty, upperBound: nat)
    | Dangling

  datatype StackVar = StackVar(isParam: bool, name: bytes, ty: Ty, frameOffset: int)

  datatype Entity =
    | Func(name: bytes, low: nat, high: nat, vars: seq<StackVar>)
    | Var(name: bytes, address: nat, ty: Ty)

  datatype UnitInfo = UnitInfo(
    producer: bytes, language: nat, name: bytes, dir: bytes, low: nat, high: nat,
    entities: seq<Entity>, lines: LineUnit)

  datatype Sections = Sections(info: bytes, abbrev: bytes, line: bytes)

  function TextAttr(d: Die, name: nat): Option<bytes> {
    match d.Attr(name)
    case Some(Text(s)) => Some(s)
    case _ => None
  }

  function ExprAttr(d: Die, name: nat): Option<bytes> {
    match d.Attr(name)
    case Some(Expr(s)) => Some(s)
    case _ => None
  }

  function NumAttr(d: Die, name: nat): Option<nat> {
    match d.Attr(name)
    case Some(Text(_)) => None
    case Some(Expr(_)) => None
    case Some(v) => Some(v.n)
    case None => None
  }

  /** Every function and variable the emitter describes is external. */
  predicate IsExternal(d: Die) {
    NumAttr(d, AT_EXTERNAL) == Some(1)
  }

  // ----- Types -------------------------------------------------------------------------

  function FindDie(dies: seq<Die>, off: nat): Option<Die> {
    if dies == [] then None
    else if dies[0].off == off then Some(dies[0])
    else FindDie(dies[1..], off)
  }

  /** Follows a section-relative reference among the unit's DIEs. References go to earlier DIEs. */
  function TypeAt(dies: seq<Die>, ref: nat): Ty {
    if ref == 0 then NoTy
    else
      match FindDie(dies, ref)
      case None => Dangling
      case Some(d) =>
        if d.tag == TAG_BASE_TYPE then
          match (TextAttr(d, AT_NAME), NumAttr(d, AT_BYTE_SIZE), NumAttr(d, AT_ENCODING))
          case (Some(name), Some(size), Some(encoding)) => BaseTy(name, size, encoding)
          case _ => Dangling
        else if d.tag == TAG_ARRAY_TYPE && |d.kids| == 1 && d.kids[0].tag == TAG_SUBRANGE_TYPE then
          match (NumAttr(d, AT_TYPE), NumAttr(d.kids[0], AT_UPPER_BOUND))
          case (Some(element), Some(upper)) =>
            if element < ref then ArrayTy(TypeAt(dies, element), upper) else Dangling
          case _ => Dangling
        else Dangling
  }

  /** The type of a DIE: the target of its `DW_AT_type`, if it has one. */
  function TypeOf(dies: seq<Die>, d: Die): Ty {
    match NumAttr(d, AT_TYPE)
    case None => NoTy
    case Some(ref) => TypeAt(dies, ref)
  }

  // ----- Functions and variables ----------------------------------------------------------

  /** `DW_OP_fbreg n`. */
  function FrameOffset(expr: bytes): Option<int> {
    if expr == [] || expr[0] != OP_FBREG then None
    else
      match ReadSleb(expr[1..])
      case Got(n, rest) => if rest == [] then Some(n) else None
      case Bad => None
  }

  /** `DW_OP_addr a`. */
  function FixedAddress(expr: bytes): Option<nat> {
    if |expr| != 9 || expr[0] != OP_ADDR then None else Some(FromLe(expr[1..]))
  }

  function StackVarOf(dies: seq<Die>, d: Die): Option<StackVar> {
    if d.tag != TAG_FORMAL_PARAMETER && d.tag != TAG_VARIABLE then None
    else
      var name :- TextAttr(d, AT_NAME);
      var expr :- ExprAttr(d, AT_LOCATION);
      var off :- FrameOffset(expr);
      Some(StackVar(d.tag == TAG_FORMAL_PARAMETER, name, TypeOf(dies, d), off))
  }

  function StackVarsOf(dies: seq<Die>, kids: seq<Die>): Option<seq<StackVar>> {
    if kids == [] then Some([])
    else
      var v :- StackVarOf(dies, kids[0]);
      var vs :- StackVarsOf(dies, kids[1..]);
      Some([v] + vs)
  }

  /** What one DIE of a unit describes besides types. Stack variables need a frame base of `rbp + 0`. */
  function EntityOf(dies: seq<Die>, d: Die): Option<seq<Entity>> {
    if d.tag == TAG_BASE_TYPE || d.tag == TAG_ARRAY_TYPE then Some([])
    else if !IsExternal(d) then None
    else
      var name :- TextAttr(d, AT_NAME);
      if d.tag == TAG_SUBPROGRAM then
        var low :- NumAttr(d, AT_LOW_PC);
        var high :- NumAttr(d, AT_HIGH_PC);
        var vars :- StackVarsOf(dies, d.kids);
        if vars != [] && ExprAttr(d, AT_FRAME_BASE) != Some([OP_BREG6, 0]) then None
        else Some([Func(name, low, high, vars)])
      else if d.tag == TAG_VARIABLE then
        var expr :- ExprAttr(d, AT_LOCATION);
        var address :- FixedAddress(expr);
        Some([Var(name, address, TypeOf(dies, d))])
      else None
  }

  function EntitiesOf(dies: seq<Die>, some: seq<Die>): Option<seq<Entity>> {
    if some == [] then Some([])
    else
      var e :- EntityOf(dies, some[0]);
      var es :- EntitiesOf(dies, some[1..]);
      Some(e + es)
  }

  // ----- Units --------------------------------------------------------------------------------

  function UnitOf(d: Die, lineSection: bytes): Option<UnitInfo> {
    if d.tag != TAG_COMPILE_UNIT then None
    else
      var producer :- TextAttr(d, AT_PRODUCER);
      var language :- NumAttr(d, AT_LANGUAGE);
      var name :- TextAttr(d, AT_NAME);
      var dir :- TextAttr(d, AT_COMP_DIR);
      var low :- NumAttr(d, AT_LOW_PC);
      var high :- NumAttr(d, AT_HIGH_PC);
      var stmtList :- NumAttr(d, AT_STMT_LIST);
      var entities :- EntitiesOf(d.kids, d.kids);
      var lines :- ReadLineUnit(lineSection, stmtList);
      Some(UnitInfo(producer, language, name, dir, low, high, entities, lines))
  }

  function ReadUnit(raw: RawUnit, abbrev: bytes, line: bytes): Option<UnitInfo> {
    var d :- ParseUnit(raw, abbrev);
    UnitOf(d, line)
  }

  function ReadUnits(raws: seq<RawUnit>, abbrev: bytes, line: bytes): Option<seq<UnitInfo>> {
    if raws == [] then Some([])
    else
      var u :- ReadUnit(raws[0], abbrev, line);
      var us :- ReadUnits(raws[1..], abbrev, line);
      Some([u] + us)
  }

  /** Everything a debugger learns from the sections. */
  function ReadDebugInfo(s: Sections): Option<seq<UnitInfo>> {
    var raws :- SplitUnits(s.info, |s.info|);
    ReadUnits(raws, s.abbrev, s.line)
  }
}
