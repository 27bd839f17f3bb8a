/** Type DIEs of a compile unit: emitted once each, array elements first, and recorded at the
    offsets that later references use. */
module TypeDies {
  import opened Bytes
  import opened DwarfForms
  import opened Model
  import opened DieReader
  import opened DieWriter
  import opened AbbrevWriter
  import opened DwarfReader

  const ATE_ADDRESS := 0x01
  const ATE_BOOLEAN := 0x02
  const ATE_FLOAT := 0x04
  const ATE_SIGNED := 0x05
  const ATE_UNSIGNED := 0x07
  const ATE_UNSIGNED_CHAR := 0x08
  const ATE_UTF := 0x10

  datatype Descriptor = Descriptor(name: bytes, size: u8, encoding: u8)

  function DescribePrimitive(k: PrimitiveKind): (r: Descriptor)
    ensures NoNul(r.name)
  {
    match k
    case Bool => Descriptor(Ascii("Boolean"), 1, ATE_BOOLEAN)
    case Char => Descriptor(Ascii("AnsiChar"), 1, ATE_UNSIGNED_CHAR)
    case WChar => Descriptor(Ascii("Char"), 2, ATE_UTF)
    case Int8 => Descriptor(Ascii("ShortInt"), 1, ATE_SIGNED)
    case Int16 => Descriptor(Ascii("SmallInt"), 2, ATE_SIGNED)
    case Int32 => Descriptor(Ascii("Integer"), 4, ATE_SIGNED)
    case Int64 => Descriptor(Ascii("Int64"), 8, ATE_SIGNED)
    case UInt8 => Descriptor(Ascii("Byte"), 1, ATE_UNSIGNED)
    case UInt16 => Descriptor(Ascii("Word"), 2, ATE_UNSIGNED)
    case UInt32 => Descriptor(Ascii("Cardinal"), 4, ATE_UNSIGNED)
    case UInt64 => Descriptor(Ascii("UInt64"), 8, ATE_UNSIGNED)
    case Float32 => Descriptor(Ascii("Single"), 4, ATE_FLOAT)
    case Float64 => Descriptor(Ascii("Double"), 8, ATE_FLOAT)
    case Float80 => Descriptor(Ascii("Extended"), 10, ATE_FLOAT)
    case PChar => Descriptor(Ascii("PAnsiChar"), 8, ATE_ADDRESS)
    case PWChar => Descriptor(Ascii("PWideChar"), 8, ATE_ADDRESS)
  }

  // ----- What a type id means ---------------------------------------------------------------

  function PrimitiveTy(k: PrimitiveKind): Ty {
    var d := DescribePrimitive(k);
    BaseTy(d.name, d.size, d.encoding)
  }

  /** Primitive types and one-level arrays have a DIE; other types are described as untyped. */
  function ElementMeaning(mod: Module, id: TypeId): Ty {
    if !mod.HasType(id) then NoTy
    else
      match mod.GetType(id)
      case Primitive(k) => PrimitiveTy(k)
      case _ => NoTy
  }

  function Meaning(mod: Module, id: TypeId): Ty {
    if !mod.HasType(id) then NoTy
    else
      match mod.GetType(id)
      case Primitive(k) => PrimitiveTy(k)
      case Array(element, length) => ArrayTy(ElementMeaning(mod, element), length)
      case _ => NoTy
  }

  /** What `getType` and the two passes need of a referenced id. */
  predicate Usable(mod: Module, id: TypeId) {
    id == NO_TYPE ||
    (mod.HasType(id) &&
     match mod.GetType(id)
     case Array(element, _) => element == NO_TYPE || (mod.HasType(element) && !mod.GetType(element).Array?)
     case _ => true)
  }

  predicate Describable(mod: Module, id: TypeId) {
    mod.HasType(id) && (mod.GetType(id).Primitive? || mod.GetType(id).Array?)
  }

  // ----- Type DIEs ------------------------------------------------------------------------------

  type TypeOffsets = map<TypeId, u32>

  function RefOf(offs: TypeOffsets, id: TypeId): u32 {
    if id != NO_TYPE && id in offs then offs[id] else 0
  }

  function BaseNode(k: PrimitiveKind): Node {
    var d := DescribePrimitive(k);
    Node(ABBREV_BASE_TYPE, [Text(d.name), Data1(d.size), Data1(d.encoding)], false, [])
  }

  function ArrayNode(elementOff: u32, length: u64): Node {
    Node(ABBREV_ARRAY_TYPE, [RefAddr(elementOff)], true, [Node(ABBREV_SUBRANGE_TYPE, [Udata(length)], false, [])])
  }

  /** The attribute at position `i` is the one found under its name. */
  lemma {:induction false} AttrAt(names: seq<nat>, vals: seq<Val>, i: nat)
    requires i < |names| == |vals|
    requires forall j | 0 <= j < i :: names[j] != names[i]
    ensures AttrFrom(names, vals, names[i]) == Some(vals[i])
  {
    if i > 0 {
      AttrAt(names[1..], vals[1..], i - 1);
    }
  }

  lemma {:induction false} AttrAbsent(names: seq<nat>, vals: seq<Val>, name: nat)
    requires name !in names
    ensures AttrFrom(names, vals, name) == None
  {
    if names != [] && vals != [] {
      AttrAbsent(names[1..], vals[1..], name);
    }
  }

  lemma BaseNodeDeclared(k: PrimitiveKind)
    ensures NodeDeclared(TABLE, BaseNode(k))
  {
    hide TABLE, DECLS, DescribePrimitive;
    TableEntries();
    var n := BaseNode(k);
    FormsOf3(n.vals);
  }

  lemma FormsOf3(vs: seq<Val>)
    requires |vs| == 3
    ensures FormsOf(vs) == [FormOf(vs[0]), FormOf(vs[1]), FormOf(vs[2])]
  {
    hide FormOf;
    assert FormsOf(vs[1..]) == [FormOf(vs[1])] + FormsOf(vs[1..][1..]);
    assert vs[1..][1..] == [vs[2]];
    assert FormsOf([vs[2]]) == [FormOf(vs[2])] + FormsOf([]);
  }

  lemma FormsOf1(v: Val)
    ensures FormsOf([v]) == [FormOf(v)]
  {
    hide FormOf;
    assert FormsOf([v]) == [FormOf(v)] + FormsOf([]);
  }

  lemma ArrayNodeDeclared(elementOff: u32, length: u64)
    ensures NodeDeclared(TABLE, ArrayNode(elementOff, length))
  {
    hide TABLE, DECLS;
    TableEntries();
    var n := ArrayNode(elementOff, length);
    FormsOf1(n.vals[0]);
    FormsOf1(n.kids[0].vals[0]);
    assert NodeDeclared(TABLE, n.kids[0]);
  }

  /** A DIE that was found keeps being found when more DIEs follow. */
  lemma {:induction false} FindDieStable(a: seq<Die>, b: seq<Die>, off: nat)
    requires FindDie(a, off).Some?
    ensures FindDie(a + b, off) == FindDie(a, off)
  {
    if a[0].off != off {
      assert (a + b)[1..] == a[1..] + b;
      FindDieStable(a[1..], b, off);
    }
  }

  lemma {:induction false} FindDieLast(a: seq<Die>, d: Die)
    requires forall e <- a :: e.off != d.off
    ensures FindDie(a + [d], d.off) == Some(d)
  {
    if a != [] {
      assert (a + [d])[1..] == a[1..] + [d];
      FindDieLast(a[1..], d);
    }
  }

  predicate Resolved(t: Ty) {
    match t
    case Dangling => false
    case ArrayTy(e, _) => Resolved(e)
    case _ => true
  }

  lemma {:induction false} TypeAtStable(a: seq<Die>, b: seq<Die>, ref: nat)
    requires Resolved(TypeAt(a, ref))
    ensures TypeAt(a + b, ref) == TypeAt(a, ref)
    decreases ref
  {
    hide TextAttr, NumAttr;
    if ref != 0 {
      FindDieStable(a, b, ref);
      var d := FindDie(a, ref).value;
      if d.tag == TAG_ARRAY_TYPE {
        TypeAtStable(a, b, NumAttr(d, AT_TYPE).value);
      }
    }
  }

  lemma MeaningResolved(mod: Module, id: TypeId)
    ensures Resolved(Meaning(mod, id)) && Resolved(ElementMeaning(mod, id))
  {
    hide DescribePrimitive;
  }

  // ----- The recorded offsets -----------------------------------------------------------------------

  /** Each recorded offset is where a DIE of that meaning was written, counting from `base`. */
  ghost predicate TypesHeld(mod: Module, nodes: seq<Node>, base: nat, offs: TypeOffsets) {
    && Declared(TABLE, nodes)
    && forall id <- offs ::
         Describable(mod, id) && offs[id] > 0 && TypeAt(Locate(TABLE, nodes, base), offs[id]) == Meaning(mod, id)
  }

  lemma TypesHeldStable(mod: Module, nodes: seq<Node>, more: seq<Node>, base: nat, offs: TypeOffsets)
    requires TypesHeld(mod, nodes, base, offs) && Declared(TABLE, more)
    ensures TypesHeld(mod, nodes + more, base, offs)
  {
    hide TABLE, NodeDeclared, TypeAt, Meaning, Locate, EncForest, EncNode, Declared, ElementMeaning, Resolved;
    LocateConcat(TABLE, nodes, more, base);
    var a, b := Locate(TABLE, nodes, base), Locate(TABLE, more, base + |EncForest(nodes)|);
    forall id <- offs ensures TypeAt(a + b, offs[id]) == Meaning(mod, id) {
      MeaningResolved(mod, id);
      TypeAtStable(a, b, offs[id]);
    }
  }

  /** A DIE just written is the one its offset leads to. */
  lemma FoundAtEnd(nodes: seq<Node>, n: Node, base: nat)
    requires Declared(TABLE, nodes) && NodeDeclared(TABLE, n)
    ensures Declared(TABLE, nodes + [n])
    ensures var off := base + |EncForest(nodes)|;
            FindDie(Locate(TABLE, nodes + [n], base), off) == Some(LocateNode(TABLE, n, off))
  {
    hide TABLE, NodeDeclared, LocateNode, EncNode;
    var off := base + |EncForest(nodes)|;
    LocateConcat(TABLE, nodes, [n], base);
    LocateBounds(TABLE, nodes, base);
    var d := LocateNode(TABLE, n, off);
    assert Locate(TABLE, [n], off) == [d] by { assert [n][1..] == []; }
    LocatedOff(n, off);
    FindDieLast(Locate(TABLE, nodes, base), d);
  }

  lemma LocatedOff(n: Node, off: nat)
    requires NodeDeclared(TABLE, n)
    ensures LocateNode(TABLE, n, off).off == off
  {
  }

  lemma BaseDieMeans(k: PrimitiveKind, off: nat)
    ensures NodeDeclared(TABLE, BaseNode(k))
    ensures var d := LocateNode(TABLE, BaseNode(k), off);
            && d.tag == TAG_BASE_TYPE
            && TextAttr(d, AT_NAME) == Some(DescribePrimitive(k).name)
            && NumAttr(d, AT_BYTE_SIZE) == Some(DescribePrimitive(k).size)
            && NumAttr(d, AT_ENCODING) == Some(DescribePrimitive(k).encoding)
  {
    hide TABLE, DECLS, DescribePrimitive, Locate, NodeDeclared, AttrFrom;
    BaseNodeDeclared(k);
    TableEntries();
    assert BaseNode(k).code in TABLE by { BaseNodeDeclared(k); }
    var n := BaseNode(k);
    AttrAt(BASE_TYPE.names, n.vals, 0);
    AttrAt(BASE_TYPE.names, n.vals, 1);
    AttrAt(BASE_TYPE.names, n.vals, 2);
  }

  lemma ArrayDieMeans(elementOff: u32, length: u64, off: nat)
    ensures NodeDeclared(TABLE, ArrayNode(elementOff, length))
    ensures var d := LocateNode(TABLE, ArrayNode(elementOff, length), off);
            && d.tag == TAG_ARRAY_TYPE && NumAttr(d, AT_TYPE) == Some(elementOff)
            && |d.kids| == 1 && d.kids[0].tag == TAG_SUBRANGE_TYPE && NumAttr(d.kids[0], AT_UPPER_BOUND) == Some(length)
  {
    hide TABLE, DECLS, AttrFrom;
    ArrayNodeDeclared(elementOff, length);
    TableEntries();
    var n := ArrayNode(elementOff, length);
    var kid := n.kids[0];
    assert NodeDeclared(TABLE, kid);
    var d := LocateNode(TABLE, n, off);
    var kidOff := off + |Uleb(n.code)| + |EncVals(n.vals)|;
    assert d.kids == [LocateNode(TABLE, kid, kidOff)] by {
      assert n.kids[1..] == [];
      assert Locate(TABLE, n.kids, kidOff)
      == [LocateNode(TABLE, kid, kidOff)] + Locate(TABLE, n.kids[1..], kidOff + |EncNode(kid)|);
    }
    AttrAt(ARRAY_TYPE.names, n.vals, 0);
    AttrAt(SUBRANGE_TYPE.names, kid.vals, 0);
  }

  lemma BaseAdded(mod: Module, nodes: seq<Node>, base: nat, offs: TypeOffsets, id: TypeId, k: PrimitiveKind)
    requires TypesHeld(mod, nodes, base, offs)
    requires mod.HasType(id) && mod.GetType(id) == Primitive(k)
    requires 0 < base + |EncForest(nodes)| < 0x1_0000_0000
    ensures TypesHeld(mod, nodes + [BaseNode(k)], base, offs[id := base + |EncForest(nodes)|])
  {
    hide TABLE, NodeDeclared, DescribePrimitive, BaseNode, LocateNode, TextAttr, NumAttr, TypeAt, Locate, EncForest, EncNode,
         FindDie;
    var n, off := BaseNode(k), base + |EncForest(nodes)|;
    BaseDieMeans(k, off);
    TypesHeldStable(mod, nodes, [n], base, offs);
    FoundAtEnd(nodes, n, base);
    BaseAt(Locate(TABLE, nodes + [n], base), off, LocateNode(TABLE, n, off));
  }

  lemma BaseAt(dies: seq<Die>, off: nat, d: Die)
    requires 0 < off && FindDie(dies, off) == Some(d) && d.tag == TAG_BASE_TYPE
    requires TextAttr(d, AT_NAME).Some? && NumAttr(d, AT_BYTE_SIZE).Some? && NumAttr(d, AT_ENCODING).Some?
    ensures TypeAt(dies, off) == BaseTy(TextAttr(d, AT_NAME).value, NumAttr(d, AT_BYTE_SIZE).value,
                                        NumAttr(d, AT_ENCODING).value)
  {
    hide NumAttr, FindDie, TextAttr;
  }

  lemma ArrayAdded(mod: Module, nodes: seq<Node>, base: nat, offs: TypeOffsets, id: TypeId, element: TypeId,
                   length: u64)
    requires TypesHeld(mod, nodes, base, offs)
    requires mod.HasType(id) && mod.GetType(id) == Array(element, length)
    requires 0 < base + |EncForest(nodes)| < 0x1_0000_0000
    requires forall i <- offs :: offs[i] < base + |EncForest(nodes)|
    requires element in offs ==> mod.GetType(element).Primitive?
    requires element !in offs ==> ElementMeaning(mod, element) == NoTy
    ensures TypesHeld(mod, nodes + [ArrayNode(RefOf(offs, element), length)], base, offs[id := base + |EncForest(nodes)|])
  {
    hide TABLE, NodeDeclared, DescribePrimitive, ArrayNode, LocateNode, TextAttr, NumAttr, TypeAt, Locate, EncForest,
         EncNode, FindDie;
    var ref := RefOf(offs, element);
    var n, off := ArrayNode(ref, length), base + |EncForest(nodes)|;
    ArrayDieMeans(ref, length, off);
    TypesHeldStable(mod, nodes, [n], base, offs);
    FoundAtEnd(nodes, n, base);
    var dies := Locate(TABLE, nodes + [n], base);
    assert TypeAt(dies, ref) == ElementMeaning(mod, element) by {
      if ref == 0 {
        NoTypeAt(dies);
      }
    }
    ArrayAt(dies, off, LocateNode(TABLE, n, off), ref, length);
  }

  lemma NoTypeAt(dies: seq<Die>)
    ensures TypeAt(dies, 0) == NoTy
  {
  }

  lemma ArrayAt(dies: seq<Die>, off: nat, d: Die, element: nat, length: nat)
    requires 0 < off && FindDie(dies, off) == Some(d) && element < off
    requires d.tag == TAG_ARRAY_TYPE && NumAttr(d, AT_TYPE) == Some(element)
    requires |d.kids| == 1 && d.kids[0].tag == TAG_SUBRANGE_TYPE && NumAttr(d.kids[0], AT_UPPER_BOUND) == Some(length)
    ensures TypeAt(dies, off) == ArrayTy(TypeAt(dies, element), length)
  {
    hide NumAttr, FindDie, TextAttr;
  }

  // ----- Emission ------------------------------------------------------------------------------------

  method EmitBaseTypeDIE(info: BytesBuf, k: PrimitiveKind) returns (off: u32)
    modifies info
    ensures off == |old(info.data)| % 0x1_0000_0000
    ensures info.data == old(info.data) + EncNode(BaseNode(k))
  {
    hide Uleb, DescribePrimitive, BaseNode, EncNode;
    off := |info.data| % 0x1_0000_0000;
    var desc := DescribePrimitive(k);
    info.Uleb128(ABBREV_BASE_TYPE);
    info.CStr(desc.name);
    info.U8(desc.size);
    info.U8(desc.encoding);
    BaseNodeBytes(k);
  }

  lemma OneByte(v: u8)
    ensures Le(v, 1) == [v]
  {
    assert Le(v, 1) == [v % 256] + Le(v / 256, 0);
  }

  lemma BaseNodeBytes(k: PrimitiveKind)
    ensures var d := DescribePrimitive(k);
            EncNode(BaseNode(k)) == Uleb(ABBREV_BASE_TYPE) + (d.name + [0]) + [d.size] + [d.encoding]
  {
    hide Uleb, DescribePrimitive, Le;
    var d := DescribePrimitive(k);
    var vals := BaseNode(k).vals;
    OneByte(d.size);
    OneByte(d.encoding);
    assert vals[1..][1..] == [vals[2]];
    assert EncVals([vals[2]]) == [d.encoding] + EncVals([]);
    assert EncVals(vals[1..]) == [d.size] + EncVals(vals[1..][1..]);
    assert EncVals(vals) == (d.name + [0]) + EncVals(vals[1..]);
  }

  method EmitArrayTypeDIE(info: BytesBuf, elementOffset: u32, length: u64) returns (off: u32)
    modifies info
    ensures off == |old(info.data)| % 0x1_0000_0000
    ensures info.data == old(info.data) + EncNode(ArrayNode(elementOffset, length))
  {
    hide Uleb, Le;
    off := |info.data| % 0x1_0000_0000;
    info.Uleb128(ABBREV_ARRAY_TYPE);
    info.Fixed(elementOffset, 4);
    info.Uleb128(ABBREV_SUBRANGE_TYPE);
    info.Uleb128(length);
    info.U8(0);
    ArrayNodeBytes(elementOffset, length);
  }

  lemma ArrayNodeBytes(elementOff: u32, length: u64)
    ensures EncNode(ArrayNode(elementOff, length))
         == Uleb(ABBREV_ARRAY_TYPE) + Le(elementOff, 4) + (Uleb(ABBREV_SUBRANGE_TYPE) + Uleb(length)) + [0]
  {
    hide Uleb, Le;
    var n := ArrayNode(elementOff, length);
    var kid := n.kids[0];
    assert EncVals(kid.vals) == Uleb(length) + EncVals([]);
    assert EncVals(n.vals) == Le(elementOff, 4) + EncVals([]);
    assert n.kids[1..] == [];
    assert EncForest(n.kids) == EncNode(kid) + EncForest(n.kids[1..]);
  }

  /** The ids whose types a symbol needs: a variable's own, a function's parameters' and locals'. */
  function TypeIdsOf(sym: Symbol): seq<TypeId> {
    match sym.kind
    case Variable => [sym.ty]
    case Function => VarTypes(sym.params) + VarTypes(sym.locals)
    case Unknown => []
  }

  function VarTypes(vs: seq<LocalVar>): (r: seq<TypeId>)
    ensures |r| == |vs| && forall i | 0 <= i < |vs| :: r[i] == vs[i].ty
  {
    seq(|vs|, i requires 0 <= i < |vs| => vs[i].ty)
  }

  function ReferencedTypes(symbols: seq<Symbol>): seq<TypeId> {
    if symbols == [] then [] else TypeIdsOf(symbols[0]) + ReferencedTypes(symbols[1..])
  }

  lemma {:induction false} Referenced(symbols: seq<Symbol>, sym: Symbol)
    requires sym in symbols
    ensures forall id <- TypeIdsOf(sym) :: id in ReferencedTypes(symbols)
  {
    if symbols[0] != sym {
      Referenced(symbols[1..], sym);
    }
  }

  predicate OnlyTypes(nodes: seq<Node>) {
    forall i | 0 <= i < |nodes| :: nodes[i].code == ABBREV_BASE_TYPE || nodes[i].code == ABBREV_ARRAY_TYPE
  }

  /** What both passes keep. Offsets mean nothing once the section outgrows 32 bits. */
  ghost predicate PassInv(info: bytes, mod: Module, base: bytes, nodes: seq<Node>, offs: TypeOffsets) {
    && info == base + EncForest(nodes) && OnlyTypes(nodes)
    && (forall id <- offs :: Describable(mod, id))
    && (|info| < 0x1_0000_0000 ==> TypesHeld(mod, nodes, |base|, offs) && forall id <- offs :: offs[id] < |info|)
  }

  /** The element of an array type has its DIE by now, if it is to have one. */
  predicate ElementReady(mod: Module, id: TypeId, offs: TypeOffsets) {
    mod.HasType(id) && mod.GetType(id).Array? ==>
      var element := mod.GetType(id).element;
      Describable(mod, element) ==> element in offs
  }

  lemma EncForestAdd(nodes: seq<Node>, n: Node)
    ensures EncForest(nodes + [n]) == EncForest(nodes) + EncNode(n)
  {
    hide EncNode;
    EncForestConcat(nodes, [n]);
    assert [n][1..] == [];
    assert EncForest([n]) == EncNode(n) + EncForest([n][1..]);
  }

  lemma ElementUntyped(mod: Module, id: TypeId, offs: TypeOffsets)
    requires ElementReady(mod, id, offs)
    ensures mod.HasType(id) && mod.GetType(id).Array? && mod.GetType(id).element !in offs ==>
              ElementMeaning(mod, mod.GetType(id).element) == NoTy
  {
    hide DescribePrimitive;
  }

  lemma PassKept(mod: Module, base: bytes, nodes: seq<Node>, offs: TypeOffsets, id: TypeId, off: u32, n: Node)
    requires base != [] && PassInv(base + EncForest(nodes), mod, base, nodes, offs)
    requires n.code == ABBREV_BASE_TYPE || n.code == ABBREV_ARRAY_TYPE
    requires Usable(mod, id) && Describable(mod, id) && ElementReady(mod, id, offs)
    requires off == |base + EncForest(nodes)| % 0x1_0000_0000
    requires match mod.GetType(id)
             case Primitive(k) => n == BaseNode(k)
             case Array(element, length) => n == ArrayNode(RefOf(offs, element), length)
             case _ => false
    ensures PassInv(base + EncForest(nodes) + EncNode(n), mod, base, nodes + [n], offs[id := off])
    ensures |EncNode(n)| > 0
  {
    hide TypesHeld, BaseNode, ArrayNode, ElementMeaning, DescribePrimitive, EncVals, RefOf, EncForest;
    EncForestAdd(nodes, n);
    var info := base + EncForest(nodes) + EncNode(n);
    Assoc(base, EncForest(nodes), EncNode(n));
    if |info| < 0x1_0000_0000 {
      ElementUntyped(mod, id, offs);
      SmallMod(|base + EncForest(nodes)|, 0x1_0000_0000);
      match mod.GetType(id)
      case Primitive(k) => BaseAdded(mod, nodes, |base|, offs, id, k);
      case Array(element, length) => ArrayAdded(mod, nodes, |base|, offs, id, element, length);
    }
  }

  /** Emits the DIE of a type unless it is recorded already; arrays take their element's DIE if recorded. */
  method EnsureType(info: BytesBuf, mod: Module, id: TypeId, offs: TypeOffsets,
                    ghost base: bytes, ghost nodes: seq<Node>)
    returns (newOffs: TypeOffsets, ghost newNodes: seq<Node>)
    requires Usable(mod, id) && base != []
    requires PassInv(info.data, mod, base, nodes, offs)
    requires ElementReady(mod, id, offs)
    modifies info
    ensures PassInv(info.data, mod, base, newNodes, newOffs)
    ensures newOffs.Keys == offs.Keys + if Describable(mod, id) then {id} else {}
  {
    hide EncForest, EncNode, TypesHeld, DescribePrimitive;
    newOffs, newNodes := offs, nodes;
    if id == NO_TYPE || id in offs {
      return;
    }
    var off;
    ghost var n;
    match mod.GetType(id) {
      case Primitive(k) =>
        off := EmitBaseTypeDIE(info, k);
        n := BaseNode(k);
      case Array(element, length) =>
        off := EmitArrayTypeDIE(info, RefOf(offs, element), length);
        n := ArrayNode(RefOf(offs, element), length);
      case _ =>
        return;
    }
    PassKept(mod, base, nodes, offs, id, off, n);
    newOffs, newNodes := offs[id := off], nodes + [n];
  }

  lemma StaysReady(mod: Module, id: TypeId, before: TypeOffsets, after: TypeOffsets)
    requires ElementReady(mod, id, before) && before.Keys <= after.Keys
    ensures ElementReady(mod, id, after)
  {
    assert forall e <- before.Keys :: e in after.Keys;
  }

  /** The first pass, for one id: an array's element gets its DIE before any array does. */
  method PreEnsureArrayElement(info: BytesBuf, mod: Module, id: TypeId, offs: TypeOffsets,
                               ghost base: bytes, ghost nodes: seq<Node>)
    returns (newOffs: TypeOffsets, ghost newNodes: seq<Node>)
    requires Usable(mod, id) && base != []
    requires PassInv(info.data, mod, base, nodes, offs)
    modifies info
    ensures PassInv(info.data, mod, base, newNodes, newOffs)
    ensures offs.Keys <= newOffs.Keys && ElementReady(mod, id, newOffs)
  {
    hide PassInv;
    newOffs, newNodes := offs, nodes;
    if id != NO_TYPE && mod.GetType(id).Array? && mod.GetType(id).element != NO_TYPE {
      newOffs, newNodes := EnsureType(info, mod, mod.GetType(id).element, offs, base, nodes);
    }
  }

  ghost predicate AllUsable(mod: Module, ids: seq<TypeId>) {
    forall i | 0 <= i < |ids| :: Usable(mod, ids[i])
  }

  /** Emits the types a unit's symbols need: array elements in a first pass, then the types themselves.
      Afterwards every reference to a needed type leads to a DIE with that type's meaning. */
  method EmitTypeDIEs(info: BytesBuf, mod: Module, symbols: seq<Symbol>)
    returns (offs: TypeOffsets, ghost nodes: seq<Node>)
    requires AllUsable(mod, ReferencedTypes(symbols)) && info.data != []
    modifies info
    ensures info.data == old(info.data) + EncForest(nodes) && OnlyTypes(nodes)
    ensures |info.data| < 0x1_0000_0000 ==>
              && Declared(TABLE, nodes)
              && forall id <- ReferencedTypes(symbols) ::
                   TypeAt(Locate(TABLE, nodes, |old(info.data)|), RefOf(offs, id)) == Meaning(mod, id)
  {
    hide PassInv, EncForest, ReferencedTypes, Describable, Meaning, TypeAt, RefOf, Locate, Declared, OnlyTypes;
    ghost var base := info.data;
    var ids := ReferencedTypes(symbols);
    offs, nodes := map[], [];
    EmptyPass(mod, base);
    for i := 0 to |ids|
      invariant PassInv(info.data, mod, base, nodes, offs)
      invariant forall j | 0 <= j < i :: ElementReady(mod, ids[j], offs)
    {
      ghost var before := offs;
      offs, nodes := PreEnsureArrayElement(info, mod, ids[i], offs, base, nodes);
      forall j | 0 <= j < i ensures ElementReady(mod, ids[j], offs) {
        StaysReady(mod, ids[j], before, offs);
      }
    }
    for i := 0 to |ids|
      invariant PassInv(info.data, mod, base, nodes, offs)
      invariant forall j | 0 <= j < |ids| :: ElementReady(mod, ids[j], offs)
      invariant forall j | 0 <= j < i && Describable(mod, ids[j]) :: ids[j] in offs
    {
      ghost var before := offs;
      offs, nodes := EnsureType(info, mod, ids[i], offs, base, nodes);
      forall j | 0 <= j < |ids| ensures ElementReady(mod, ids[j], offs) {
        StaysReady(mod, ids[j], before, offs);
      }
    }
    PassDone(mod, base, info.data, nodes, offs, ids);
  }

  lemma EmptyPass(mod: Module, base: bytes)
    ensures PassInv(base, mod, base, [], map[])
  {
    assert base + EncForest([]) == base;
  }

  lemma PassDone(mod: Module, base: bytes, info: bytes, nodes: seq<Node>, offs: TypeOffsets, ids: seq<TypeId>)
    requires PassInv(info, mod, base, nodes, offs)
    requires AllUsable(mod, ids)
    requires forall j | 0 <= j < |ids| && Describable(mod, ids[j]) :: ids[j] in offs
    ensures info == base + EncForest(nodes) && OnlyTypes(nodes)
    ensures |info| < 0x1_0000_0000 ==>
              && Declared(TABLE, nodes)
              && forall id <- ids :: TypeAt(Locate(TABLE, nodes, |base|), RefOf(offs, id)) == Meaning(mod, id)
  {
    hide EncForest, TABLE, NodeDeclared, DescribePrimitive;
    if |info| < 0x1_0000_0000 {
      forall id <- ids ensures TypeAt(Locate(TABLE, nodes, |base|), RefOf(offs, id)) == Meaning(mod, id) {
        if id !in offs {
          assert Meaning(mod, id) == NoTy;
        }
      }
    }
  }
}
