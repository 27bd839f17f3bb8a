/** Single-pass emission of aggregate types into the CodeView type stream: whatever the aggregates, each
    gets records whose meaning is that aggregate, and records refer only to earlier ones. */
module TypeEmitter {
  import opened Bytes
  import opened Model
  import opened PdbModel
  import opened TypeRecords
  import RsmModel
  import Registrar

  // ----- Types of plain variables ---------------------------------------------------------------

  /** The built-in type of a size, where there is one. */
  function SizeSimple(size: u32): Option<SimpleType> {
    match size
    case 0 => Some(VoidPointer64)
    case 1 => Some(UnsignedChar)
    case 2 => Some(UInt16Short)
    case 4 => Some(TypeRecords.SimpleType.UInt32)
    case 8 => Some(TypeRecords.SimpleType.UInt64)
    case _ => None
  }

  function SizeTy(size: u32): Ty {
    match SizeSimple(size)
    case Some(s) => ScalarTy(s)
    case None => ArrayTy(ScalarTy(UnsignedChar), size)
  }

  /** The built-in type of a primitive; nothing for an 80-bit float or a boolean of odd size. */
  function KindSimple(byteSize: u32, kind: PrimitiveKind): Option<SimpleType> {
    match kind
    case Bool =>
      if byteSize == 1 then Some(Boolean8)
      else if byteSize == 2 then Some(Boolean16)
      else if byteSize == 4 then Some(Boolean32)
      else if byteSize == 8 then Some(Boolean64)
      else None
    case Char => Some(NarrowChar)
    case WChar => Some(WideChar)
    case Int8 => Some(SignedChar)
    case Int16 => Some(Int16Short)
    case Int32 => Some(SInt32)
    case Int64 => Some(Int64Quad)
    case UInt8 => Some(UnsignedChar)
    case UInt16 => Some(UInt16Short)
    case UInt32 => Some(TypeRecords.SimpleType.UInt32)
    case UInt64 => Some(TypeRecords.SimpleType.UInt64)
    case Float32 => Some(TypeRecords.SimpleType.Float32)
    case Float64 => Some(TypeRecords.SimpleType.Float64)
    case Float80 => None
    case PChar => Some(NarrowCharPointer64)
    case PWChar => Some(WideCharPointer64)
  }

  function KindTy(byteSize: u32, prim: Option<PrimitiveKind>): Ty {
    if prim.Some? && KindSimple(byteSize, prim.value).Some? then ScalarTy(KindSimple(byteSize, prim.value).value)
    else SizeTy(byteSize)
  }

  // ----- What the aggregates mean --------------------------------------------------------------------

  type Aggregates = seq<AggregateRecord>

  /** A variable of class type is a pointer to the class; everything else is held by value. */
  function VarTy(aggs: Aggregates, i: nat): Ty
    requires i < |aggs|
    decreases i, 5
  {
    if aggs[i].kind == ClassType then PointerTy(InnerTy(aggs, i)) else InnerTy(aggs, i)
  }

  function InnerTy(aggs: Aggregates, i: nat): Ty
    requires i < |aggs|
    decreases i, 4
  {
    var a := aggs[i];
    match a.kind
    case SetType =>
      AggregateTy(false, |a.enumerators| % 0x1_0000, BitMembers(a, |a.enumerators|), a.byteSize, a.name, None)
    case EnumType =>
      EnumTy(|a.enumerators| % 0x1_0000, EnumeratorMembers(a.enumerators, |a.enumerators|), a.name,
             ScalarTy(EnumUnit(a.byteSize)))
    case _ =>
      var members := BaseMember(aggs, i) + FieldMembers(aggs, i, |a.fields|) + MethodMembers(aggs, i, MethodCount(a));
      AggregateTy(a.kind == ClassType, |members| % 0x1_0000, members, a.byteSize, a.name, Some(UniqueName(a)))
  }

  function SetUnit(byteSize: u32): SimpleType {
    if byteSize == 1 then UnsignedChar
    else if byteSize == 2 then UInt16Short
    else if byteSize == 4 then TypeRecords.SimpleType.UInt32
    else TypeRecords.SimpleType.UInt64
  }

  function EnumUnit(byteSize: u32): SimpleType {
    if byteSize == 1 then UnsignedChar else if byteSize == 2 then UInt16Short else TypeRecords.SimpleType.UInt32
  }

  /** One bit per enumerator, at the position of its ordinal. */
  function BitMembers(a: AggregateRecord, n: nat): (r: seq<MemberTy>)
    requires n <= |a.enumerators|
    ensures |r| == n
  {
    if n == 0 then []
    else
      var e := a.enumerators[n - 1];
      BitMembers(a, n - 1) + [FieldTy(BitTy(ScalarTy(SetUnit(a.byteSize)), e.value % 0x100), 0, e.name)]
  }

  function EnumeratorMembers(es: seq<Enumerator>, n: nat): (r: seq<MemberTy>)
    requires n <= |es|
    ensures |r| == n
  {
    if n == 0 then [] else EnumeratorMembers(es, n - 1) + [EnumeratorTy(es[n - 1].value, es[n - 1].name)]
  }

  /** The base class itself, not the pointer a variable of it would be. A later base is dropped. */
  function BaseMember(aggs: Aggregates, i: nat): (r: seq<MemberTy>)
    requires i < |aggs|
    decreases i, 3
  {
    var a := aggs[i];
    if a.kind == ClassType && a.base.Some? && a.base.value < i then [BaseTy(InnerTy(aggs, a.base.value))] else []
  }

  function FieldMembers(aggs: Aggregates, i: nat, n: nat): (r: seq<MemberTy>)
    requires i < |aggs| && n <= |aggs[i].fields|
    ensures |r| == n
    decreases i, 3, n
  {
    if n == 0 then []
    else
      var f := aggs[i].fields[n - 1];
      FieldMembers(aggs, i, n - 1) + [FieldTy(FieldType(aggs, i, f), f.byteOffset, f.name)]
  }

  /** A field of a later aggregate's type falls back to one byte. */
  function FieldType(aggs: Aggregates, i: nat, f: AggregateField): Ty
    requires i < |aggs|
    decreases i, 2
  {
    match f.nested
    case Some(j) => if j < i then VarTy(aggs, j) else ScalarTy(UnsignedChar)
    case None => KindTy(if f.byteSize != 0 then f.byteSize else 4, f.primKind)
  }

  function UniqueName(a: AggregateRecord): string {
    (if a.kind == ClassType then ".?AV" else ".?AU") + a.name + "@@"
  }

  function MethodCount(a: AggregateRecord): (n: nat)
    ensures n <= |a.methods|
  {
    if a.kind == ClassType then |a.methods| else 0
  }

  function MethodMembers(aggs: Aggregates, i: nat, n: nat): (r: seq<MemberTy>)
    requires i < |aggs| && n <= |aggs[i].methods|
    ensures |r| == n
    decreases i, 3, n
  {
    if n == 0 then []
    else
      MethodMembers(aggs, i, n - 1) + [MethodTy(MethodType(aggs, i, n - 1), aggs[i].methods[n - 1].name)]
  }

  /** A method refers to its class by name. */
  function MethodType(aggs: Aggregates, i: nat, m: nat): Ty
    requires i < |aggs| && m < |aggs[i].methods|
    decreases i, 2
  {
    var a := aggs[i];
    var cls := ForwardTy(a.name, UniqueName(a));
    var meth := a.methods[m];
    FunctionTy(ScalarTy(if meth.returnsVoid then Void else SInt32), cls, PointerTy(cls), |meth.params| % 0x1_0000,
               ParamTypes(aggs, i, meth.params, |meth.params|))
  }

  function ParamTypes(aggs: Aggregates, i: nat, ps: seq<Param>, n: nat): (r: seq<Ty>)
    requires i < |aggs| && n <= |ps|
    ensures |r| == n
    decreases i, 1, n
  {
    if n == 0 then [] else ParamTypes(aggs, i, ps, n - 1) + [ResolvedTy(aggs, i, ps[n - 1])]
  }

  /** The type of a variable when the types of the first `i` aggregates are known. */
  function ResolvedTy(aggs: Aggregates, i: nat, p: Param): Ty
    requires i <= |aggs|
    decreases i, 0
  {
    if p.aggregateIndex.Some? && p.aggregateIndex.value < i then VarTy(aggs, p.aggregateIndex.value)
    else KindTy(p.byteSize, p.primKind)
  }

  /** Which function type a qualified name stands for: the last method so named. */
  function MethodTypes(aggs: Aggregates, i: nat, m: nat): map<string, Ty>
    requires i <= |aggs| && (if i < |aggs| then m <= |aggs[i].methods| else m == 0)
    decreases i, m
  {
    if m > 0 then MethodTypes(aggs, i, m - 1)[aggs[i].methods[m - 1].qualifiedName := MethodType(aggs, i, m - 1)]
    else if i > 0 then MethodTypes(aggs, i - 1, MethodCount(aggs[i - 1]))
    else map[]
  }

  // ----- Emitted types -------------------------------------------------------------------------------

  predicate Means(t: Table, ti: TypeIndex, ty: Ty)
    requires Ordered(t)
  {
    Below(ti, |t|) && Meaning(t, ti) == ty
  }

  predicate ArraysOk(t: Table, arrays: map<u32, TypeIndex>)
    requires Ordered(t)
  {
    forall size <- arrays :: Means(t, arrays[size], ArrayTy(ScalarTy(UnsignedChar), size))
  }

  predicate Emitted(t: Table, aggs: Aggregates, inner: seq<TypeIndex>, vars: seq<TypeIndex>)
    requires Ordered(t)
  {
    && |inner| == |vars| <= |aggs|
    && forall i | 0 <= i < |inner| :: Means(t, inner[i], InnerTy(aggs, i)) && Means(t, vars[i], VarTy(aggs, i))
  }

  predicate MapMeans(t: Table, tis: map<string, TypeIndex>, tys: map<string, Ty>)
    requires Ordered(t)
  {
    tis.Keys == tys.Keys && forall q <- tis :: Means(t, tis[q], tys[q])
  }

  lemma MeansStays(t: Table, u: Table, ti: TypeIndex, ty: Ty)
    requires Ordered(t) && Ordered(u) && t <= u && Means(t, ti, ty)
    ensures Means(u, ti, ty)
  {
    hide Meaning;
    MeaningStays(t, u, ti);
  }

  lemma ArraysStay(t: Table, u: Table, arrays: map<u32, TypeIndex>)
    requires Ordered(t) && Ordered(u) && t <= u && ArraysOk(t, arrays)
    ensures ArraysOk(u, arrays)
  {
    hide Means;
    forall size <- arrays ensures Means(u, arrays[size], ArrayTy(ScalarTy(UnsignedChar), size)) {
      MeansStays(t, u, arrays[size], ArrayTy(ScalarTy(UnsignedChar), size));
    }
  }

  lemma EmittedStays(t: Table, u: Table, aggs: Aggregates, inner: seq<TypeIndex>, vars: seq<TypeIndex>)
    requires Ordered(t) && Ordered(u) && t <= u && Emitted(t, aggs, inner, vars)
    ensures Emitted(u, aggs, inner, vars)
  {
    hide Means, InnerTy, VarTy;
    forall i | 0 <= i < |inner| ensures Means(u, inner[i], InnerTy(aggs, i)) && Means(u, vars[i], VarTy(aggs, i)) {
      MeansStays(t, u, inner[i], InnerTy(aggs, i));
      MeansStays(t, u, vars[i], VarTy(aggs, i));
    }
  }

  lemma MapStays(t: Table, u: Table, tis: map<string, TypeIndex>, tys: map<string, Ty>)
    requires Ordered(t) && Ordered(u) && t <= u && MapMeans(t, tis, tys)
    ensures MapMeans(u, tis, tys)
  {
    hide Means;
    forall q <- tis ensures Means(u, tis[q], tys[q]) {
      MeansStays(t, u, tis[q], tys[q]);
    }
  }

  class PdbWriter {
    const aggregates: Aggregates
    var tpi: Table
    var byteArrays: map<u32, TypeIndex>
    var inner: seq<TypeIndex>
    var vars: seq<TypeIndex>
    var methodTypes: map<string, TypeIndex>

    ghost predicate Valid()
      reads this
    {
      Ordered(tpi) && ArraysOk(tpi, byteArrays) && Emitted(tpi, aggregates, inner, vars)
    }

    constructor (aggregates: Aggregates)
      ensures Valid() && this.aggregates == aggregates && inner == [] && vars == [] && methodTypes == map[]
    {
      this.aggregates := aggregates;
      tpi, byteArrays, inner, vars, methodTypes := [], map[], [], [], map[];
    }

    /** `writeLeafType`: appends a record, whose index is the length the table had. */
    method Append(leaf: Leaf) returns (ti: TypeIndex)
      requires Valid() && LeafBelow(leaf, |tpi|)
      modifies this`tpi
      ensures Valid() && tpi == old(tpi) + [leaf] && old(tpi) <= tpi && ti == Entry(|old(tpi)|) && Below(ti, |tpi|)
      ensures Meaning(tpi, ti) == LeafMeaning(old(tpi), leaf, |old(tpi)|)
      ensures leaf.FieldList? ==> FieldListMeaning(tpi, ti) == MembersMeaning(old(tpi), leaf.members, |old(tpi)|)
      ensures leaf.ArgList? ==> ArgListMeaning(tpi, ti) == ArgsMeaning(old(tpi), leaf.args, |old(tpi)|)
    {
      hide Ordered, LeafBelow, ArraysOk, Emitted, Meaning, LeafMeaning, FieldListMeaning, ArgListMeaning,
           MembersMeaning, ArgsMeaning;
      AppendMeans(tpi, leaf);
      ArraysStay(tpi, tpi + [leaf], byteArrays);
      EmittedStays(tpi, tpi + [leaf], aggregates, inner, vars);
      ti := Entry(|tpi|);
      tpi := tpi + [leaf];
    }

    /** Built-in types for 0, 1, 2, 4 and 8 bytes, else one byte array per size. */
    method TypeForSize(size: u32) returns (ti: TypeIndex)
      requires Valid()
      modifies this`tpi, this`byteArrays
      ensures Valid() && old(tpi) <= tpi && Means(tpi, ti, SizeTy(size))
      ensures size in old(byteArrays) || SizeSimple(size).Some? ==> tpi == old(tpi)
      ensures byteArrays == old(byteArrays) || (size !in old(byteArrays) && byteArrays == old(byteArrays)[size := ti])
    {
      hide Ordered, Emitted, ArraysOk;
      var s := SizeSimple(size);
      if s.Some? {
        return Simple(s.value);
      }
      ArraysHave(tpi, byteArrays, size);
      if size in byteArrays {
        return byteArrays[size];
      }
      ti := Append(ArrayLeaf(Simple(UnsignedChar), size));
      ArraysAdd(tpi, byteArrays, size, ti);
      byteArrays := byteArrays[size := ti];
    }

    method TypeForKindParts(byteSize: u32, prim: Option<PrimitiveKind>) returns (ti: TypeIndex)
      requires Valid()
      modifies this`tpi, this`byteArrays
      ensures Valid() && old(tpi) <= tpi && Means(tpi, ti, KindTy(byteSize, prim))
    {
      hide Ordered, Emitted, ArraysOk;
      if prim.Some? {
        var s := KindSimple(byteSize, prim.value);
        if s.Some? {
          return Simple(s.value);
        }
      }
      ti := TypeForSize(byteSize);
    }

    /** The type of a variable or parameter: its aggregate's when that is emitted, else by kind and size. */
    method ResolveTypeIndex(p: Param) returns (ti: TypeIndex)
      requires Valid()
      modifies this`tpi, this`byteArrays
      ensures Valid() && old(tpi) <= tpi && Means(tpi, ti, ResolvedTy(aggregates, |vars|, p))
    {
      hide Ordered, ArraysOk, Means, VarTy, InnerTy, KindTy;
      if p.aggregateIndex.Some? && p.aggregateIndex.value < |vars| {
        return vars[p.aggregateIndex.value];
      }
      ti := TypeForKindParts(p.byteSize, p.primKind);
    }

    method FieldTypeIndex(f: AggregateField) returns (ti: TypeIndex)
      requires Valid() && |vars| < |aggregates|
      modifies this`tpi, this`byteArrays
      ensures Valid() && old(tpi) <= tpi && Means(tpi, ti, FieldType(aggregates, |vars|, f))
    {
      hide Ordered, ArraysOk, VarTy, InnerTy, KindTy;
      if f.nested.Some? {
        return if f.nested.value < |vars| then vars[f.nested.value] else Simple(UnsignedChar);
      }
      ti := TypeForKindParts(if f.byteSize != 0 then f.byteSize else 4, f.primKind);
    }

    // ----- Sets and enums -----------------------------------------------------------------------

    /** A set: a structure of one-bit fields. */
    method EmitSet(i: nat) returns (ti: TypeIndex)
      requires Valid() && i < |aggregates| && aggregates[i].kind == SetType
      modifies this`tpi
      ensures Valid() && old(tpi) <= tpi && Means(tpi, ti, InnerTy(aggregates, i))
    {
      hide Ordered, ArraysOk, Emitted, Meaning, MembersMeaning;
      var a := aggregates[i];
      var underlying := Simple(SetUnit(a.byteSize));
      var ms := [];
      NoMembers(tpi, |tpi|);
      for n := 0 to |a.enumerators|
        invariant Valid() && old(tpi) <= tpi
        invariant MembersBelow(ms, |tpi|) && MembersMeaning(tpi, ms, |tpi|) == BitMembers(a, n)
      {
        var e := a.enumerators[n];
        ghost var before := tpi;
        SimpleMeans(tpi, SetUnit(a.byteSize));
        var bit := Append(BitField(underlying, e.value % 0x100));
        MembersStay(before, |before|, tpi, |tpi|, ms);
        MembersAdd(tpi, ms, DataMember(bit, 0, e.name), |tpi|);
        ms := ms + [DataMember(bit, 0, e.name)];
      }
      var fieldList := Append(FieldList(ms));
      ti := Append(ClassLeaf(false, |a.enumerators| % 0x1_0000, fieldList, a.byteSize, a.name, None));
    }

    method EmitEnum(i: nat) returns (ti: TypeIndex)
      requires Valid() && i < |aggregates| && aggregates[i].kind == EnumType
      modifies this`tpi
      ensures Valid() && old(tpi) <= tpi && Means(tpi, ti, InnerTy(aggregates, i))
    {
      hide Ordered, ArraysOk, Emitted, Meaning, MembersMeaning;
      var a := aggregates[i];
      var ms := [];
      NoMembers(tpi, |tpi|);
      for n := 0 to |a.enumerators|
        invariant Valid() && tpi == old(tpi)
        invariant MembersBelow(ms, |tpi|) && MembersMeaning(tpi, ms, |tpi|) == EnumeratorMembers(a.enumerators, n)
      {
        var e := a.enumerators[n];
        MembersAdd(tpi, ms, Enumerate(e.value, e.name), |tpi|);
        ms := ms + [Enumerate(e.value, e.name)];
      }
      var fieldList := Append(FieldList(ms));
      SimpleMeans(tpi, EnumUnit(a.byteSize));
      ti := Append(EnumLeaf(|a.enumerators| % 0x1_0000, fieldList, a.name, Simple(EnumUnit(a.byteSize))));
    }

    // ----- Records and classes --------------------------------------------------------------------

    /** The argument list of a method; lists without arguments share one record. */
    method EmitArgList(params: seq<Param>, empty: Option<TypeIndex>) returns (ti: TypeIndex, shared: Option<TypeIndex>)
      requires Valid() && |vars| < |aggregates| && (empty.Some? ==> ArgsMean(tpi, empty.value, []))
      modifies this`tpi, this`byteArrays
      ensures Valid() && old(tpi) <= tpi
      ensures ArgsMean(tpi, ti, ParamTypes(aggregates, |vars|, params, |params|))
      ensures shared.Some? ==> ArgsMean(tpi, shared.value, [])
      ensures params == [] ==> shared == Some(ti) && (empty.Some? ==> ti == empty.value)
    {
      hide Ordered, ArraysOk, Emitted, Meaning, ArgsMeaning, ResolvedTy;
      shared := empty;
      NoArgs(tpi, |tpi|);
      if params == [] {
        if shared.None? {
          ti := Append(ArgList([]));
          shared := Some(ti);
        }
        return shared.value, shared;
      }
      var args := [];
      for n := 0 to |params|
        invariant Valid() && old(tpi) <= tpi
        invariant AllBelow(args, |tpi|) && ArgsMeaning(tpi, args, |tpi|) == ParamTypes(aggregates, |vars|, params, n)
      {
        ghost var before := tpi;
        var arg := ResolveTypeIndex(params[n]);
        ArgsStay(before, |before|, tpi, |tpi|, args);
        ArgsAdd(tpi, args, arg, |tpi|);
        args := args + [arg];
      }
      ti := Append(ArgList(args));
      if shared.Some? {
        ArgsMeanStays(old(tpi), tpi, shared.value, []);
      }
    }

    /** The function types of a class's methods, all of the forward-declared class. */
    method EmitMethods(i: nat) returns (types: seq<TypeIndex>)
      requires Valid() && i == |vars| < |aggregates| && aggregates[i].kind == ClassType
      requires MapMeans(tpi, methodTypes, MethodTypes(aggregates, i, 0))
      modifies this`tpi, this`byteArrays, this`methodTypes
      ensures Valid() && old(tpi) <= tpi
      ensures AllMean(tpi, types, aggregates, i, |aggregates[i].methods|)
      ensures MapMeans(tpi, methodTypes, MethodTypes(aggregates, i, |aggregates[i].methods|))
    {
      hide Ordered, ArraysOk, Emitted, MethodTypes, MethodType, MapMeans, LeafMeaning, ArgsMean, Means;
      var a := aggregates[i];
      var cls := Append(ForwardClass(a.name, UniqueName(a)));
      ForwardMeans(old(tpi), a, tpi, cls);
      ghost var t1 := tpi;
      var this_ := Append(PointerLeaf(cls));
      PointerMeans(t1, tpi, cls, this_, ForwardTy(a.name, UniqueName(a)));
      MeansStays(t1, tpi, cls, ForwardTy(a.name, UniqueName(a)));
      MapStays(old(tpi), tpi, methodTypes, MethodTypes(aggregates, i, 0));
      types := [];
      var empty := None;
      for m := 0 to |a.methods|
        invariant Valid() && old(tpi) <= tpi && AllMean(tpi, types, aggregates, i, m)
        invariant MapMeans(tpi, methodTypes, MethodTypes(aggregates, i, m))
        invariant Means(tpi, cls, ForwardTy(a.name, UniqueName(a)))
        invariant Means(tpi, this_, PointerTy(ForwardTy(a.name, UniqueName(a))))
        invariant empty.Some? ==> ArgsMean(tpi, empty.value, [])
      {
        ghost var before := tpi;
        var args;
        args, empty := EmitArgList(a.methods[m].params, empty);
        MeansStays(before, tpi, cls, ForwardTy(a.name, UniqueName(a)));
        MeansStays(before, tpi, this_, PointerTy(ForwardTy(a.name, UniqueName(a))));
        ghost var mid := tpi;
        var ti := EmitMethodType(i, m, cls, this_, args);
        MeansStays(mid, tpi, cls, ForwardTy(a.name, UniqueName(a)));
        MeansStays(mid, tpi, this_, PointerTy(ForwardTy(a.name, UniqueName(a))));
        if empty.Some? {
          ArgsMeanStays(mid, tpi, empty.value, []);
        }
        AllMeanStays(before, tpi, types, aggregates, i, m);
        MapStays(before, tpi, methodTypes, MethodTypes(aggregates, i, m));
        MapAdd(tpi, methodTypes, aggregates, i, m, ti);
        types := types + [ti];
        methodTypes := methodTypes[a.methods[m].qualifiedName := ti];
      }
    }

    method EmitMethodType(i: nat, m: nat, cls: TypeIndex, this_: TypeIndex, args: TypeIndex) returns (ti: TypeIndex)
      requires Valid() && i < |aggregates| && m < |aggregates[i].methods|
      requires Means(tpi, cls, ForwardTy(aggregates[i].name, UniqueName(aggregates[i])))
      requires Means(tpi, this_, PointerTy(ForwardTy(aggregates[i].name, UniqueName(aggregates[i]))))
      requires var ps := aggregates[i].methods[m].params; ArgsMean(tpi, args, ParamTypes(aggregates, i, ps, |ps|))
      modifies this`tpi
      ensures Valid() && old(tpi) <= tpi && Means(tpi, ti, MethodType(aggregates, i, m))
    {
      hide Ordered, ArraysOk, Emitted, Meaning, ArgListMeaning;
      var meth := aggregates[i].methods[m];
      var ret := if meth.returnsVoid then Void else SInt32;
      SimpleMeans(tpi, ret);
      ti := Append(MemberFunction(Simple(ret), cls, this_, |meth.params| % 0x1_0000, args));
    }

    /** The base class, which must be emitted already, and the fields. */
    method CollectFields(i: nat) returns (ms: seq<Member>)
      requires Valid() && i == |vars| < |aggregates|
      modifies this`tpi, this`byteArrays
      ensures Valid() && old(tpi) <= tpi && MembersBelow(ms, |tpi|)
      ensures MembersMeaning(tpi, ms, |tpi|)
              == BaseMember(aggregates, i) + FieldMembers(aggregates, i, |aggregates[i].fields|)
    {
      hide Ordered, ArraysOk, InnerTy, VarTy, Meaning, MembersMeaning, FieldType, MembersBelow, Means;
      var a := aggregates[i];
      ms := [];
      NoMembers(tpi, |tpi|);
      if a.kind == ClassType && a.base.Some? && a.base.value < |inner| {
        BaseAdd(tpi, inner[a.base.value], InnerTy(aggregates, a.base.value));
        ms := [BaseClass(inner[a.base.value])];
      }
      ghost var base := BaseMember(aggregates, i);
      assert MembersMeaning(tpi, ms, |tpi|) == base;
      hide BaseMember, Emitted;
      for n := 0 to |a.fields|
        invariant Valid() && old(tpi) <= tpi && MembersBelow(ms, |tpi|)
        invariant MembersMeaning(tpi, ms, |tpi|) == base + FieldMembers(aggregates, i, n)
      {
        ghost var before := tpi;
        var f := a.fields[n];
        var ti := FieldTypeIndex(f);
        MembersStay(before, |before|, tpi, |tpi|, ms);
        DataAdd(tpi, ms, ti, f, FieldType(aggregates, i, f));
        ms := ms + [DataMember(ti, f.byteOffset, f.name)];
      }
    }

    /** The members of a record or class: its base, its fields, and its methods. */
    method CollectMembers(i: nat, types: seq<TypeIndex>) returns (ms: seq<Member>, count: u16)
      requires Valid() && i == |vars| < |aggregates|
      requires AllMean(tpi, types, aggregates, i, MethodCount(aggregates[i]))
      modifies this`tpi, this`byteArrays
      ensures Valid() && old(tpi) <= tpi && MembersBelow(ms, |tpi|)
      ensures var a := aggregates[i];
              var fields := BaseMember(aggregates, i) + FieldMembers(aggregates, i, |a.fields|);
              var members := fields + MethodMembers(aggregates, i, MethodCount(a));
              MembersMeaning(tpi, ms, |tpi|) == members && count == |members| % 0x1_0000
    {
      hide Ordered, ArraysOk, Emitted, BaseMember, FieldMembers, Meaning, MembersMeaning, MethodType, MembersBelow,
           Means;
      var a := aggregates[i];
      ms := CollectFields(i);
      AllMeanStays(old(tpi), tpi, types, aggregates, i, MethodCount(a));
      ghost var done := MembersMeaning(tpi, ms, |tpi|);
      for m := 0 to MethodCount(a)
        invariant Valid() && old(tpi) <= tpi && AllMean(tpi, types, aggregates, i, MethodCount(a))
        invariant MembersBelow(ms, |tpi|)
        invariant MembersMeaning(tpi, ms, |tpi|) == done + MethodMembers(aggregates, i, m)
      {
        MethodAdd(tpi, ms, types[m], a.methods[m].name, MethodType(aggregates, i, m));
        ms := ms + [OneMethod(types[m], a.methods[m].name)];
      }
      count := |ms| % 0x1_0000;
    }

    method EmitComposite(i: nat) returns (innerTi: TypeIndex, varTi: TypeIndex)
      requires Valid() && i == |vars| < |aggregates|
               && (aggregates[i].kind == RecordType || aggregates[i].kind == ClassType)
      requires MapMeans(tpi, methodTypes, MethodTypes(aggregates, i, 0))
      modifies this`tpi, this`byteArrays, this`methodTypes
      ensures Valid() && old(tpi) <= tpi
      ensures Means(tpi, innerTi, InnerTy(aggregates, i)) && Means(tpi, varTi, VarTy(aggregates, i))
      ensures MapMeans(tpi, methodTypes, MethodTypes(aggregates, i, MethodCount(aggregates[i])))
    {
      hide Ordered, ArraysOk, Emitted, MembersMeaning, FieldMembers, MethodMembers, BaseMember, MethodTypes, MapMeans,
           AllMean;
      var a := aggregates[i];
      var types := [];
      AllMeanNone(tpi, aggregates, i);
      if MethodCount(a) > 0 {
        types := EmitMethods(i);
      }
      ghost var t1 := tpi;
      var ms, count := CollectMembers(i, types);
      var fieldList := Append(FieldList(ms));
      innerTi := Append(ClassLeaf(a.kind == ClassType, count, fieldList, a.byteSize, a.name, Some(UniqueName(a))));
      ghost var t2 := tpi;
      varTi := innerTi;
      if a.kind == ClassType {
        varTi := Append(PointerLeaf(innerTi));
        MeansStays(t2, tpi, innerTi, InnerTy(aggregates, i));
      }
      MapStays(t1, tpi, methodTypes, MethodTypes(aggregates, i, MethodCount(a)));
    }

    /** Emits every aggregate, in order. */
    method EmitAggregates()
      requires Valid() && inner == [] && vars == [] && methodTypes == map[]
      modifies this
      ensures Valid() && old(tpi) <= tpi && |inner| == |vars| == |aggregates|
      ensures Ordered(tpi) && Emitted(tpi, aggregates, inner, vars)
      ensures MapMeans(tpi, methodTypes, MethodTypes(aggregates, |aggregates|, 0))
    {
      hide Ordered, ArraysOk, Means, InnerTy, VarTy, MapMeans;
      assert MapMeans(tpi, methodTypes, MethodTypes(aggregates, 0, 0)) by { NoneMapped(tpi, aggregates); }
      for i := 0 to |aggregates|
        invariant Valid() && old(tpi) <= tpi && |inner| == |vars| == i
        invariant MapMeans(tpi, methodTypes, MethodTypes(aggregates, i, 0))
      {
        var innerTi, varTi;
        ghost var before := tpi;
        if aggregates[i].kind == SetType {
          innerTi := EmitSet(i);
          varTi := innerTi;
          ValueType(aggregates, i);
          MapStays(before, tpi, methodTypes, MethodTypes(aggregates, i, 0));
        } else if aggregates[i].kind == EnumType {
          innerTi := EmitEnum(i);
          varTi := innerTi;
          ValueType(aggregates, i);
          MapStays(before, tpi, methodTypes, MethodTypes(aggregates, i, 0));
        } else {
          innerTi, varTi := EmitComposite(i);
        }
        inner, vars := inner + [innerTi], vars + [varTi];
      }
    }
  }

  // ----- Adding one member ---------------------------------------------------------------------------

  predicate ArgsMean(t: Table, ti: TypeIndex, tys: seq<Ty>)
    requires Ordered(t)
  {
    Below(ti, |t|) && ArgListMeaning(t, ti) == tys
  }

  lemma ArgsMeanStays(t: Table, u: Table, ti: TypeIndex, tys: seq<Ty>)
    requires Ordered(t) && Ordered(u) && t <= u && ArgsMean(t, ti, tys)
    ensures ArgsMean(u, ti, tys)
  {
    hide ArgListMeaning;
    ArgListStays(t, u, ti);
  }

  /** The types of the first `n` methods. */
  predicate AllMean(t: Table, types: seq<TypeIndex>, aggs: Aggregates, i: nat, n: nat)
    requires Ordered(t) && i < |aggs| && n <= |aggs[i].methods|
  {
    |types| == n && forall m | 0 <= m < n :: Means(t, types[m], MethodType(aggs, i, m))
  }

  lemma AllMeanStays(t: Table, u: Table, types: seq<TypeIndex>, aggs: Aggregates, i: nat, n: nat)
    requires i < |aggs| && n <= |aggs[i].methods|
    requires Ordered(t) && Ordered(u) && t <= u && AllMean(t, types, aggs, i, n)
    ensures AllMean(u, types, aggs, i, n)
  {
    hide Means, MethodType;
    forall m | 0 <= m < n ensures Means(u, types[m], MethodType(aggs, i, m)) {
      MeansStays(t, u, types[m], MethodType(aggs, i, m));
    }
  }

  lemma AllMeanNone(t: Table, aggs: Aggregates, i: nat)
    requires Ordered(t) && i < |aggs|
    ensures AllMean(t, [], aggs, i, 0)
  {
  }

  lemma ValueType(aggs: Aggregates, i: nat)
    requires i < |aggs| && aggs[i].kind != ClassType
    ensures VarTy(aggs, i) == InnerTy(aggs, i)
  {
    hide InnerTy;
  }

  lemma NoneMapped(t: Table, aggs: Aggregates)
    requires Ordered(t)
    ensures MapMeans(t, map[], MethodTypes(aggs, 0, 0))
  {
  }

  lemma MapAdd(t: Table, tis: map<string, TypeIndex>, aggs: Aggregates, i: nat, m: nat, ti: TypeIndex)
    requires Ordered(t) && i < |aggs| && m < |aggs[i].methods|
    requires MapMeans(t, tis, MethodTypes(aggs, i, m)) && Means(t, ti, MethodType(aggs, i, m))
    ensures MapMeans(t, tis[aggs[i].methods[m].qualifiedName := ti], MethodTypes(aggs, i, m + 1))
  {
    hide Means, MethodType;
  }

  lemma SimpleMeans(t: Table, s: SimpleType)
    requires Ordered(t)
    ensures Means(t, Simple(s), ScalarTy(s))
  {
  }

  lemma ForwardMeans(t: Table, a: AggregateRecord, u: Table, ti: TypeIndex)
    requires Ordered(t) && Ordered(u) && Below(ti, |u|)
    requires Meaning(u, ti) == LeafMeaning(t, ForwardClass(a.name, UniqueName(a)), |t|)
    ensures Means(u, ti, ForwardTy(a.name, UniqueName(a)))
  {
  }

  lemma PointerMeans(t: Table, u: Table, pointee: TypeIndex, ti: TypeIndex, ty: Ty)
    requires Ordered(t) && Ordered(u) && Below(ti, |u|) && Means(t, pointee, ty)
    requires Meaning(u, ti) == LeafMeaning(t, PointerLeaf(pointee), |t|)
    ensures Means(u, ti, PointerTy(ty))
  {
    hide Meaning;
  }

  lemma NoMembers(t: Table, n: nat)
    requires Ordered(t) && n <= |t|
    ensures MembersBelow([], n) && MembersMeaning(t, [], n) == []
  {
  }

  lemma MembersAdd(t: Table, ms: seq<Member>, m: Member, n: nat)
    requires Ordered(t) && n <= |t| && MembersBelow(ms, n) && MemberBelow(m, n)
    ensures MembersBelow(ms + [m], n)
    ensures MembersMeaning(t, ms + [m], n) == MembersMeaning(t, ms, n) + [MemberMeaning(t, m, n)]
  {
    hide MemberBelow, MemberMeaning;
    assert (ms + [m])[..|ms|] == ms;
  }

  lemma BaseAdd(t: Table, ti: TypeIndex, ty: Ty)
    requires Ordered(t) && Means(t, ti, ty)
    ensures MembersBelow([BaseClass(ti)], |t|) && MembersMeaning(t, [BaseClass(ti)], |t|) == [BaseTy(ty)]
  {
    hide Meaning;
    NoMembers(t, |t|);
    MembersAdd(t, [], BaseClass(ti), |t|);
    assert [] + [BaseClass(ti)] == [BaseClass(ti)];
  }

  lemma DataAdd(t: Table, ms: seq<Member>, ti: TypeIndex, f: AggregateField, ty: Ty)
    requires Ordered(t) && MembersBelow(ms, |t|) && Means(t, ti, ty)
    ensures MembersBelow(ms + [DataMember(ti, f.byteOffset, f.name)], |t|)
    ensures MembersMeaning(t, ms + [DataMember(ti, f.byteOffset, f.name)], |t|)
            == MembersMeaning(t, ms, |t|) + [FieldTy(ty, f.byteOffset, f.name)]
  {
    hide Meaning, MembersMeaning;
    MembersAdd(t, ms, DataMember(ti, f.byteOffset, f.name), |t|);
  }

  lemma MethodAdd(t: Table, ms: seq<Member>, ti: TypeIndex, name: string, ty: Ty)
    requires Ordered(t) && MembersBelow(ms, |t|) && Means(t, ti, ty)
    ensures MembersBelow(ms + [OneMethod(ti, name)], |t|)
    ensures MembersMeaning(t, ms + [OneMethod(ti, name)], |t|) == MembersMeaning(t, ms, |t|) + [MethodTy(ty, name)]
  {
    hide Meaning, MembersMeaning;
    MembersAdd(t, ms, OneMethod(ti, name), |t|);
  }

  lemma NoArgs(t: Table, n: nat)
    requires Ordered(t) && n <= |t|
    ensures AllBelow([], n) && ArgsMeaning(t, [], n) == []
  {
  }

  lemma ArgsAdd(t: Table, tis: seq<TypeIndex>, ti: TypeIndex, n: nat)
    requires Ordered(t) && n <= |t| && AllBelow(tis, n) && Below(ti, n)
    ensures AllBelow(tis + [ti], n)
    ensures ArgsMeaning(t, tis + [ti], n) == ArgsMeaning(t, tis, n) + [Meaning(t, ti)]
  {
    hide Meaning, Below;
    assert (tis + [ti])[..|tis|] == tis;
  }

  lemma ArraysHave(t: Table, arrays: map<u32, TypeIndex>, size: u32)
    requires Ordered(t) && ArraysOk(t, arrays) && SizeSimple(size).None?
    ensures size in arrays ==> Means(t, arrays[size], SizeTy(size))
  {
    hide Means;
  }

  lemma ArraysAdd(t: Table, arrays: map<u32, TypeIndex>, size: u32, ti: TypeIndex)
    requires Ordered(t) && ArraysOk(t, arrays) && Means(t, ti, ArrayTy(ScalarTy(UnsignedChar), size))
    ensures ArraysOk(t, arrays[size := ti])
  {
    hide Means;
  }

  // ----- Which function type a method's name stands for -------------------------------------------------

  /** Method `m` of aggregate `i` comes before method `n` of aggregate `j`. */
  predicate Earlier(i: nat, m: nat, j: nat, n: nat) {
    i < j || (i == j && m < n)
  }

  /** No method after the first one of the two, up to the second, has the name of the first. */
  predicate NotRenamed(aggs: Aggregates, i: nat, m: nat, j: nat, n: nat)
    requires i < |aggs| && m < |aggs[i].methods|
  {
    forall k, l | 0 <= k < |aggs| && 0 <= l < MethodCount(aggs[k]) && Earlier(i, m, k, l) && Earlier(k, l, j, n) ::
      aggs[k].methods[l].qualifiedName != aggs[i].methods[m].qualifiedName
  }

  /** The last method of a name gives the name its type. */
  lemma {:induction false} LastMethodWins(aggs: Aggregates, i: nat, m: nat, j: nat, n: nat)
    requires i < |aggs| && m < MethodCount(aggs[i]) && Earlier(i, m, j, n)
    requires j <= |aggs| && (if j < |aggs| then n <= MethodCount(aggs[j]) else n == 0)
    requires NotRenamed(aggs, i, m, j, n)
    ensures var q := aggs[i].methods[m].qualifiedName;
            q in MethodTypes(aggs, j, n) && MethodTypes(aggs, j, n)[q] == MethodType(aggs, i, m)
    decreases j, n
  {
    hide MethodType;
    if n > 0 {
      if Earlier(i, m, j, n - 1) {
        LastMethodWins(aggs, i, m, j, n - 1);
      }
    } else {
      var c := MethodCount(aggs[j - 1]);
      assert NotRenamed(aggs, i, m, j - 1, c);
      LastMethodWins(aggs, i, m, j - 1, c);
    }
  }

  // ----- What the emitted types are ------------------------------------------------------------------------------

  /** In the type stream: a variable of a class is a pointer to the class, and everything else is held by value. */
  lemma VariableMeans(t: Table, aggs: Aggregates, inner: seq<TypeIndex>, vars: seq<TypeIndex>, i: nat)
    requires Ordered(t) && Emitted(t, aggs, inner, vars) && i < |inner|
    ensures Below(inner[i], |t|) && Below(vars[i], |t|)
    ensures Meaning(t, vars[i])
            == if aggs[i].kind == ClassType then PointerTy(Meaning(t, inner[i])) else Meaning(t, inner[i])
  {
    hide InnerTy, Ordered, Meaning;
  }

  /** A class or record is a structure of its name and size, which says whether it is a class. */
  lemma StructureMeans(t: Table, aggs: Aggregates, inner: seq<TypeIndex>, vars: seq<TypeIndex>, i: nat)
    requires Ordered(t) && Emitted(t, aggs, inner, vars) && i < |inner|
    requires aggs[i].kind == ClassType || aggs[i].kind == RecordType
    ensures Below(inner[i], |t|)
    ensures var a := aggs[i]; var ty := Meaning(t, inner[i]);
            && ty.AggregateTy? && ty.isClass == (a.kind == ClassType) && ty.size == a.byteSize && ty.name == a.name
            && ty.uniqueName == Some((if a.kind == ClassType then ".?AV" else ".?AU") + a.name + "@@")
            && ty.count == |ty.members| % 0x1_0000
            && |ty.members| == (if a.kind == ClassType && a.base.Some? && a.base.value < i then 1 else 0)
                               + |a.fields| + (if a.kind == ClassType then |a.methods| else 0)
  {
    hide VarTy, Ordered, Meaning, FieldMembers, MethodMembers;
    assert Means(t, inner[i], InnerTy(aggs, i));
    StructureIs(aggs, i);
  }

  lemma StructureIs(aggs: Aggregates, i: nat)
    requires i < |aggs| && (aggs[i].kind == ClassType || aggs[i].kind == RecordType)
    ensures var a := aggs[i];
            var members := BaseMember(aggs, i) + FieldMembers(aggs, i, |a.fields|) + MethodMembers(aggs, i, MethodCount(a));
            InnerTy(aggs, i) == AggregateTy(a.kind == ClassType, |members| % 0x1_0000, members, a.byteSize, a.name,
                                            Some(UniqueName(a)))
  {
    hide BaseMember, FieldMembers, MethodMembers, UniqueName;
  }

  /** An enumeration lists all its enumerators in order, over the unsigned type of its width. */
  lemma EnumMeans(t: Table, aggs: Aggregates, inner: seq<TypeIndex>, vars: seq<TypeIndex>, i: nat)
    requires Ordered(t) && Emitted(t, aggs, inner, vars) && i < |inner| && aggs[i].kind == EnumType
    ensures Below(inner[i], |t|)
    ensures var a := aggs[i]; var ty := Meaning(t, inner[i]);
            && ty.EnumTy? && ty.name == a.name && |ty.members| == |a.enumerators| && ty.count == |a.enumerators| % 0x1_0000
            && ty.underlying.ScalarTy? && (a.byteSize in {1, 2, 4} ==> IsUnsigned(ty.underlying.simple, a.byteSize))
            && forall k | 0 <= k < |a.enumerators| ::
                 ty.members[k] == EnumeratorTy(a.enumerators[k].value, a.enumerators[k].name)
  {
    hide VarTy, Ordered, Meaning, EnumeratorMembers;
    EnumeratorsAt(aggs[i].enumerators, |aggs[i].enumerators|);
  }

  lemma {:induction false} EnumeratorsAt(es: seq<Enumerator>, n: nat)
    requires n <= |es|
    ensures forall k | 0 <= k < n :: EnumeratorMembers(es, n)[k] == EnumeratorTy(es[k].value, es[k].name)
  {
    if n > 0 {
      EnumeratorsAt(es, n - 1);
    }
  }

  /** A set is a structure with a bit for each enumerator, at the position of its ordinal in an unsigned unit. */
  lemma SetMeans(t: Table, aggs: Aggregates, inner: seq<TypeIndex>, vars: seq<TypeIndex>, i: nat)
    requires Ordered(t) && Emitted(t, aggs, inner, vars) && i < |inner| && aggs[i].kind == SetType
    ensures Below(inner[i], |t|)
    ensures var a := aggs[i]; var ty := Meaning(t, inner[i]);
            && ty.AggregateTy? && !ty.isClass && ty.name == a.name && ty.size == a.byteSize && ty.uniqueName == None
            && |ty.members| == |a.enumerators|
            && forall k | 0 <= k < |a.enumerators| ::
                 var m := ty.members[k];
                 && m.FieldTy? && m.offset == 0 && m.name == a.enumerators[k].name
                 && m.ty.BitTy? && m.ty.bitOffset == a.enumerators[k].value % 0x100 && m.ty.underlying.ScalarTy?
                 && (a.byteSize in {1, 2, 4, 8} ==> IsUnsigned(m.ty.underlying.simple, a.byteSize))
  {
    hide VarTy, Ordered, Meaning, BitMembers;
    BitsAt(aggs[i], |aggs[i].enumerators|);
  }

  lemma {:induction false} BitsAt(a: AggregateRecord, n: nat)
    requires n <= |a.enumerators|
    ensures forall k | 0 <= k < n ::
              BitMembers(a, n)[k]
              == FieldTy(BitTy(ScalarTy(SetUnit(a.byteSize)), a.enumerators[k].value % 0x100), 0, a.enumerators[k].name)
  {
    hide SetUnit;
    if n > 0 {
      BitsAt(a, n - 1);
    }
  }

  /** The unsigned integers of CodeView, by their size in bytes. */
  predicate IsUnsigned(s: SimpleType, size: nat) {
    s in {UnsignedChar, UInt16Short, TypeRecords.SimpleType.UInt32, TypeRecords.SimpleType.UInt64}
    && ByteWidth(s) == size
  }

  /** The size of a built-in type. */
  function ByteWidth(s: SimpleType): nat {
    match s
    case NoType => 0
    case Void => 0
    case VoidPointer64 => 8
    case NarrowChar => 1
    case WideChar => 2
    case NarrowCharPointer64 => 8
    case WideCharPointer64 => 8
    case SignedChar => 1
    case UnsignedChar => 1
    case Int16Short => 2
    case UInt16Short => 2
    case SInt32 => 4
    case UInt32 => 4
    case Int64Quad => 8
    case UInt64 => 8
    case Boolean8 => 1
    case Boolean16 => 2
    case Boolean32 => 4
    case Boolean64 => 8
    case Float32 => 4
    case Float64 => 8
  }

  /** Without a known kind: the unsigned integer of the size, or that many bytes. Without a size, an address. */
  lemma SizedType(byteSize: u32)
    ensures var ty := SizeTy(byteSize);
            if byteSize == 0 then ty == ScalarTy(VoidPointer64)
            else if byteSize in {1, 2, 4, 8} then ty.ScalarTy? && IsUnsigned(ty.simple, byteSize)
            else ty == ArrayTy(ScalarTy(UnsignedChar), byteSize)
  {
  }

  // ----- Which parameters keep their type ---------------------------------------------------------------------

  /** What goes by kind and size is never the type of an aggregate. */
  lemma KindIsNoAggregate(byteSize: u32, prim: Option<PrimitiveKind>, aggs: Aggregates, j: nat)
    requires j < |aggs|
    ensures KindTy(byteSize, prim) != VarTy(aggs, j)
  {
    hide BaseMember, FieldMembers, MethodMembers, BitMembers, EnumeratorMembers, UniqueName, KindSimple;
  }

  /** A parameter that refers to aggregate `j` has its type exactly if `j` comes before the class. */
  lemma ParameterKept(aggs: Aggregates, i: nat, p: Param, j: nat)
    requires i <= |aggs| && p.aggregateIndex == Some(j) && j < |aggs|
    ensures ResolvedTy(aggs, i, p) == VarTy(aggs, j) <==> j < i
  {
    hide VarTy, KindTy;
    KindIsNoAggregate(p.byteSize, p.primKind, aggs, j);
  }

  lemma {:induction false} ParamTypeAt(aggs: Aggregates, i: nat, ps: seq<Param>, n: nat, k: nat)
    requires i < |aggs| && k < n <= |ps|
    ensures ParamTypes(aggs, i, ps, n)[k] == ResolvedTy(aggs, i, ps[k])
    decreases n
  {
    hide ResolvedTy;
    if k < n - 1 {
      ParamTypeAt(aggs, i, ps, n - 1, k);
    }
  }

  lemma {:induction false} MethodMemberAt(aggs: Aggregates, i: nat, n: nat, m: nat)
    requires i < |aggs| && m < n <= |aggs[i].methods|
    ensures MethodMembers(aggs, i, n)[m] == MethodTy(MethodType(aggs, i, m), aggs[i].methods[m].name)
    decreases n
  {
    hide MethodType;
    if m < n - 1 {
      MethodMemberAt(aggs, i, n - 1, m);
    }
  }

  lemma ClassMethod(aggs: Aggregates, i: nat, m: nat)
    requires i < |aggs| && aggs[i].kind == ClassType && m < |aggs[i].methods|
    ensures var ty := InnerTy(aggs, i); var at := |BaseMember(aggs, i)| + |aggs[i].fields| + m;
            && ty.AggregateTy? && at < |ty.members|
            && ty.members[at] == MethodTy(MethodType(aggs, i, m), aggs[i].methods[m].name)
  {
    hide FieldMembers, MethodType, BaseMember, UniqueName;
    MethodMemberAt(aggs, i, |aggs[i].methods|, m);
  }

  /** In the type stream: parameter `n` of method `m` of a class has the type emitted for its aggregate exactly
      if that was emitted before the class. */
  lemma ParameterMeans(t: Table, aggs: Aggregates, inner: seq<TypeIndex>, vars: seq<TypeIndex>, i: nat, m: nat, n: nat)
    requires Ordered(t) && Emitted(t, aggs, inner, vars) && |inner| == |aggs|
    requires i < |aggs| && aggs[i].kind == ClassType && m < |aggs[i].methods| && n < |aggs[i].methods[m].params|
    requires var a := aggs[i].methods[m].params[n].aggregateIndex; a.Some? && a.value < |aggs|
    ensures var ty := Meaning(t, inner[i]); var at := |BaseMember(aggs, i)| + |aggs[i].fields| + m;
            var j := aggs[i].methods[m].params[n].aggregateIndex.value;
            && ty.AggregateTy? && at < |ty.members| && ty.members[at].MethodTy?
            && ty.members[at].ty.FunctionTy? && n < |ty.members[at].ty.args|
            && (ty.members[at].ty.args[n] == Meaning(t, vars[j]) <==> j < i)
            && Meaning(t, vars[j])
               == (if aggs[j].kind == ClassType then PointerTy(Meaning(t, inner[j])) else Meaning(t, inner[j]))
  {
    VariableMeans(t, aggs, inner, vars, aggs[i].methods[m].params[n].aggregateIndex.value);
    hide InnerTy, VarTy, BaseMember, Ordered, Meaning, ResolvedTy, ParamTypes;
    var p := aggs[i].methods[m].params[n];
    ClassMethod(aggs, i, m);
    ParamTypeAt(aggs, i, aggs[i].methods[m].params, |aggs[i].methods[m].params|, n);
    ParameterKept(aggs, i, p, p.aggregateIndex.value);
  }

  /** In the type stream: a method returns nothing or a 32-bit integer, belongs to the class of the same unique name
      and takes a pointer to it, and has one argument per parameter. */
  lemma MethodMeans(t: Table, aggs: Aggregates, inner: seq<TypeIndex>, vars: seq<TypeIndex>, i: nat, m: nat)
    requires Ordered(t) && Emitted(t, aggs, inner, vars) && i < |inner|
    requires aggs[i].kind == ClassType && m < |aggs[i].methods|
    ensures Below(inner[i], |t|)
    ensures var ty := Meaning(t, inner[i]); var at := |BaseMember(aggs, i)| + |aggs[i].fields| + m;
            var meth := aggs[i].methods[m];
            && ty.AggregateTy? && at < |ty.members| && ty.members[at].MethodTy? && ty.members[at].name == meth.name
            && var f := ty.members[at].ty;
               && f.FunctionTy? && f.ret == ScalarTy(if meth.returnsVoid then Void else SInt32)
               && f.cls.ForwardTy? && f.cls.name == aggs[i].name && ty.uniqueName == Some(f.cls.forwardName)
               && f.thisType == PointerTy(f.cls) && f.count == |meth.params| % 0x1_0000 && |f.args| == |meth.params|
  {
    hide VarTy, BaseMember, Ordered, Meaning, ParamTypes, FieldMembers, MethodMembers, InnerTy;
    assert Means(t, inner[i], InnerTy(aggs, i));
    ClassMethod(aggs, i, m);
    StructureIs(aggs, i);
  }

  /** A parameter without an aggregate goes by kind and size. */
  lemma PlainParameterMeans(t: Table, aggs: Aggregates, inner: seq<TypeIndex>, vars: seq<TypeIndex>, i: nat, m: nat,
                            n: nat)
    requires Ordered(t) && Emitted(t, aggs, inner, vars) && i < |inner|
    requires aggs[i].kind == ClassType && m < |aggs[i].methods| && n < |aggs[i].methods[m].params|
    requires aggs[i].methods[m].params[n].aggregateIndex.None?
    ensures Below(inner[i], |t|)
    ensures var ty := Meaning(t, inner[i]); var at := |BaseMember(aggs, i)| + |aggs[i].fields| + m;
            var p := aggs[i].methods[m].params[n];
            && ty.AggregateTy? && at < |ty.members| && ty.members[at].MethodTy? && ty.members[at].ty.FunctionTy?
            && n < |ty.members[at].ty.args| && ty.members[at].ty.args[n] == KindTy(p.byteSize, p.primKind)
  {
    hide VarTy, BaseMember, Ordered, Meaning, ParamTypes, FieldMembers, MethodMembers, InnerTy, KindTy;
    assert Means(t, inner[i], InnerTy(aggs, i));
    ClassMethod(aggs, i, m);
    ParamTypeAt(aggs, i, aggs[i].methods[m].params, |aggs[i].methods[m].params|, n);
  }

  /** A class whose method takes a record that follows it: the parameter becomes eight anonymous bytes. */
  lemma LaterParameterLost(param: Param, first: AggregateRecord, second: AggregateRecord)
    requires param == Param(None, 8, Some(1))
    requires first == AggregateRecord(ClassType, "A", 8, [], [], [Method("F", "A.F", [param], true)], [], None)
    requires second == AggregateRecord(RecordType, "B", 8, [], [], [], [], None)
    ensures var ty := MethodType([first, second], 0, 0);
            ty.FunctionTy? && ty.args == [ScalarTy(TypeRecords.SimpleType.UInt64)]
            && VarTy([first, second], 1).AggregateTy?
  {
    var aggs := [first, second];
    hide UniqueName, BaseMember, FieldMembers, MethodMembers;
    ParamTypeAt(aggs, 0, [param], 1, 0);
    assert aggs[0].methods[0].params == [param];
  }

  // ----- Registered, then emitted -----------------------------------------------------------------------------

  lemma {:induction false} FieldMemberAt(aggs: Aggregates, i: nat, n: nat, k: nat)
    requires i < |aggs| && k < n <= |aggs[i].fields|
    ensures var f := aggs[i].fields[k];
            FieldMembers(aggs, i, n)[k] == FieldTy(FieldType(aggs, i, f), f.byteOffset, f.name)
    decreases n
  {
    hide FieldType;
    if k < n - 1 {
      FieldMemberAt(aggs, i, n - 1, k);
    }
  }

  lemma CompositeMember(aggs: Aggregates, i: nat, k: nat)
    requires i < |aggs| && k < |aggs[i].fields| && (aggs[i].kind == RecordType || aggs[i].kind == ClassType)
    ensures var f := aggs[i].fields[k]; var b := |BaseMember(aggs, i)|;
            && InnerTy(aggs, i).AggregateTy? && b + k < |InnerTy(aggs, i).members|
            && InnerTy(aggs, i).members[b + k] == FieldTy(FieldType(aggs, i, f), f.byteOffset, f.name)
  {
    hide FieldType, MethodMembers, BaseMember, UniqueName;
    FieldMemberAt(aggs, i, |aggs[i].fields|, k);
  }

  /** In the type stream: a field without a link goes by kind and size, four bytes if it has none, and one that links
      to this or a later aggregate is one byte. */
  lemma PlainFieldMeans(t: Table, aggs: Aggregates, inner: seq<TypeIndex>, vars: seq<TypeIndex>, i: nat, k: nat)
    requires Ordered(t) && Emitted(t, aggs, inner, vars) && i < |inner| && k < |aggs[i].fields|
    requires aggs[i].kind == RecordType || aggs[i].kind == ClassType
    requires var link := aggs[i].fields[k].nested; link.Some? ==> i <= link.value
    ensures Below(inner[i], |t|)
    ensures var ty := Meaning(t, inner[i]); var at := |BaseMember(aggs, i)| + k; var f := aggs[i].fields[k];
            && ty.AggregateTy? && at < |ty.members| && ty.members[at].FieldTy?
            && ty.members[at].name == f.name && ty.members[at].offset == f.byteOffset
            && ty.members[at].ty == if f.nested.Some? then ScalarTy(UnsignedChar)
                                    else if f.byteSize == 0 then KindTy(4, f.primKind)
                                    else KindTy(f.byteSize, f.primKind)
  {
    hide VarTy, BaseMember, Ordered, Meaning, InnerTy, KindTy;
    assert Means(t, inner[i], InnerTy(aggs, i));
    CompositeMember(aggs, i, k);
  }

  /** Only records and classes have fields, and only classes a base. */
  lemma LinkedShape(rsm: RsmModel.Rsm, records: Aggregates, owners: seq<Option<nat>>, cache: map<RsmModel.Key, nat>,
                    i: nat)
    requires Registrar.StateOk(rsm, records, owners, cache) && i < |records|
    ensures records[i].fields != [] ==> records[i].kind == RecordType || records[i].kind == ClassType
    ensures records[i].base.Some? ==> records[i].kind == ClassType
  {
    hide Registrar.Owned, Registrar.FieldTypeOf, Registrar.Reaches, Registrar.Eligible, Registrar.EnumWidth,
         Registrar.SetWidth, Registrar.NamesEntries, Registrar.FirstSetBase;
    assert owners[i].Some? ==> owners[i].value < |rsm.aggregates| by { Registrar.OwnersIn(rsm, owners, cache); }
    assert Registrar.RecordOk(rsm, owners, i, records[i]);
  }

  /** Whatever the program, every field link that the registrar left in a record becomes a member of exactly the
      type of the record it leads to: never the one-byte fallback. */
  lemma FieldLinkMeans(rsm: RsmModel.Rsm, records: Aggregates, owners: seq<Option<nat>>, cache: map<RsmModel.Key, nat>,
                       t: Table, inner: seq<TypeIndex>, vars: seq<TypeIndex>, i: nat, k: nat)
    requires Registrar.StateOk(rsm, records, owners, cache)
    requires Ordered(t) && Emitted(t, records, inner, vars) && |inner| == |records|
    requires i < |records| && k < |records[i].fields| && records[i].fields[k].nested.Some?
    ensures var f := records[i].fields[k]; var j := f.nested.value;
            var ty := Meaning(t, inner[i]); var b := |BaseMember(records, i)|;
            && j < i && ty.AggregateTy? && b + k < |ty.members|
            && ty.members[b + k] == FieldTy(Meaning(t, vars[j]), f.byteOffset, f.name)
            && Meaning(t, vars[j])
               == (if records[j].kind == ClassType then PointerTy(Meaning(t, inner[j])) else Meaning(t, inner[j]))
  {
    hide Registrar.StateOk, InnerTy, VarTy, BaseMember, Ordered, Meaning, KindTy;
    VariableMeans(t, records, inner, vars, records[i].fields[k].nested.value) by {
      Registrar.LinksGoBack(rsm, records, owners, cache, i);
    }
    Registrar.LinksGoBack(rsm, records, owners, cache, i);
    LinkedShape(rsm, records, owners, cache, i);
    CompositeMember(records, i, k);
  }

  /** Likewise every base link becomes the first member of its class. */
  lemma BaseLinkMeans(rsm: RsmModel.Rsm, records: Aggregates, owners: seq<Option<nat>>, cache: map<RsmModel.Key, nat>,
                      t: Table, inner: seq<TypeIndex>, vars: seq<TypeIndex>, i: nat)
    requires Registrar.StateOk(rsm, records, owners, cache)
    requires Ordered(t) && Emitted(t, records, inner, vars) && |inner| == |records|
    requires i < |records| && records[i].base.Some?
    ensures var j := records[i].base.value; var ty := Meaning(t, inner[i]);
            && j < i && ty.AggregateTy? && |ty.members| > 0 && ty.members[0] == BaseTy(Meaning(t, inner[j]))
  {
    hide Registrar.StateOk, InnerTy, VarTy, Ordered, Meaning;
    Registrar.LinksGoBack(rsm, records, owners, cache, i);
    LinkedShape(rsm, records, owners, cache, i);
    BaseFirst(records, i);
  }

  /** A field of an eligible type that does not lead back to the field's owner has exactly the type of the
      record registered for it, whatever cycles there are elsewhere. */
  lemma FieldTypeSurvives(rsm: RsmModel.Rsm, records: Aggregates, owners: seq<Option<nat>>,
                          cache: map<RsmModel.Key, nat>,
                          t: Table, inner: seq<TypeIndex>, vars: seq<TypeIndex>, i: nat, k: nat, target: nat)
    requires Registrar.StateOk(rsm, records, owners, cache)
    requires Ordered(t) && Emitted(t, records, inner, vars) && |inner| == |records|
    requires i < |records| && owners[i].Some? && owners[i].value < |rsm.aggregates|
    requires Registrar.IsComposite(rsm.aggregates[owners[i].value]) && k < |rsm.aggregates[owners[i].value].fields|
    requires target < |rsm.aggregates| && Registrar.Eligible(rsm, target)
    requires var a := rsm.aggregates[owners[i].value]; Registrar.FieldTarget(rsm, a.anchor, a.fields[k]) == Some(target)
    requires !Registrar.Reaches(rsm, Registrar.KeyOf(rsm, target), Registrar.KeyOf(rsm, owners[i].value))
    ensures var fe := rsm.aggregates[owners[i].value].fields[k]; var key := Registrar.KeyOf(rsm, target);
            var ty := Meaning(t, inner[i]); var b := |BaseMember(records, i)|;
            && key in cache && cache[key] < i
            && ty.AggregateTy? && b + k < |ty.members|
            && ty.members[b + k] == FieldTy(Meaning(t, vars[cache[key]]), fe.offset, fe.name)
  {
    hide Registrar.Reaches, Registrar.Eligible, Registrar.FieldTarget, Registrar.StateOk, InnerTy, VarTy, BaseMember,
         Ordered, Meaning, KindTy, Emitted;
    Registrar.FieldLinkKept(rsm, records, owners, cache, i, k, target);
    RegisteredShape(rsm, records, owners, cache, i, k);
    FieldLinkMeans(rsm, records, owners, cache, t, inner, vars, i, k);
  }

  lemma RegisteredShape(rsm: RsmModel.Rsm, records: Aggregates, owners: seq<Option<nat>>,
                        cache: map<RsmModel.Key, nat>, i: nat, k: nat)
    requires Registrar.StateOk(rsm, records, owners, cache) && i < |records| && owners[i].Some?
    requires owners[i].value < |rsm.aggregates| && Registrar.IsComposite(rsm.aggregates[owners[i].value])
    requires k < |rsm.aggregates[owners[i].value].fields|
    ensures k < |records[i].fields|
    ensures var fe := rsm.aggregates[owners[i].value].fields[k];
            records[i].fields[k].name == fe.name && records[i].fields[k].byteOffset == fe.offset
  {
    hide Registrar.Owned, Registrar.LinkOk, Registrar.FieldTypeOf, Registrar.BaseTarget;
    var a := rsm.aggregates[owners[i].value];
    assert Registrar.RecordOk(rsm, owners, i, records[i]);
    assert Registrar.FieldOk(rsm, owners[..i], a, a.fields[k], records[i].fields[k]);
  }

  /** Likewise the base class: it heads the members of the class it is the base of. */
  lemma BaseSurvives(rsm: RsmModel.Rsm, records: Aggregates, owners: seq<Option<nat>>, cache: map<RsmModel.Key, nat>,
                     t: Table, inner: seq<TypeIndex>, vars: seq<TypeIndex>, i: nat, target: nat)
    requires Registrar.StateOk(rsm, records, owners, cache)
    requires Ordered(t) && Emitted(t, records, inner, vars) && |inner| == |records|
    requires i < |records| && owners[i].Some? && owners[i].value < |rsm.aggregates|
    requires Registrar.BaseTarget(rsm, owners[i].value) == Some(target) && Registrar.Eligible(rsm, target)
    requires !Registrar.Reaches(rsm, Registrar.KeyOf(rsm, target), Registrar.KeyOf(rsm, owners[i].value))
    ensures var key := Registrar.KeyOf(rsm, target); var ty := Meaning(t, inner[i]);
            && key in cache && cache[key] < i
            && ty.AggregateTy? && |ty.members| > 0 && ty.members[0] == BaseTy(Meaning(t, inner[cache[key]]))
  {
    hide Registrar.Reaches, Registrar.Eligible, VarTy, Ordered, Meaning, InnerTy, Registrar.StateOk, Emitted;
    Registrar.BaseLinkKept(rsm, records, owners, cache, i, target);
    BaseLinkMeans(rsm, records, owners, cache, t, inner, vars, i);
  }

  /** In a program without cycles of references that is every field and every base of an eligible type. */
  lemma AcyclicTypesSurvive(rsm: RsmModel.Rsm, records: Aggregates, owners: seq<Option<nat>>,
                            cache: map<RsmModel.Key, nat>,
                            t: Table, inner: seq<TypeIndex>, vars: seq<TypeIndex>, i: nat)
    requires Registrar.StateOk(rsm, records, owners, cache) && Registrar.Acyclic(rsm)
    requires Ordered(t) && Emitted(t, records, inner, vars) && |inner| == |records|
    requires i < |records| && owners[i].Some? && owners[i].value < |rsm.aggregates|
    ensures var base := Registrar.BaseTarget(rsm, owners[i].value); var ty := Meaning(t, inner[i]);
            base.Some? && Registrar.Eligible(rsm, base.value) ==>
              && Registrar.KeyOf(rsm, base.value) in cache && cache[Registrar.KeyOf(rsm, base.value)] < i
              && ty.AggregateTy? && |ty.members| > 0
              && ty.members[0] == BaseTy(Meaning(t, inner[cache[Registrar.KeyOf(rsm, base.value)]]))
    ensures var a := rsm.aggregates[owners[i].value]; var ty := Meaning(t, inner[i]); var b := |BaseMember(records, i)|;
            Registrar.IsComposite(a) ==> forall k | 0 <= k < |a.fields| ::
              var target := Registrar.FieldTarget(rsm, a.anchor, a.fields[k]);
              target.Some? && Registrar.Eligible(rsm, target.value) ==>
                && Registrar.KeyOf(rsm, target.value) in cache && cache[Registrar.KeyOf(rsm, target.value)] < i
                && ty.AggregateTy? && b + k < |ty.members|
                && ty.members[b + k] == FieldTy(Meaning(t, vars[cache[Registrar.KeyOf(rsm, target.value)]]),
                                                a.fields[k].offset, a.fields[k].name)
  {
    hide Registrar.Reaches, Registrar.Eligible, Registrar.Acyclic, Registrar.FieldTarget, Registrar.BaseTarget,
         VarTy, Ordered, Meaning, InnerTy, BaseMember, Registrar.Owned, Registrar.RecordOk, Registrar.LinksTo;
    assert Below(inner[i], |t|);
    hide Emitted;
    var o := owners[i].value;
    var a := rsm.aggregates[o];
    var base := Registrar.BaseTarget(rsm, o);
    if base.Some? && Registrar.Eligible(rsm, base.value) {
      Registrar.BaseIsLink(rsm, o);
      Registrar.ClosedPath(rsm, o, base.value);
      BaseSurvives(rsm, records, owners, cache, t, inner, vars, i, base.value);
    }
    if Registrar.IsComposite(a) {
      forall k | 0 <= k < |a.fields| && Registrar.FieldTarget(rsm, a.anchor, a.fields[k]).Some?
                 && Registrar.Eligible(rsm, Registrar.FieldTarget(rsm, a.anchor, a.fields[k]).value)
        ensures var target := Registrar.FieldTarget(rsm, a.anchor, a.fields[k]).value;
                var ty := Meaning(t, inner[i]); var b := |BaseMember(records, i)|;
                && Registrar.KeyOf(rsm, target) in cache && cache[Registrar.KeyOf(rsm, target)] < i
                && ty.AggregateTy? && b + k < |ty.members|
                && ty.members[b + k] == FieldTy(Meaning(t, vars[cache[Registrar.KeyOf(rsm, target)]]),
                                                a.fields[k].offset, a.fields[k].name)
      {
        var target := Registrar.FieldTarget(rsm, a.anchor, a.fields[k]).value;
        Registrar.FieldIsLink(rsm, o, k);
        Registrar.ClosedPath(rsm, o, target);
        FieldTypeSurvives(rsm, records, owners, cache, t, inner, vars, i, k, target);
      }
    }
  }

  lemma BaseFirst(aggs: Aggregates, i: nat)
    requires i < |aggs| && aggs[i].kind == ClassType && aggs[i].base.Some? && aggs[i].base.value < i
    ensures InnerTy(aggs, i).AggregateTy? && |InnerTy(aggs, i).members| > 0
    ensures InnerTy(aggs, i).members[0] == BaseTy(InnerTy(aggs, aggs[i].base.value))
  {
    hide FieldMembers, MethodMembers, UniqueName;
    assert BaseMember(aggs, i) == [BaseTy(InnerTy(aggs, aggs[i].base.value))];
  }
}
