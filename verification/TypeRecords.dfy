/** The CodeView type stream as an append-only list of leaf records, and what a type index in it means. */
module TypeRecords {
  import opened Bytes
  import opened Model

  datatype SimpleType =
    | NoType | Void | VoidPointer64
    | NarrowChar | WideChar | NarrowCharPointer64 | WideCharPointer64
    | SignedChar | UnsignedChar | Int16Short | UInt16Short | SInt32 | UInt32 | Int64Quad | UInt64
    | Boolean8 | Boolean16 | Boolean32 | Boolean64
    | Float32 | Float64

  /** A built-in type, or the position of a record. */
  datatype TypeIndex = Simple(simple: SimpleType) | Entry(position: nat)

  datatype Member =
    | DataMember(ty: TypeIndex, offset: u32, name: string)
    | Enumerate(value: i64, name: string)
    | BaseClass(base: TypeIndex)
    | OneMethod(ty: TypeIndex, name: string)

  datatype Leaf =
    | ArrayLeaf(element: TypeIndex, size: u32)
    | BitField(underlying: TypeIndex, bitOffset: u8)
    | FieldList(members: seq<Member>)
    | ClassLeaf(isClass: bool, count: u16, fieldList: TypeIndex, size: u32, name: string, uniqueName: Option<string>)
    | ForwardClass(name: string, forwardName: string)
    | EnumLeaf(count: u16, fieldList: TypeIndex, name: string, underlying: TypeIndex)
    | PointerLeaf(pointee: TypeIndex)
    | ArgList(args: seq<TypeIndex>)
    | MemberFunction(ret: TypeIndex, cls: TypeIndex, thisType: TypeIndex, count: u16, arguments: TypeIndex)

  type Table = seq<Leaf>

  /** Simple, or strictly earlier than position `n`. */
  predicate Below(ti: TypeIndex, n: nat) {
    ti.Entry? ==> ti.position < n
  }

  predicate MemberBelow(m: Member, n: nat) {
    match m
    case DataMember(ty, _, _) => Below(ty, n)
    case Enumerate(_, _) => true
    case BaseClass(base) => Below(base, n)
    case OneMethod(ty, _) => Below(ty, n)
  }

  predicate MembersBelow(ms: seq<Member>, n: nat) {
    forall k | 0 <= k < |ms| :: MemberBelow(ms[k], n)
  }

  predicate AllBelow(tis: seq<TypeIndex>, n: nat) {
    forall k | 0 <= k < |tis| :: Below(tis[k], n)
  }

  predicate LeafBelow(leaf: Leaf, n: nat) {
    match leaf
    case ArrayLeaf(element, _) => Below(element, n)
    case BitField(underlying, _) => Below(underlying, n)
    case FieldList(ms) => MembersBelow(ms, n)
    case ClassLeaf(_, _, fieldList, _, _, _) => Below(fieldList, n)
    case ForwardClass(_, _) => true
    case EnumLeaf(_, fieldList, _, underlying) => Below(fieldList, n) && Below(underlying, n)
    case PointerLeaf(pointee) => Below(pointee, n)
    case ArgList(args) => AllBelow(args, n)
    case MemberFunction(ret, cls, thisType, _, arguments) =>
      Below(ret, n) && Below(cls, n) && Below(thisType, n) && Below(arguments, n)
  }

  /** Every record refers only to simple types and to strictly earlier records. */
  predicate Ordered(t: Table) {
    forall n | 0 <= n < |t| :: LeafBelow(t[n], n)
  }

  // ----- Meaning ---------------------------------------------------------------------------------

  /** A type with its references followed. A class may refer to itself only by name. */
  datatype Ty =
    | ScalarTy(simple: SimpleType)
    | ArrayTy(element: Ty, size: u32)
    | BitTy(underlying: Ty, bitOffset: u8)
    | AggregateTy(isClass: bool, count: u16, members: seq<MemberTy>, size: u32, name: string, uniqueName: Option<string>)
    | ForwardTy(name: string, forwardName: string)
    | EnumTy(count: u16, members: seq<MemberTy>, name: string, underlying: Ty)
    | PointerTy(pointee: Ty)
    | FunctionTy(ret: Ty, cls: Ty, thisType: Ty, count: u16, args: seq<Ty>)
    | NotAType

  datatype MemberTy =
    | FieldTy(ty: Ty, offset: u32, name: string)
    | EnumeratorTy(value: i64, name: string)
    | BaseTy(base: Ty)
    | MethodTy(ty: Ty, name: string)

  function Rank(ti: TypeIndex): nat {
    if ti.Simple? then 0 else ti.position + 1
  }

  function Meaning(t: Table, ti: TypeIndex): Ty
    requires Ordered(t) && Below(ti, |t|)
    decreases Rank(ti), 1
  {
    match ti
    case Simple(s) => ScalarTy(s)
    case Entry(n) => assert LeafBelow(t[n], n); LeafMeaning(t, t[n], n)
  }

  /** The meaning of a record all of whose references are before position `n`. */
  function LeafMeaning(t: Table, leaf: Leaf, n: nat): Ty
    requires Ordered(t) && n <= |t| && LeafBelow(leaf, n)
    decreases n + 1, 0
  {
    match leaf
    case ArrayLeaf(element, size) => ArrayTy(Meaning(t, element), size)
    case BitField(underlying, bitOffset) => BitTy(Meaning(t, underlying), bitOffset)
    case ClassLeaf(isClass, count, fieldList, size, name, uniqueName) =>
      AggregateTy(isClass, count, FieldListMeaning(t, fieldList), size, name, uniqueName)
    case ForwardClass(name, uniqueName) => ForwardTy(name, uniqueName)
    case EnumLeaf(count, fieldList, name, underlying) =>
      EnumTy(count, FieldListMeaning(t, fieldList), name, Meaning(t, underlying))
    case PointerLeaf(pointee) => PointerTy(Meaning(t, pointee))
    case MemberFunction(ret, cls, thisType, count, arguments) =>
      FunctionTy(Meaning(t, ret), Meaning(t, cls), Meaning(t, thisType), count, ArgListMeaning(t, arguments))
    case _ => NotAType
  }

  function FieldListMeaning(t: Table, ti: TypeIndex): seq<MemberTy>
    requires Ordered(t) && Below(ti, |t|)
    decreases Rank(ti), 1
  {
    if ti.Entry? && t[ti.position].FieldList? then
      assert LeafBelow(t[ti.position], ti.position);
      MembersMeaning(t, t[ti.position].members, ti.position)
    else []
  }

  /** The members, all of whose types are before position `n`. */
  function MembersMeaning(t: Table, ms: seq<Member>, n: nat): (r: seq<MemberTy>)
    requires Ordered(t) && n <= |t| && MembersBelow(ms, n)
    ensures |r| == |ms|
    decreases n, |ms| + 3
  {
    if ms == [] then []
    else
      assert MembersBelow(ms[..|ms| - 1], n);
      MembersMeaning(t, ms[..|ms| - 1], n) + [MemberMeaning(t, ms[|ms| - 1], n)]
  }

  function MemberMeaning(t: Table, m: Member, n: nat): MemberTy
    requires Ordered(t) && n <= |t| && MemberBelow(m, n)
    decreases n, 2
  {
    match m
    case DataMember(ty, offset, name) => FieldTy(Meaning(t, ty), offset, name)
    case Enumerate(value, name) => EnumeratorTy(value, name)
    case BaseClass(base) => BaseTy(Meaning(t, base))
    case OneMethod(ty, name) => MethodTy(Meaning(t, ty), name)
  }

  function ArgListMeaning(t: Table, ti: TypeIndex): seq<Ty>
    requires Ordered(t) && Below(ti, |t|)
    decreases Rank(ti), 1
  {
    if ti.Entry? && t[ti.position].ArgList? then
      assert LeafBelow(t[ti.position], ti.position);
      ArgsMeaning(t, t[ti.position].args, ti.position)
    else []
  }

  function ArgsMeaning(t: Table, tis: seq<TypeIndex>, n: nat): (r: seq<Ty>)
    requires Ordered(t) && n <= |t| && AllBelow(tis, n)
    ensures |r| == |tis|
    decreases n, |tis| + 3
  {
    if tis == [] then []
    else
      assert AllBelow(tis[..|tis| - 1], n);
      ArgsMeaning(t, tis[..|tis| - 1], n) + [Meaning(t, tis[|tis| - 1])]
  }

  // ----- Appending keeps meanings ------------------------------------------------------------------

  lemma {:induction false} MeaningStays(t: Table, u: Table, ti: TypeIndex)
    requires Ordered(t) && Ordered(u) && t <= u && Below(ti, |t|)
    ensures Meaning(u, ti) == Meaning(t, ti)
    decreases Rank(ti), 1
  {
    if ti.Entry? {
      assert LeafBelow(t[ti.position], ti.position);
      LeafStays(t, ti.position, u, ti.position, t[ti.position]);
    }
  }

  lemma {:induction false} LeafStays(t: Table, n: nat, u: Table, m: nat, leaf: Leaf)
    requires Ordered(t) && Ordered(u) && t <= u && n <= |t| && m <= |u| && n <= m && LeafBelow(leaf, n)
    ensures LeafBelow(leaf, m) && LeafMeaning(u, leaf, m) == LeafMeaning(t, leaf, n)
    decreases n + 1, 0
  {
    hide Meaning, MembersMeaning, ArgsMeaning, FieldListMeaning, ArgListMeaning;
    match leaf
    case ArrayLeaf(element, _) => MeaningStays(t, u, element);
    case BitField(underlying, _) => MeaningStays(t, u, underlying);
    case FieldList(ms) => MembersStay(t, n, u, m, ms);
    case ClassLeaf(_, _, fieldList, _, _, _) => FieldListStays(t, u, fieldList);
    case ForwardClass(_, _) =>
    case EnumLeaf(_, fieldList, _, underlying) =>
      FieldListStays(t, u, fieldList);
      MeaningStays(t, u, underlying);
    case PointerLeaf(pointee) => MeaningStays(t, u, pointee);
    case ArgList(args) => ArgsStay(t, n, u, m, args);
    case MemberFunction(ret, cls, thisType, _, arguments) =>
      MeaningStays(t, u, ret);
      MeaningStays(t, u, cls);
      MeaningStays(t, u, thisType);
      ArgListStays(t, u, arguments);
  }

  lemma {:induction false} FieldListStays(t: Table, u: Table, ti: TypeIndex)
    requires Ordered(t) && Ordered(u) && t <= u && Below(ti, |t|)
    ensures FieldListMeaning(u, ti) == FieldListMeaning(t, ti)
    decreases Rank(ti), 1
  {
    hide MembersMeaning;
    if ti.Entry? && t[ti.position].FieldList? {
      assert LeafBelow(t[ti.position], ti.position);
      MembersStay(t, ti.position, u, ti.position, t[ti.position].members);
    }
  }

  lemma {:induction false} MembersStay(t: Table, n: nat, u: Table, m: nat, ms: seq<Member>)
    requires Ordered(t) && Ordered(u) && t <= u && n <= |t| && m <= |u| && n <= m && MembersBelow(ms, n)
    ensures MembersBelow(ms, m) && MembersMeaning(u, ms, m) == MembersMeaning(t, ms, n)
    decreases n, |ms| + 3
  {
    hide Meaning;
    if ms != [] {
      MembersStay(t, n, u, m, ms[..|ms| - 1]);
      MemberStays(t, n, u, m, ms[|ms| - 1]);
    }
  }

  lemma {:induction false} MemberStays(t: Table, n: nat, u: Table, m: nat, mem: Member)
    requires Ordered(t) && Ordered(u) && t <= u && n <= |t| && m <= |u| && n <= m && MemberBelow(mem, n)
    ensures MemberBelow(mem, m) && MemberMeaning(u, mem, m) == MemberMeaning(t, mem, n)
    decreases n, 2
  {
    hide Meaning;
    match mem
    case DataMember(ty, _, _) => MeaningStays(t, u, ty);
    case Enumerate(_, _) =>
    case BaseClass(base) => MeaningStays(t, u, base);
    case OneMethod(ty, _) => MeaningStays(t, u, ty);
  }

  lemma {:induction false} ArgListStays(t: Table, u: Table, ti: TypeIndex)
    requires Ordered(t) && Ordered(u) && t <= u && Below(ti, |t|)
    ensures ArgListMeaning(u, ti) == ArgListMeaning(t, ti)
    decreases Rank(ti), 1
  {
    hide ArgsMeaning;
    if ti.Entry? && t[ti.position].ArgList? {
      assert LeafBelow(t[ti.position], ti.position);
      ArgsStay(t, ti.position, u, ti.position, t[ti.position].args);
    }
  }

  lemma {:induction false} ArgsStay(t: Table, n: nat, u: Table, m: nat, tis: seq<TypeIndex>)
    requires Ordered(t) && Ordered(u) && t <= u && n <= |t| && m <= |u| && n <= m && AllBelow(tis, n)
    ensures AllBelow(tis, m) && ArgsMeaning(u, tis, m) == ArgsMeaning(t, tis, n)
    decreases n, |tis| + 3
  {
    hide Meaning;
    if tis != [] {
      ArgsStay(t, n, u, m, tis[..|tis| - 1]);
      MeaningStays(t, u, tis[|tis| - 1]);
    }
  }

  // ----- The meaning of a new record -------------------------------------------------------------------

  lemma OrderedGrows(t: Table, leaf: Leaf)
    requires Ordered(t) && LeafBelow(leaf, |t|)
    ensures Ordered(t + [leaf]) && t <= t + [leaf]
  {
    hide LeafBelow;
  }

  lemma AppendMeans(t: Table, leaf: Leaf)
    requires Ordered(t) && LeafBelow(leaf, |t|)
    ensures Ordered(t + [leaf])
    ensures Meaning(t + [leaf], Entry(|t|)) == LeafMeaning(t, leaf, |t|)
    ensures leaf.FieldList? ==> FieldListMeaning(t + [leaf], Entry(|t|)) == MembersMeaning(t, leaf.members, |t|)
    ensures leaf.ArgList? ==> ArgListMeaning(t + [leaf], Entry(|t|)) == ArgsMeaning(t, leaf.args, |t|)
  {
    hide MembersMeaning, ArgsMeaning, LeafMeaning;
    OrderedGrows(t, leaf);
    var u := t + [leaf];
    LeafStays(t, |t|, u, |t|, leaf);
    if leaf.FieldList? {
      MembersStay(t, |t|, u, |t|, leaf.members);
    } else if leaf.ArgList? {
      ArgsStay(t, |t|, u, |t|, leaf.args);
    }
  }
}
