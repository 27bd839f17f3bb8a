/** DWARF v5 attribute forms (section 7.5.6), shared by DIE attributes and line-table entries, and the
    length that every unit starts with. */
module DwarfForms {
  import opened Bytes

  const FORM_ADDR := 0x01
  const FORM_DATA2 := 0x05
  const FORM_STRING := 0x08
  const FORM_DATA1 := 0x0B
  const FORM_FLAG := 0x0C
  const FORM_UDATA := 0x0F
  const FORM_REF_ADDR := 0x10
  const FORM_SEC_OFFSET := 0x17
  const FORM_EXPRLOC := 0x18

  datatype Val =
    | Addr(n: nat) | Data1(n: nat) | Data2(n: nat) | Udata(n: nat) | Flag(n: nat)
    | RefAddr(n: nat) | SecOffset(n: nat)
    | Text(s: bytes) | Expr(s: bytes)

  function FormOf(v: Val): nat {
    match v
    case Addr(_) => FORM_ADDR
    case Data1(_) => FORM_DATA1
    case Data2(_) => FORM_DATA2
    case Udata(_) => FORM_UDATA
    case Flag(_) => FORM_FLAG
    case RefAddr(_) => FORM_REF_ADDR
    case SecOffset(_) => FORM_SEC_OFFSET
    case Text(_) => FORM_STRING
    case Expr(_) => FORM_EXPRLOC
  }

  /** The values that their form can hold. */
  predicate Fits(v: Val) {
    match v
    case Addr(n) => n < 0x1_0000_0000_0000_0000
    case Data1(n) => n < 0x100
    case Data2(n) => n < 0x1_0000
    case Udata(_) => true
    case Flag(n) => n < 0x100
    case RefAddr(n) => n < 0x1_0000_0000
    case SecOffset(n) => n < 0x1_0000_0000
    case Text(s) => NoNul(s)
    case Expr(_) => true
  }

  function EncVal(v: Val): bytes {
    match v
    case Addr(n) => Le(n, 8)
    case Data1(n) => Le(n, 1)
    case Data2(n) => Le(n, 2)
    case Udata(n) => Uleb(n)
    case Flag(n) => Le(n, 1)
    case RefAddr(n) => Le(n, 4)
    case SecOffset(n) => Le(n, 4)
    case Text(s) => s + [0]
    case Expr(s) => Uleb(|s|) + s
  }

  function ReadBlock(s: bytes): (r: Read<bytes>)
    ensures r.Got? ==> |r.rest| <= |s|
  {
    var (n, t) :- ReadUleb(s);
    if n > |t| then Bad else Got(t[..n], t[n..])
  }

  /** Reads one value of a form; the 32-bit DWARF format with 8-byte addresses. */
  function ReadForm(form: nat, s: bytes): (r: Read<Val>)
    ensures r.Got? ==> |r.rest| <= |s|
  {
    if form == FORM_ADDR then
      var (n, t) :- ReadLe(8, s); Got(Addr(n), t)
    else if form == FORM_DATA1 then
      var (n, t) :- ReadLe(1, s); Got(Data1(n), t)
    else if form == FORM_DATA2 then
      var (n, t) :- ReadLe(2, s); Got(Data2(n), t)
    else if form == FORM_UDATA then
      var (n, t) :- ReadUleb(s); Got(Udata(n), t)
    else if form == FORM_FLAG then
      var (n, t) :- ReadLe(1, s); Got(Flag(n), t)
    else if form == FORM_REF_ADDR then
      var (n, t) :- ReadLe(4, s); Got(RefAddr(n), t)
    else if form == FORM_SEC_OFFSET then
      var (n, t) :- ReadLe(4, s); Got(SecOffset(n), t)
    else if form == FORM_STRING then
      var (n, t) :- ReadCStr(s); Got(Text(n), t)
    else if form == FORM_EXPRLOC then
      var (n, t) :- ReadBlock(s); Got(Expr(n), t)
    else Bad
  }

  lemma ReadBlockEncoded(s: bytes, rest: bytes)
    ensures ReadBlock(Uleb(|s|) + s + rest) == Got(s, rest)
  {
    hide Uleb, ReadUleb;
    Assoc(Uleb(|s|), s, rest);
    UlebRoundTrip(|s|, s + rest);
    After(s, rest);
  }

  lemma ReadFormEncoded(v: Val, rest: bytes)
    requires Fits(v)
    ensures ReadForm(FormOf(v), EncVal(v) + rest) == Got(v, rest)
  {
    match v
    case Addr(n) => ReadLeFits(n, 8, rest);
    case Data1(n) => ReadLeFits(n, 1, rest);
    case Data2(n) => ReadLeFits(n, 2, rest);
    case Udata(n) => UlebRoundTrip(n, rest);
    case Flag(n) => ReadLeFits(n, 1, rest);
    case RefAddr(n) => ReadLeFits(n, 4, rest);
    case SecOffset(n) => ReadLeFits(n, 4, rest);
    case Text(s) => CStrRoundTrip(s, rest);
    case Expr(s) => ReadBlockEncoded(s, rest);
  }

  function EncVals(vs: seq<Val>): bytes {
    if vs == [] then [] else EncVal(vs[0]) + EncVals(vs[1..])
  }

  function ReadForms(forms: seq<nat>, s: bytes): (r: Read<seq<Val>>)
    ensures r.Got? ==> |r.rest| <= |s| && |r.item| == |forms|
  {
    if forms == [] then Got([], s)
    else
      var (v, t) :- ReadForm(forms[0], s);
      var (vs, rest) :- ReadForms(forms[1..], t);
      Got([v] + vs, rest)
  }

  function FormsOf(vs: seq<Val>): (r: seq<nat>)
    ensures |r| == |vs|
  {
    if vs == [] then [] else [FormOf(vs[0])] + FormsOf(vs[1..])
  }

  lemma {:induction false} ReadFormsEncoded(vs: seq<Val>, rest: bytes)
    requires forall v <- vs :: Fits(v)
    ensures ReadForms(FormsOf(vs), EncVals(vs) + rest) == Got(vs, rest)
  {
    if vs == [] {
      assert EncVals(vs) + rest == rest;
    } else {
      var t := EncVals(vs[1..]) + rest;
      assert EncVals(vs) + rest == EncVal(vs[0]) + t;
      ReadFormEncoded(vs[0], t);
      ReadFormsEncoded(vs[1..], rest);
      assert FormsOf(vs)[1..] == FormsOf(vs[1..]);
      assert [vs[0]] + vs[1..] == vs;
    }
  }

  // ----- Initial lengths (section 7.4) ---------------------------------------------

  /** `unit_length`: the 32-bit DWARF format only (values from 0xFFFFFFF0 are escapes). */
  function ReadUnitLength(s: bytes): (r: Read<bytes>)
    ensures r.Got? ==> |s| == 4 + |r.item| + |r.rest|
  {
    var (n, t) :- ReadLe(4, s);
    if n >= 0xFFFF_FFF0 || n > |t| then Bad else Got(t[..n], t[n..])
  }

  /** A unit is found at its offset whatever precedes and follows it. */
  lemma ReadUnitAt(base: bytes, body: bytes, later: bytes)
    requires |body| < 0xFFFF_FFF0
    ensures ReadUnitLength((base + Le(|body|, 4) + body + later)[|base|..]) == Got(body, later)
  {
    hide Le, FromLe, ReadLe;
    Regrouped(base, Le(|body|, 4), body, later);
    After(base, Le(|body|, 4) + (body + later));
    ReadLeFits(|body|, 4, body + later);
    After(body, later);
  }
}
