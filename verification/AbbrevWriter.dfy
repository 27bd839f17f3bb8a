/** The `.debug_abbrev` writer: the schema of every DIE the emitter produces. */
module AbbrevWriter {
  import opened Bytes
  import opened DwarfForms
  import opened DieReader

  const ABBREV_CU := 1
  const ABBREV_SUBPROGRAM := 2
  const ABBREV_VARIABLE := 3
  const ABBREV_TYPED_VARIABLE := 4
  const ABBREV_BASE_TYPE := 5
  const ABBREV_ARRAY_TYPE := 6
  const ABBREV_SUBRANGE_TYPE := 7
  const ABBREV_SUBPROGRAM_WITH_KIDS := 8
  const ABBREV_FORMAL_PARAMETER := 9
  const ABBREV_LOCAL_VARIABLE := 10

  const CU := Abbrev(TAG_COMPILE_UNIT, true,
    [AT_PRODUCER, AT_LANGUAGE, AT_NAME, AT_COMP_DIR, AT_LOW_PC, AT_HIGH_PC, AT_STMT_LIST],
    [FORM_STRING, FORM_DATA2, FORM_STRING, FORM_STRING, FORM_ADDR, FORM_ADDR, FORM_SEC_OFFSET])
  const SUBPROGRAM := Abbrev(TAG_SUBPROGRAM, false,
    [AT_NAME, AT_LOW_PC, AT_HIGH_PC, AT_EXTERNAL],
    [FORM_STRING, FORM_ADDR, FORM_ADDR, FORM_FLAG])
  const UNTYPED_VARIABLE := Abbrev(TAG_VARIABLE, false,
    [AT_NAME, AT_LOCATION, AT_EXTERNAL],
    [FORM_STRING, FORM_EXPRLOC, FORM_FLAG])
  const TYPED_VARIABLE := Abbrev(TAG_VARIABLE, false,
    [AT_NAME, AT_LOCATION, AT_TYPE, AT_EXTERNAL],
    [FORM_STRING, FORM_EXPRLOC, FORM_REF_ADDR, FORM_FLAG])
  const BASE_TYPE := Abbrev(TAG_BASE_TYPE, false,
    [AT_NAME, AT_BYTE_SIZE, AT_ENCODING],
    [FORM_STRING, FORM_DATA1, FORM_DATA1])
  const ARRAY_TYPE := Abbrev(TAG_ARRAY_TYPE, true, [AT_TYPE], [FORM_REF_ADDR])
  const SUBRANGE_TYPE := Abbrev(TAG_SUBRANGE_TYPE, false, [AT_UPPER_BOUND], [FORM_UDATA])
  const SUBPROGRAM_WITH_KIDS := Abbrev(TAG_SUBPROGRAM, true,
    [AT_NAME, AT_LOW_PC, AT_HIGH_PC, AT_EXTERNAL, AT_FRAME_BASE],
    [FORM_STRING, FORM_ADDR, FORM_ADDR, FORM_FLAG, FORM_EXPRLOC])
  const FORMAL_PARAMETER := Abbrev(TAG_FORMAL_PARAMETER, false,
    [AT_NAME, AT_TYPE, AT_LOCATION],
    [FORM_STRING, FORM_REF_ADDR, FORM_EXPRLOC])
  const LOCAL_VARIABLE := Abbrev(TAG_VARIABLE, false,
    [AT_NAME, AT_TYPE, AT_LOCATION],
    [FORM_STRING, FORM_REF_ADDR, FORM_EXPRLOC])

  /** The declarations, at their codes 1 to 10. */
  const DECLS: seq<Abbrev> :=
    [CU, SUBPROGRAM, UNTYPED_VARIABLE, TYPED_VARIABLE, BASE_TYPE, ARRAY_TYPE, SUBRANGE_TYPE,
     SUBPROGRAM_WITH_KIDS, FORMAL_PARAMETER, LOCAL_VARIABLE]

  const TABLE: AbbrevTable := TableFrom(0)

  /** The declarations from index `i` on, by code. */
  function TableFrom(i: nat): AbbrevTable
    requires i <= |DECLS|
    decreases |DECLS| - i
  {
    if i == |DECLS| then map[] else TableFrom(i + 1)[i + 1 := DECLS[i]]
  }

  predicate DeclOk(a: Abbrev) {
    |a.names| == |a.forms| && forall i | 0 <= i < |a.names| :: a.names[i] > 0
  }

  lemma DeclsOk()
    ensures forall i | 0 <= i < |DECLS| :: DeclOk(DECLS[i])
  {
  }

  lemma TableEntries()
    ensures ABBREV_CU in TABLE && TABLE[ABBREV_CU] == CU
    ensures ABBREV_SUBPROGRAM in TABLE && TABLE[ABBREV_SUBPROGRAM] == SUBPROGRAM
    ensures ABBREV_VARIABLE in TABLE && TABLE[ABBREV_VARIABLE] == UNTYPED_VARIABLE
    ensures ABBREV_TYPED_VARIABLE in TABLE && TABLE[ABBREV_TYPED_VARIABLE] == TYPED_VARIABLE
    ensures ABBREV_BASE_TYPE in TABLE && TABLE[ABBREV_BASE_TYPE] == BASE_TYPE
    ensures ABBREV_ARRAY_TYPE in TABLE && TABLE[ABBREV_ARRAY_TYPE] == ARRAY_TYPE
    ensures ABBREV_SUBRANGE_TYPE in TABLE && TABLE[ABBREV_SUBRANGE_TYPE] == SUBRANGE_TYPE
    ensures ABBREV_SUBPROGRAM_WITH_KIDS in TABLE && TABLE[ABBREV_SUBPROGRAM_WITH_KIDS] == SUBPROGRAM_WITH_KIDS
    ensures ABBREV_FORMAL_PARAMETER in TABLE && TABLE[ABBREV_FORMAL_PARAMETER] == FORMAL_PARAMETER
    ensures ABBREV_LOCAL_VARIABLE in TABLE && TABLE[ABBREV_LOCAL_VARIABLE] == LOCAL_VARIABLE
  {
    DeclsByIndex();
    hide DECLS;
    forall i | 0 <= i < 10 ensures i + 1 in TABLE && TABLE[i + 1] == DECLS[i] {
      TableEntry(0, i);
    }
  }

  lemma DeclsByIndex()
    ensures |DECLS| == 10 && DECLS[0] == CU && DECLS[1] == SUBPROGRAM && DECLS[2] == UNTYPED_VARIABLE
    ensures DECLS[3] == TYPED_VARIABLE && DECLS[4] == BASE_TYPE && DECLS[5] == ARRAY_TYPE && DECLS[6] == SUBRANGE_TYPE
    ensures DECLS[7] == SUBPROGRAM_WITH_KIDS && DECLS[8] == FORMAL_PARAMETER && DECLS[9] == LOCAL_VARIABLE
  {
  }

  lemma {:induction false} TableEntry(i: nat, k: nat)
    requires i <= k < |DECLS|
    ensures k + 1 in TableFrom(i) && TableFrom(i)[k + 1] == DECLS[k]
    decreases k - i
  {
    hide DECLS;
    if i < k {
      TableEntry(i + 1, k);
    }
  }

  lemma {:induction false} TableCodes(i: nat)
    requires i <= |DECLS|
    ensures forall code <- TableFrom(i) :: code > i
    decreases |DECLS| - i
  {
    hide DECLS;
    if i < |DECLS| {
      TableCodes(i + 1);
    }
  }

  // ----- Bytes -------------------------------------------------------------------------

  function EncSpecs(names: seq<nat>, forms: seq<nat>): bytes
    requires |names| == |forms|
  {
    if names == [] then [0, 0]
    else Uleb(names[0]) + Uleb(forms[0]) + EncSpecs(names[1..], forms[1..])
  }

  function EncDecl(code: nat, a: Abbrev): bytes
    requires DeclOk(a)
  {
    Uleb(code) + Uleb(a.tag) + [if a.hasChildren then CHILDREN_YES else CHILDREN_NO] + EncSpecs(a.names, a.forms)
  }

  /** The declarations from index `i` on, and the end-of-table marker. */
  function EncDecls(i: nat): bytes
    requires i <= |DECLS|
    decreases |DECLS| - i
  {
    DeclsOk();
    if i == |DECLS| then [0] else EncDecl(i + 1, DECLS[i]) + EncDecls(i + 1)
  }

  method WriteDecl(abbrev: BytesBuf, code: nat, a: Abbrev)
    requires DeclOk(a)
    modifies abbrev
    ensures abbrev.data == old(abbrev.data) + EncDecl(code, a)
  {
    hide Uleb;
    abbrev.Uleb128(code);
    abbrev.Uleb128(a.tag);
    abbrev.U8(if a.hasChildren then CHILDREN_YES else CHILDREN_NO);
    ghost var head := abbrev.data;
    for i := 0 to |a.names|
      invariant head + EncSpecs(a.names, a.forms) == abbrev.data + EncSpecs(a.names[i..], a.forms[i..])
    {
      ghost var before := abbrev.data;
      abbrev.Uleb128(a.names[i]);
      abbrev.Uleb128(a.forms[i]);
      SpecsStep(before, a.names[i..], a.forms[i..]);
    }
    assert EncSpecs(a.names[|a.names|..], a.forms[|a.forms|..]) == [0, 0];
    SmallUlebs();
    abbrev.Uleb128(0);
    abbrev.Uleb128(0);
    assert abbrev.data == head + EncSpecs(a.names, a.forms);
  }

  lemma SpecsStep(before: bytes, names: seq<nat>, forms: seq<nat>)
    requires names != [] && |names| == |forms|
    ensures before + EncSpecs(names, forms)
         == before + Uleb(names[0]) + Uleb(forms[0]) + EncSpecs(names[1..], forms[1..])
  {
    hide Uleb;
    assert EncSpecs(names, forms) == Uleb(names[0]) + Uleb(forms[0]) + EncSpecs(names[1..], forms[1..]);
  }

  /** Writes the table; a reader at its start finds exactly `TABLE`, whatever follows. */
  method WriteAbbrevTable(abbrev: BytesBuf)
    modifies abbrev
    ensures exists table: bytes :: abbrev.data == old(abbrev.data) + table && IsTable(table)
  {
    hide EncDecl, EncDecls, IsTable, TABLE, DECLS, DeclOk;
    DeclsOk();
    for i := 0 to |DECLS|
      invariant old(abbrev.data) + EncDecls(0) == abbrev.data + EncDecls(i)
    {
      ghost var before := abbrev.data;
      WriteDecl(abbrev, i + 1, DECLS[i]);
      DeclsStep(before, i);
    }
    SmallUlebs();
    abbrev.Uleb128(0);
    EndOfDecls();
    TableReads();
  }

  ghost predicate IsTable(table: bytes) {
    forall later: bytes :: ReadAbbrevs(table + later) == Got(TABLE, later)
  }

  lemma DeclsStep(before: bytes, i: nat)
    requires i < |DECLS| && DeclOk(DECLS[i])
    ensures before + EncDecls(i) == before + EncDecl(i + 1, DECLS[i]) + EncDecls(i + 1)
  {
    hide EncDecl, DECLS;
  }

  lemma EndOfDecls()
    ensures EncDecls(|DECLS|) == [0]
  {
  }

  // ----- Reading the table back -------------------------------------------------------------

  lemma {:induction false} ReadSpecsEncoded(names: seq<nat>, forms: seq<nat>, rest: bytes)
    requires |names| == |forms| && forall i | 0 <= i < |names| :: names[i] > 0
    ensures ReadSpecs(EncSpecs(names, forms) + rest) == Got(Specs(names, forms), rest)
  {
    hide Uleb, ReadUleb;
    if names == [] {
      ReadSmallUleb(0, [0] + rest);
      ReadSmallUleb(0, rest);
      assert [0, 0] + rest == [0] + ([0] + rest);
    } else {
      var t := EncSpecs(names[1..], forms[1..]) + rest;
      assert EncSpecs(names, forms) + rest == Uleb(names[0]) + (Uleb(forms[0]) + t);
      UlebRoundTrip(names[0], Uleb(forms[0]) + t);
      UlebRoundTrip(forms[0], t);
      ReadSpecsEncoded(names[1..], forms[1..], rest);
      assert [names[0]] + names[1..] == names && [forms[0]] + forms[1..] == forms;
    }
  }

  lemma ReadDecl(code: nat, a: Abbrev, more: AbbrevTable, tail: bytes, rest: bytes)
    requires DeclOk(a) && code > 0 && code !in more
    requires ReadAbbrevs(tail) == Got(more, rest)
    ensures ReadAbbrevs(EncDecl(code, a) + tail) == Got(more[code := a], rest)
  {
    hide Uleb, ReadUleb, EncSpecs, ReadSpecs, FromLe;
    var children: u8 := if a.hasChildren then CHILDREN_YES else CHILDREN_NO;
    var t3 := EncSpecs(a.names, a.forms) + tail;
    var t2 := [children] + t3;
    assert EncDecl(code, a) + tail == Uleb(code) + (Uleb(a.tag) + t2);
    UlebRoundTrip(code, Uleb(a.tag) + t2);
    UlebRoundTrip(a.tag, t2);
    ReadOneByte(children, t3);
    ReadSpecsEncoded(a.names, a.forms, tail);
  }

  lemma {:induction false} ReadDecls(i: nat, rest: bytes)
    requires i <= |DECLS|
    ensures ReadAbbrevs(EncDecls(i) + rest) == Got(TableFrom(i), rest)
    decreases |DECLS| - i
  {
    hide EncDecl, ReadUleb, DECLS, DeclOk;
    if i == |DECLS| {
      ReadSmallUleb(0, rest);
    } else {
      hide ReadAbbrevs;
      ReadDecls(i + 1, rest);
      DeclsOk();
      TableCodes(i + 1);
      ReadDecl(i + 1, DECLS[i], TableFrom(i + 1), EncDecls(i + 1) + rest, rest);
      DeclsThen(i, rest);
    }
  }

  lemma DeclsThen(i: nat, rest: bytes)
    requires i < |DECLS| && DeclOk(DECLS[i])
    ensures EncDecls(i) + rest == EncDecl(i + 1, DECLS[i]) + (EncDecls(i + 1) + rest)
  {
    hide EncDecl, DECLS;
  }

  lemma TableReads()
    ensures IsTable(EncDecls(0))
  {
    hide ReadAbbrevs, EncDecls;
    forall later: bytes ensures ReadAbbrevs(EncDecls(0) + later) == Got(TABLE, later) {
      ReadDecls(0, later);
    }
  }
}
