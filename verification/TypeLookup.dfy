/** Which aggregate a type reference of a unit leads to, from the indexes over the aggregates to the records that the
    registrar leaves: an aggregate of the same unit first, and only without one any other. */
module TypeLookup {
  import opened Bytes
  import opened Model
  import opened RsmModel
  import opened PdbModel
  import opened AliasIndex
  import opened Registrar

  /** The reader's indexes were built over its aggregates, which `raw` were before the classes were recognised. */
  ghost predicate Indexed(rsm: Rsm, headers: seq<ClassHeader>, raw: seq<AggregateType>) {
    && rsm.aggregates == Classified(headers, raw, |raw|)
    && HoldsFinal(rsm.byHash, AllGlobal(headers, raw), |raw|)
    && HoldsFinal(rsm.byUnitHash, AllInUnit(headers, raw), |raw|)
  }

  predicate AnswersInUnit(headers: seq<ClassHeader>, a: AggregateType, key: Key) {
    key.anchor != 0 && a.anchor == key.anchor && Answers(headers, a, key.hash)
  }

  /** `t` is what a reference by `key.hash` from a unit means. If some aggregate of the unit answers to the hash, it is
      one of the unit: the last owner of the hash, or else an alias. Otherwise it is one of any unit: again the last
      owner, or else an alias. Without any it is none. */
  ghost predicate IsTarget(headers: seq<ClassHeader>, aggs: seq<AggregateType>, key: Key, t: Option<nat>) {
    && (t.Some? ==> t.value < |aggs| && Answers(headers, aggs[t.value], key.hash))
    && if exists k | 0 <= k < |aggs| :: AnswersInUnit(headers, aggs[k], key) then
         && t.Some? && aggs[t.value].anchor == key.anchor
         && (LastInUnit(aggs, t.value, key) || forall k | 0 <= k < |aggs| :: aggs[k].OwnKey() != key)
       else if exists k | 0 <= k < |aggs| :: Answers(headers, aggs[k], key.hash) then
         t.Some? && (LastWith(aggs, t.value, key.hash) || forall k | 0 <= k < |aggs| :: aggs[k].ownHash != key.hash)
       else t.None?
  }

  lemma SameAnswers(headers: seq<ClassHeader>, raw: seq<AggregateType>, k: nat, hash: u16)
    requires k < |raw|
    ensures var a := Classified(headers, raw, |raw|)[k];
            && a.anchor == raw[k].anchor && a.ownHash == raw[k].ownHash
            && (Answers(headers, a, hash) <==> Answers(headers, raw[k], hash))
  {
    hide HasHeader, HeaderByLow, IsClassByHeader, FieldParent;
  }

  /** The indexes over the raw aggregates speak of the classified ones just as well. */
  lemma SameTarget(headers: seq<ClassHeader>, raw: seq<AggregateType>, key: Key, t: Option<nat>)
    requires IsTarget(headers, raw, key, t)
    ensures IsTarget(headers, Classified(headers, raw, |raw|), key, t)
  {
    hide Answers, Classified;
    var aggs := Classified(headers, raw, |raw|);
    forall k | 0 <= k < |raw|
      ensures aggs[k].OwnKey() == raw[k].OwnKey() && aggs[k].ownHash == raw[k].ownHash && aggs[k].anchor == raw[k].anchor
      ensures Answers(headers, aggs[k], key.hash) == Answers(headers, raw[k], key.hash)
      ensures AnswersInUnit(headers, aggs[k], key) == AnswersInUnit(headers, raw[k], key)
    {
      SameAnswers(headers, raw, k, key.hash);
    }
  }

  lemma OwnerAnswers(headers: seq<ClassHeader>, aggs: seq<AggregateType>, k: nat, hash: u16)
    requires LastWith(aggs, k, hash)
    ensures Answers(headers, aggs[k], hash)
  {
    hide DerivedHashes;
  }

  lemma UnitOwnerAnswers(headers: seq<ClassHeader>, aggs: seq<AggregateType>, k: nat, key: Key)
    requires LastInUnit(aggs, k, key)
    ensures Answers(headers, aggs[k], key.hash)
  {
    hide DerivedHashes;
  }

  /** Looking in the unit first and then anywhere finds the target. */
  lemma FindsTarget(rsm: Rsm, headers: seq<ClassHeader>, raw: seq<AggregateType>, key: Key)
    requires Indexed(rsm, headers, raw)
    ensures IsTarget(headers, rsm.aggregates, key, rsm.FindAggregate(key.anchor, key.hash))
  {
    hide Answers, HoldsFinal, AllGlobal, AllInUnit, Classified, LastWith, LastInUnit;
    FoundByName(headers, raw, rsm.byHash, key.hash);
    FoundInUnit(headers, raw, rsm.byUnitHash, key);
    var t := rsm.FindAggregate(key.anchor, key.hash);
    if t.Some? && LastWith(raw, t.value, key.hash) {
      OwnerAnswers(headers, raw, t.value, key.hash);
    }
    if t.Some? && LastInUnit(raw, t.value, key) {
      UnitOwnerAnswers(headers, raw, t.value, key);
    }
    SameTarget(headers, raw, key, t);
  }

  // ----- References in the records -----------------------------------------------------------------------

  /** Record `j` was registered for an aggregate of the target's unit and hash. */
  ghost predicate LeadsTo(rsm: Rsm, headers: seq<ClassHeader>, owners: seq<Option<nat>>, j: nat, key: Key) {
    && j < |owners| && owners[j].Some? && owners[j].value < |rsm.aggregates|
    && exists t: nat :: t < |rsm.aggregates| && IsTarget(headers, rsm.aggregates, key, Some(t))
                        && KeyOf(rsm, owners[j].value) == KeyOf(rsm, t)
  }

  /** In particular: if any aggregate of the unit answers to the hash, the record is one of the unit, and of the hash
      itself if any of them owns it. */
  lemma SameUnitFirst(rsm: Rsm, headers: seq<ClassHeader>, owners: seq<Option<nat>>, j: nat, key: Key, k: nat)
    requires LeadsTo(rsm, headers, owners, j, key)
    requires k < |rsm.aggregates| && AnswersInUnit(headers, rsm.aggregates[k], key)
    ensures rsm.aggregates[owners[j].value].anchor == key.anchor
    ensures rsm.aggregates[k].ownHash == key.hash ==> rsm.aggregates[owners[j].value].ownHash == key.hash
  {
    hide Answers;
    var t: nat :| t < |rsm.aggregates| && IsTarget(headers, rsm.aggregates, key, Some(t))
                  && KeyOf(rsm, owners[j].value) == KeyOf(rsm, t);
    assert rsm.aggregates[k].ownHash == key.hash ==> rsm.aggregates[k].OwnKey() == key;
  }

  lemma LinkLeads(rsm: Rsm, headers: seq<ClassHeader>, raw: seq<AggregateType>, owners: seq<Option<nat>>, n: nat,
                  key: Key, link: Option<nat>, hash: u16)
    requires rsm.Valid() && Indexed(rsm, headers, raw) && n <= |owners|
    requires LinkOk(rsm, owners[..n], key, link, rsm.FindAggregate(key.anchor, hash)) && link.Some?
    ensures link.value < n && LeadsTo(rsm, headers, owners, link.value, Key(key.anchor, hash))
  {
    hide IsTarget, Eligible, Indexed;
    FindsTarget(rsm, headers, raw, Key(key.anchor, hash));
  }

  /** A composite field in the records refers to the record of the target of its hash, in its own unit first. */
  lemma FieldLeads(rsm: Rsm, headers: seq<ClassHeader>, raw: seq<AggregateType>, records: seq<AggregateRecord>,
                   owners: seq<Option<nat>>, cache: map<Key, nat>, i: nat, f: nat)
    requires StateOk(rsm, records, owners, cache) && Indexed(rsm, headers, raw)
    requires i < |records| && owners[i].Some? && owners[i].value < |rsm.aggregates|
    requires IsComposite(rsm.aggregates[owners[i].value]) && f < |rsm.aggregates[owners[i].value].fields|
    requires rsm.aggregates[owners[i].value].fields[f].typeHash != 0
    ensures f < |records[i].fields|
    ensures records[i].fields[f].nested.Some? ==>
              var a := rsm.aggregates[owners[i].value];
              && records[i].fields[f].nested.value < i
              && LeadsTo(rsm, headers, owners, records[i].fields[f].nested.value, Key(a.anchor, a.fields[f].typeHash))
  {
    hide Indexed, Owned, LinkOk, LeadsTo, Eligible, Rsm.FindAggregate;
    var a := rsm.aggregates[owners[i].value];
    assert RecordOk(rsm, owners, i, records[i]);
    assert FieldOk(rsm, owners[..i], a, a.fields[f], records[i].fields[f]);
    if records[i].fields[f].nested.Some? {
      LinkLeads(rsm, headers, raw, owners, i, a.OwnKey(), records[i].fields[f].nested, a.fields[f].typeHash);
    }
  }

  /** Likewise a base class. */
  lemma BaseLeads(rsm: Rsm, headers: seq<ClassHeader>, raw: seq<AggregateType>, records: seq<AggregateRecord>,
                  owners: seq<Option<nat>>, cache: map<Key, nat>, i: nat)
    requires StateOk(rsm, records, owners, cache) && Indexed(rsm, headers, raw)
    requires i < |records| && owners[i].Some? && owners[i].value < |rsm.aggregates| && records[i].base.Some?
    ensures var a := rsm.aggregates[owners[i].value];
            && a.kind == ClassKind && a.baseHash != 0 && records[i].base.value < i
            && LeadsTo(rsm, headers, owners, records[i].base.value, Key(a.anchor, a.baseHash))
  {
    hide Indexed, Owned, LeadsTo, Eligible, Rsm.FindAggregate, FieldsOk, IsComposite;
    var a := rsm.aggregates[owners[i].value];
    assert RecordOk(rsm, owners, i, records[i]);
    LinkLeads(rsm, headers, raw, owners, i, a.OwnKey(), records[i].base, a.baseHash);
  }

  /** The record that a variable's type is looked up as is one of the target of its hash. */
  lemma VariableLeads(rsm: Rsm, headers: seq<ClassHeader>, raw: seq<AggregateType>, owners: seq<Option<nat>>, j: nat,
                      key: Key)
    requires rsm.Valid() && Indexed(rsm, headers, raw) && rsm.FindAggregate(key.anchor, key.hash).Some?
    requires j < |owners| && owners[j].Some? && owners[j].value < |rsm.aggregates|
    requires KeyOf(rsm, owners[j].value) == KeyOf(rsm, rsm.FindAggregate(key.anchor, key.hash).value)
    ensures LeadsTo(rsm, headers, owners, j, key)
  {
    hide IsTarget, Indexed;
    FindsTarget(rsm, headers, raw, key);
  }

  // ----- Fields by marker ----------------------------------------------------------------------------------

  /** The entries of a unit's type table have the markers 2, 4, 6 and so on. */
  lemma MarkersCount(rsm: Rsm, anchor: u64, marker: u8)
    ensures var e := rsm.UnitTypeEntryForMarker(anchor, marker);
            && (e.Some? ==>
                  && anchor != 0 && anchor in rsm.tables
                  && exists k: nat ::
                       k < |rsm.tables[anchor]| && marker == 2 * (k + 1) && e.value == rsm.tables[anchor][k])
            && (e.None? ==> anchor == 0 || anchor !in rsm.tables
                            || marker == 0 || marker % 2 == 1 || marker > 2 * |rsm.tables[anchor]|)
  {
    if rsm.UnitTypeEntryForMarker(anchor, marker).Some? {
      assert marker == 2 * ((marker / 2 - 1) + 1);
    }
  }

  /** What a field record says of a field that refers to entry `k` of its unit's table: a known primitive, or else a
      link to the aggregate of that name whose hash agrees, or else the first of the name. */
  lemma FieldByMarker(rsm: Rsm, records: seq<AggregateRecord>, owners: seq<Option<nat>>, cache: map<Key, nat>, i: nat,
                      f: nat, k: nat)
    requires StateOk(rsm, records, owners, cache)
    requires i < |records| && owners[i].Some? && owners[i].value < |rsm.aggregates|
    requires IsComposite(rsm.aggregates[owners[i].value]) && f < |rsm.aggregates[owners[i].value].fields|
    requires var a := rsm.aggregates[owners[i].value];
             && a.fields[f].typeHash == 0 && a.anchor != 0 && a.anchor in rsm.tables && k < |rsm.tables[a.anchor]|
             && a.fields[f].primitiveMarker == 2 * (k + 1)
    ensures f < |records[i].fields|
    ensures var r := records[i].fields[f]; var e := rsm.tables[rsm.aggregates[owners[i].value].anchor][k];
            if e.name in rsm.primitives then
              && r.nested == None && r.primKind == Some(rsm.primitives[e.name].kind)
              && r.byteSize == rsm.primitives[e.name].byteSize
            else
              && r.primKind == None && r.byteSize == 0
              && (r.nested.Some? ==>
                    && e.hash4 != 0 && r.nested.value < i && owners[r.nested.value].Some?
                    && owners[r.nested.value].value < |rsm.aggregates|
                    && exists t: nat :: t < |rsm.aggregates| && FirstByHash(rsm, rsm.Named(e.name), e.hash4 % 0x1_0000, t)
                                        && KeyOf(rsm, owners[r.nested.value].value) == KeyOf(rsm, t))
  {
    hide Owned, Eligible, Reaches, BaseTarget, FirstByHash;
    var a := rsm.aggregates[owners[i].value];
    assert RecordOk(rsm, owners, i, records[i]);
    assert FieldOk(rsm, owners[..i], a, a.fields[f], records[i].fields[f]);
    assert rsm.UnitTypeEntryForMarker(a.anchor, a.fields[f].primitiveMarker) == Some(rsm.tables[a.anchor][k]);
  }
}
