/** The aggregate registrar: a memoised depth-first walk over the type graph of an RSM file that
    pushes every type after the types it refers to, and drops a reference only to break a cycle. */
module Registrar {
  import opened Bytes
  import opened Model
  import opened RsmModel
  import opened PdbModel

  // ----- Which aggregates are registered, and what they refer to --------------------------------

  predicate IsSetBase(rsm: Rsm, i: nat, j: nat)
    requires i < |rsm.aggregates| && j < |rsm.aggregates|
  {
    var a, b := rsm.aggregates[i], rsm.aggregates[j];
    b.anchor == a.anchor && b.kind == EnumKind && |a.name| > 0 && b.name == a.name[..|a.name| - 1]
  }

  /** Only the name tells a set type: it is the name of an enum of the same unit plus an `s`. */
  predicate MayBeSet(a: AggregateType) {
    a.kind == UnknownKind && |a.name| > 1 && a.name[|a.name| - 1] == 's'
  }

  ghost predicate IsSet(rsm: Rsm, i: nat)
    requires i < |rsm.aggregates|
  {
    MayBeSet(rsm.aggregates[i]) && exists j | 0 <= j < |rsm.aggregates| :: IsSetBase(rsm, i, j)
  }

  /** An aggregate is a set exactly if its kind is unknown and it is called like an enum of its unit, with an `s`. */
  lemma SetNames(rsm: Rsm, i: nat)
    requires i < |rsm.aggregates|
    ensures var a := rsm.aggregates[i];
            IsSet(rsm, i)
            <==> a.kind == UnknownKind
                 && exists b <- rsm.aggregates ::
                      b.kind == EnumKind && b.anchor == a.anchor && b.name != "" && a.name == b.name + "s"
  {
    var a := rsm.aggregates[i];
    if IsSet(rsm, i) {
      var j :| 0 <= j < |rsm.aggregates| && IsSetBase(rsm, i, j);
      assert rsm.aggregates[j] in rsm.aggregates && a.name == rsm.aggregates[j].name + "s";
    }
    forall b | b in rsm.aggregates && b.kind == EnumKind && b.anchor == a.anchor && a.name == b.name + "s"
      ensures exists j | 0 <= j < |rsm.aggregates| :: IsSetBase(rsm, i, j)
    {
      var j :| 0 <= j < |rsm.aggregates| && rsm.aggregates[j] == b;
      assert a.name[..|a.name| - 1] == b.name;
      assert IsSetBase(rsm, i, j);
    }
  }

  predicate IsComposite(a: AggregateType) {
    a.kind == RecordKind || a.kind == PackedRecordKind || a.kind == ClassKind
  }

  /** The aggregates that get a record of their own. */
  ghost predicate Eligible(rsm: Rsm, i: nat)
    requires i < |rsm.aggregates|
  {
    IsComposite(rsm.aggregates[i]) || rsm.aggregates[i].kind == EnumKind || IsSet(rsm, i)
  }

  function BaseTarget(rsm: Rsm, i: nat): (r: Option<nat>)
    requires rsm.Valid() && i < |rsm.aggregates|
    ensures r.Some? ==> r.value < |rsm.aggregates|
  {
    var a := rsm.aggregates[i];
    if a.kind == ClassKind && a.baseHash != 0 then rsm.FindAggregate(a.anchor, a.baseHash) else None
  }

  /** What a field's type is: a primitive, a link to an aggregate, or unknown. */
  datatype FieldType = Prim(p: Primitive) | Link(target: Option<nat>) | Opaque

  function FieldTypeOf(rsm: Rsm, anchor: u64, fe: FieldEntry): (r: FieldType)
    requires rsm.Valid()
    ensures r.Link? && r.target.Some? ==> r.target.value < |rsm.aggregates|
  {
    if fe.typeHash != 0 then Link(rsm.FindAggregate(anchor, fe.typeHash))
    else if fe.primitiveMarker == 0 then Opaque
    else match rsm.UnitTypeEntryForMarker(anchor, fe.primitiveMarker)
      case None => Opaque
      case Some(entry) =>
        match rsm.ResolvePrimitive(entry.name)
        case Some(p) => Prim(p)
        case None => if entry.hash4 == 0 then Opaque else Link(Foreign(rsm, entry))
  }

  /** The first of the aggregates with the hash; the first of all when none has it. */
  ghost predicate FirstByHash(rsm: Rsm, named: seq<nat>, hash: u16, t: nat)
    requires forall i | 0 <= i < |named| :: named[i] < |rsm.aggregates|
  {
    if exists i | 0 <= i < |named| :: rsm.aggregates[named[i]].ownHash == hash then
      exists i | 0 <= i < |named| :: named[i] == t && rsm.aggregates[t].ownHash == hash
                                     && forall k | 0 <= k < i :: rsm.aggregates[named[k]].ownHash != hash
    else named != [] && t == named[0]
  }

  /** A type declared in another unit: the first of that name whose hash agrees, else the first of that name. */
  function Foreign(rsm: Rsm, entry: UnitTypeEntry): (r: Option<nat>)
    requires rsm.Valid()
    ensures r.Some? ==> r.value < |rsm.aggregates| && r.value in rsm.Named(entry.name)
    ensures r.None? <==> rsm.Named(entry.name) == []
    ensures r.Some? ==> FirstByHash(rsm, rsm.Named(entry.name), entry.hash4 % 0x1_0000, r.value)
  {
    var named := rsm.Named(entry.name);
    var exact := FirstWithHash(rsm, named, entry.hash4 % 0x1_0000);
    if exact.Some? then exact else if named != [] then Some(named[0]) else None
  }

  function FirstWithHash(rsm: Rsm, named: seq<nat>, hash: u16): (r: Option<nat>)
    requires forall i | 0 <= i < |named| :: named[i] < |rsm.aggregates|
    ensures r.Some? ==> r.value in named && FirstByHash(rsm, named, hash, r.value)
    ensures r.Some? ==> rsm.aggregates[r.value].ownHash == hash
    ensures r.None? ==> forall i | 0 <= i < |named| :: rsm.aggregates[named[i]].ownHash != hash
  {
    if named == [] then None
    else if rsm.aggregates[named[0]].ownHash == hash then Some(named[0])
    else
      var r := FirstWithHash(rsm, named[1..], hash);
      if r.Some? then
        FirstStaysFirst(rsm, named, hash, r.value);
        r
      else r
  }

  lemma FirstStaysFirst(rsm: Rsm, named: seq<nat>, hash: u16, t: nat)
    requires named != [] && forall i | 0 <= i < |named| :: named[i] < |rsm.aggregates|
    requires rsm.aggregates[named[0]].ownHash != hash && t in named[1..] && rsm.aggregates[t].ownHash == hash
    requires FirstByHash(rsm, named[1..], hash, t)
    ensures FirstByHash(rsm, named, hash, t)
  {
    var rest := named[1..];
    var i :| 0 <= i < |rest| && rest[i] == t && forall k | 0 <= k < i :: rsm.aggregates[rest[k]].ownHash != hash;
    assert named[i + 1] == t;
    forall k | 0 <= k < i + 1 ensures rsm.aggregates[named[k]].ownHash != hash {
      if k > 0 {
        assert named[k] == rest[k - 1];
      }
    }
  }

  function FieldTarget(rsm: Rsm, anchor: u64, fe: FieldEntry): (r: Option<nat>)
    requires rsm.Valid()
    ensures r.Some? ==> r.value < |rsm.aggregates|
  {
    match FieldTypeOf(rsm, anchor, fe)
    case Link(target) => target
    case _ => None
  }

  // ----- The graph of keys ------------------------------------------------------------------------

  ghost predicate LinksTo(rsm: Rsm, i: nat, j: nat)
    requires rsm.Valid() && i < |rsm.aggregates|
  {
    var a := rsm.aggregates[i];
    IsComposite(a) &&
    (BaseTarget(rsm, i) == Some(j) || exists f | 0 <= f < |a.fields| :: FieldTarget(rsm, a.anchor, a.fields[f]) == Some(j))
  }

  function KeyOf(rsm: Rsm, i: nat): Key
    requires i < |rsm.aggregates|
  {
    rsm.aggregates[i].OwnKey()
  }

  /** An aggregate with key `k` has a link to an eligible aggregate with key `l`. */
  ghost predicate Edge(rsm: Rsm, k: Key, l: Key)
    requires rsm.Valid()
  {
    exists i, j | 0 <= i < |rsm.aggregates| && 0 <= j < |rsm.aggregates| ::
      LinksTo(rsm, i, j) && KeyOf(rsm, i) == k && Eligible(rsm, j) && KeyOf(rsm, j) == l
  }

  ghost predicate Path(rsm: Rsm, p: seq<Key>)
    requires rsm.Valid()
  {
    |p| > 0 && forall i | 0 < i < |p| :: Edge(rsm, p[i - 1], p[i])
  }

  ghost predicate Reaches(rsm: Rsm, k: Key, l: Key)
    requires rsm.Valid()
  {
    exists p :: Path(rsm, p) && p[0] == k && p[|p| - 1] == l
  }

  ghost predicate Acyclic(rsm: Rsm)
    requires rsm.Valid()
  {
    forall p | Path(rsm, p) && |p| > 1 :: p[0] != p[|p| - 1]
  }

  lemma ReachesSelf(rsm: Rsm, k: Key)
    requires rsm.Valid()
    ensures Reaches(rsm, k, k)
  {
    assert Path(rsm, [k]);
  }

  lemma ReachesOn(rsm: Rsm, k: Key, i: nat, j: nat)
    requires rsm.Valid() && i < |rsm.aggregates| && j < |rsm.aggregates|
    requires Reaches(rsm, k, KeyOf(rsm, i)) && LinksTo(rsm, i, j) && Eligible(rsm, j)
    ensures Reaches(rsm, k, KeyOf(rsm, j))
  {
    hide Edge, LinksTo, Eligible;
    var p :| Path(rsm, p) && p[0] == k && p[|p| - 1] == KeyOf(rsm, i);
    LinkIsEdge(rsm, i, j);
    PathOn(rsm, p, KeyOf(rsm, j));
  }

  lemma LinkIsEdge(rsm: Rsm, i: nat, j: nat)
    requires rsm.Valid() && i < |rsm.aggregates| && j < |rsm.aggregates|
    requires LinksTo(rsm, i, j) && Eligible(rsm, j)
    ensures Edge(rsm, KeyOf(rsm, i), KeyOf(rsm, j))
  {
  }

  // ----- What a record says about its aggregate ---------------------------------------------------------

  /** A link of aggregate `key`, given the owners of the records before its own: an earlier record of
      the target's key, or nothing, and then for an eligible target only because it leads back to `key`. */
  ghost predicate LinkOk(rsm: Rsm, owners: seq<Option<nat>>, key: Key, link: Option<nat>, target: Option<nat>)
    requires rsm.Valid() && (target.Some? ==> target.value < |rsm.aggregates|)
  {
    match link
    case Some(j) =>
      && target.Some? && Eligible(rsm, target.value)
      && j < |owners| && owners[j].Some? && owners[j].value < |rsm.aggregates|
      && KeyOf(rsm, owners[j].value) == KeyOf(rsm, target.value)
    case None =>
      target.Some? && Eligible(rsm, target.value) ==> Reaches(rsm, KeyOf(rsm, target.value), key)
  }

  ghost predicate FieldOk(rsm: Rsm, owners: seq<Option<nat>>, a: AggregateType, fe: FieldEntry, f: AggregateField)
    requires rsm.Valid()
  {
    && f.name == fe.name && f.byteOffset == fe.offset
    && LinkOk(rsm, owners, a.OwnKey(), f.nested, FieldTarget(rsm, a.anchor, fe))
    && match FieldTypeOf(rsm, a.anchor, fe)
       case Prim(p) => f.primKind == Some(p.kind) && f.byteSize == p.byteSize
       case _ => f.primKind == None && f.byteSize == 0
  }

  ghost predicate FieldsOk(rsm: Rsm, owners: seq<Option<nat>>, a: AggregateType, fields: seq<AggregateField>)
    requires rsm.Valid()
  {
    |fields| <= |a.fields| && forall f | 0 <= f < |fields| :: FieldOk(rsm, owners, a, a.fields[f], fields[f])
  }

  ghost predicate NamesEntries(es: seq<Enumerator>, entries: seq<EnumEntry>) {
    |es| == |entries| && forall i | 0 <= i < |es| :: es[i] == Enumerator(entries[i].name, entries[i].ordinal)
  }

  predicate HoldsAll(entries: seq<EnumEntry>, limit: int) {
    forall i | 0 <= i < |entries| :: entries[i].ordinal <= limit
  }

  /** The fewest of 1, 2 and 4 bytes that hold every ordinal, but at most 4. */
  function EnumWidth(entries: seq<EnumEntry>): (w: u32)
    ensures w in {1, 2, 4} && (w == 4 || HoldsAll(entries, Pow256(w) - 1))
    ensures forall v <- {1, 2} :: v < w ==> !HoldsAll(entries, Pow256(v) - 1)
  {
    Pow256Values();
    if HoldsAll(entries, 0xFF) then 1 else if HoldsAll(entries, 0xFFFF) then 2 else 4
  }

  /** The fewest of 1, 2, 4 and 8 bytes that have a bit for every ordinal, but at most 8. */
  function SetWidth(entries: seq<EnumEntry>): (w: u32)
    ensures w in {1, 2, 4, 8} && (w == 8 || HoldsAll(entries, 8 * w - 1))
    ensures forall v <- {1, 2, 4} :: v < w ==> !HoldsAll(entries, 8 * v - 1)
  {
    if HoldsAll(entries, 7) then 1 else if HoldsAll(entries, 15) then 2 else if HoldsAll(entries, 31) then 4 else 8
  }

  ghost predicate FirstSetBase(rsm: Rsm, i: nat, j: nat)
    requires i < |rsm.aggregates|
  {
    j < |rsm.aggregates| && IsSetBase(rsm, i, j) && forall k | 0 <= k < j :: !IsSetBase(rsm, i, k)
  }

  ghost predicate RecordOf(rsm: Rsm, owners: seq<Option<nat>>, i: nat, rec: AggregateRecord)
    requires rsm.Valid() && i < |rsm.aggregates|
  {
    var a := rsm.aggregates[i];
    && rec.name == a.name
    && LinkOk(rsm, owners, a.OwnKey(), rec.base, BaseTarget(rsm, i))
    && if IsComposite(a) then
         && rec.kind == (if a.kind == ClassKind then ClassType else RecordType) && rec.byteSize == a.totalSize
         && |rec.fields| == |a.fields| && FieldsOk(rsm, owners, a, rec.fields)
         && rec.enumerators == [] && rec.propertyNames == a.properties
       else if a.kind == EnumKind then
         && rec.kind == EnumType && rec.byteSize == EnumWidth(a.entries) && NamesEntries(rec.enumerators, a.entries)
         && rec.fields == []
       else
         && rec.kind == SetType && rec.fields == []
         && exists j: nat :: && FirstSetBase(rsm, i, j) && rec.byteSize == SetWidth(rsm.aggregates[j].entries)
                        && NamesEntries(rec.enumerators, rsm.aggregates[j].entries)
  }

  /** A record without an aggregate behind it: an opaque class or an anonymous set. */
  predicate IsPlaceholder(rec: AggregateRecord) {
    (rec.kind == ClassType || rec.kind == SetType) && rec.base == None && rec.fields == []
  }

  // ----- The invariant -----------------------------------------------------------------------------------

  /** Cache and records agree: each key is cached exactly once, at the one record it owns. */
  ghost predicate Owned(rsm: Rsm, owners: seq<Option<nat>>, cache: map<Key, nat>) {
    && (forall k <- cache ::
          && cache[k] < |owners| && owners[cache[k]].Some? && owners[cache[k]].value < |rsm.aggregates|
          && KeyOf(rsm, owners[cache[k]].value) == k)
    && (forall i | 0 <= i < |owners| && owners[i].Some? ::
          && owners[i].value < |rsm.aggregates| && Eligible(rsm, owners[i].value)
          && KeyOf(rsm, owners[i].value) in cache && cache[KeyOf(rsm, owners[i].value)] == i)
  }

  ghost predicate RecordOk(rsm: Rsm, owners: seq<Option<nat>>, i: nat, rec: AggregateRecord)
    requires rsm.Valid() && i < |owners| && (owners[i].Some? ==> owners[i].value < |rsm.aggregates|)
  {
    match owners[i]
    case Some(a) => RecordOf(rsm, owners[..i], a, rec)
    case None => IsPlaceholder(rec)
  }

  ghost predicate StateOk(rsm: Rsm, records: seq<AggregateRecord>, owners: seq<Option<nat>>, cache: map<Key, nat>) {
    && rsm.Valid() && |owners| == |records| && Owned(rsm, owners, cache)
    && forall i | 0 <= i < |records| :: RecordOk(rsm, owners, i, records[i])
  }

  /** Every key on the recursion path leads to `key`. */
  ghost predicate OnPath(rsm: Rsm, path: set<Key>, key: Key)
    requires rsm.Valid()
  {
    forall k <- path :: Reaches(rsm, k, key)
  }

  lemma OnPathSelf(rsm: Rsm, path: set<Key>, key: Key)
    requires rsm.Valid() && OnPath(rsm, path, key)
    ensures OnPath(rsm, path + {key}, key)
  {
    ReachesSelf(rsm, key);
  }

  lemma OnPathStep(rsm: Rsm, path: set<Key>, i: nat, j: nat)
    requires rsm.Valid() && i < |rsm.aggregates| && j < |rsm.aggregates|
    requires OnPath(rsm, path, KeyOf(rsm, i)) && LinksTo(rsm, i, j) && Eligible(rsm, j)
    ensures OnPath(rsm, path, KeyOf(rsm, j))
  {
    hide Reaches, LinksTo, Eligible;
    forall k <- path ensures Reaches(rsm, k, KeyOf(rsm, j)) {
      ReachesOn(rsm, k, i, j);
    }
  }

  ghost function AllKeys(rsm: Rsm): set<Key> {
    set i | 0 <= i < |rsm.aggregates| :: KeyOf(rsm, i)
  }

  lemma LinkStays(rsm: Rsm, before: seq<Option<nat>>, after: seq<Option<nat>>, key: Key, link: Option<nat>,
                  target: Option<nat>)
    requires rsm.Valid() && (target.Some? ==> target.value < |rsm.aggregates|)
    requires LinkOk(rsm, before, key, link, target) && before <= after
    ensures LinkOk(rsm, after, key, link, target)
  {
    hide Reaches, Eligible;
  }

  lemma FieldsStay(rsm: Rsm, before: seq<Option<nat>>, after: seq<Option<nat>>, a: AggregateType,
                   fields: seq<AggregateField>)
    requires rsm.Valid() && FieldsOk(rsm, before, a, fields) && before <= after
    ensures FieldsOk(rsm, after, a, fields)
  {
    hide FieldTarget, FieldTypeOf, LinkOk;
    forall f | 0 <= f < |fields| ensures FieldOk(rsm, after, a, a.fields[f], fields[f]) {
      LinkStays(rsm, before, after, a.OwnKey(), fields[f].nested, FieldTarget(rsm, a.anchor, a.fields[f]));
    }
  }

  lemma StateGrows(rsm: Rsm, records: seq<AggregateRecord>, owners: seq<Option<nat>>, cache: map<Key, nat>,
                   rec: AggregateRecord, owner: Option<nat>, newCache: map<Key, nat>)
    requires StateOk(rsm, records, owners, cache)
    requires match owner
             case Some(i) =>
               && i < |rsm.aggregates| && Eligible(rsm, i) && KeyOf(rsm, i) !in cache && RecordOf(rsm, owners, i, rec)
               && newCache == cache[KeyOf(rsm, i) := |records|]
             case None => IsPlaceholder(rec) && newCache == cache
    ensures StateOk(rsm, records + [rec], owners + [owner], newCache)
  {
    hide RecordOf, Eligible, IsPlaceholder, Owned;
    var rs, os := records + [rec], owners + [owner];
    OwnedGrows(rsm, owners, cache, owner, newCache);
    OwnersIn(rsm, os, newCache);
    forall i | 0 <= i < |rs| ensures RecordOk(rsm, os, i, rs[i]) {
      assert os[..i] == owners[..i];
      assert owners[..|owners|] == owners;
    }
  }

  lemma OwnedGrows(rsm: Rsm, owners: seq<Option<nat>>, cache: map<Key, nat>, owner: Option<nat>, newCache: map<Key, nat>)
    requires Owned(rsm, owners, cache)
    requires match owner
             case Some(i) =>
               && i < |rsm.aggregates| && Eligible(rsm, i) && KeyOf(rsm, i) !in cache
               && newCache == cache[KeyOf(rsm, i) := |owners|]
             case None => newCache == cache
    ensures Owned(rsm, owners + [owner], newCache)
  {
    hide Eligible;
  }

  // ----- The registrar ---------------------------------------------------------------------------------------

  class Context {
    const rsm: Rsm
    var aggregates: seq<AggregateRecord>
    var cache: map<Key, nat>
    var inProgress: set<Key>
    // The aggregate that each record was registered for.
    ghost var owners: seq<Option<nat>>

    ghost predicate Valid()
      reads this
    {
      StateOk(rsm, aggregates, owners, cache) && cache.Keys !! inProgress
    }

    constructor (rsm: Rsm)
      requires rsm.Valid()
      ensures Valid() && this.rsm == rsm && aggregates == [] && inProgress == {}
    {
      this.rsm := rsm;
      aggregates, cache, inProgress, owners := [], map[], {}, [];
    }

    /** The index of the aggregate's record, registering it and all it refers to when it is new. Nothing
        for an aggregate that gets no record, or whose registration is still going on. */
    method RegisterAggr(p: Option<nat>) returns (r: Option<nat>)
      requires Valid() && (p.Some? ==> p.value < |rsm.aggregates|)
      requires p.Some? && Eligible(rsm, p.value) ==> OnPath(rsm, inProgress, KeyOf(rsm, p.value))
      modifies this
      ensures Valid() && inProgress == old(inProgress)
      ensures old(aggregates) <= aggregates && old(owners) <= owners
      ensures forall k <- old(cache) :: k in cache && cache[k] == old(cache)[k]
      ensures r.Some? <==> p.Some? && Eligible(rsm, p.value) && KeyOf(rsm, p.value) !in inProgress
      ensures r.Some? ==> KeyOf(rsm, p.value) in cache && r.value == cache[KeyOf(rsm, p.value)]
      ensures r.None? ==> aggregates == old(aggregates) && cache == old(cache) && owners == old(owners)
      decreases AllKeys(rsm) - inProgress, 0, 0
    {
      hide RecordOf, LinkOk, LinksTo, Reaches, FieldsOk, OnPath, RecordOk, Owned, IsSetBase;
      if p.None? {
        return None;
      }
      var i := p.value;
      var a := rsm.aggregates[i];
      var setBase := FindSetBase(i);
      var composite := a.kind == RecordKind || a.kind == PackedRecordKind || a.kind == ClassKind;
      if !composite && a.kind != EnumKind && setBase.None? {
        return None;
      }
      var key := a.OwnKey();
      if key in cache {
        return Some(cache[key]);
      }
      if key in inProgress {
        return None;
      }
      inProgress := inProgress + {key};
      assert key in AllKeys(rsm) by { assert KeyOf(rsm, i) == key; }
      OnPathSelf(rsm, old(inProgress), key);
      var rec := NewRecord(i, setBase);
      StateGrows(rsm, aggregates, owners, cache, rec, Some(i), cache[key := |aggregates|]);
      aggregates, owners := aggregates + [rec], owners + [Some(i)];
      cache := cache[key := |aggregates| - 1];
      inProgress := inProgress - {key};
      return Some(|aggregates| - 1);
    }

    /** The record of an aggregate, with everything it refers to registered before it. */
    method NewRecord(i: nat, setBase: Option<nat>) returns (rec: AggregateRecord)
      requires Valid() && i < |rsm.aggregates| && Eligible(rsm, i) && OnPath(rsm, inProgress, KeyOf(rsm, i))
      requires setBase.Some? <==> IsSet(rsm, i)
      requires setBase.Some? ==> FirstSetBase(rsm, i, setBase.value)
      modifies this
      ensures Valid() && inProgress == old(inProgress)
      ensures old(aggregates) <= aggregates && old(owners) <= owners
      ensures forall k <- old(cache) :: k in cache && cache[k] == old(cache)[k]
      ensures RecordOf(rsm, owners, i, rec)
      decreases AllKeys(rsm) - inProgress, 2, 0
    {
      assert rsm.Valid();
      hide RecordOf, LinkOk, LinksTo, Reaches, FieldsOk, OnPath, RecordOk, Owned, IsSetBase, FieldTypeOf, BaseTarget,
           StateOk;
      var a := rsm.aggregates[i];
      var base := RegisterBase(i);
      if setBase.Some? {
        var entries := rsm.aggregates[setBase.value].entries;
        var es, maxOrd := CopyEnumerators(entries);
        var size := if maxOrd <= 7 then 1 else if maxOrd <= 15 then 2 else if maxOrd <= 31 then 4 else 8;
        rec := AggregateRecord(SetType, a.name, size, [], es, [], [], base);
        SetRecord(rsm, owners, i, setBase.value, rec);
      } else if a.kind == EnumKind {
        var es, maxOrd := CopyEnumerators(a.entries);
        var size := if maxOrd <= 0xFF then 1 else if maxOrd <= 0xFFFF then 2 else 4;
        rec := AggregateRecord(EnumType, a.name, size, [], es, [], [], base);
        EnumRecord(rsm, owners, i, rec);
      } else {
        ghost var mid := owners;
        var fields := RegisterFields(i);
        LinkStays(rsm, mid, owners, KeyOf(rsm, i), base, BaseTarget(rsm, i));
        rec := AggregateRecord(if a.kind == ClassKind then ClassType else RecordType, a.name, a.totalSize, fields, [], [],
                               a.properties, base);
        CompositeRecord(rsm, owners, i, rec);
      }
    }

    /** Registers the base class of a class, so that it comes before the class. */
    method RegisterBase(i: nat) returns (base: Option<nat>)
      requires Valid() && i < |rsm.aggregates| && OnPath(rsm, inProgress, KeyOf(rsm, i))
      modifies this
      ensures Valid() && inProgress == old(inProgress)
      ensures old(aggregates) <= aggregates && old(owners) <= owners
      ensures forall k <- old(cache) :: k in cache && cache[k] == old(cache)[k]
      ensures LinkOk(rsm, owners, KeyOf(rsm, i), base, BaseTarget(rsm, i))
      decreases AllKeys(rsm) - inProgress, 1
    {
      base := None;
      var a := rsm.aggregates[i];
      if a.kind == ClassKind && a.baseHash != 0 {
        var target := rsm.FindAggregate(a.anchor, a.baseHash);
        assert target == BaseTarget(rsm, i);
        base := RegisterLink(i, target);
      }
    }

    method RegisterLink(i: nat, target: Option<nat>) returns (link: Option<nat>)
      requires Valid() && i < |rsm.aggregates| && OnPath(rsm, inProgress, KeyOf(rsm, i))
      requires target.Some? ==> target.value < |rsm.aggregates| && LinksTo(rsm, i, target.value)
      modifies this
      ensures Valid() && inProgress == old(inProgress)
      ensures old(aggregates) <= aggregates && old(owners) <= owners
      ensures forall k <- old(cache) :: k in cache && cache[k] == old(cache)[k]
      ensures LinkOk(rsm, owners, KeyOf(rsm, i), link, target)
      decreases AllKeys(rsm) - inProgress, 0, 1
    {
      hide LinksTo, Eligible, Reaches, RecordOk;
      if target.Some? && Eligible(rsm, target.value) {
        OnPathStep(rsm, inProgress, i, target.value);
      }
      link := RegisterAggr(target);
    }

    /** The fields of a record or class, each with the aggregate it refers to registered. */
    method RegisterFields(i: nat) returns (fields: seq<AggregateField>)
      requires Valid() && i < |rsm.aggregates| && IsComposite(rsm.aggregates[i])
               && OnPath(rsm, inProgress, KeyOf(rsm, i))
      modifies this
      ensures Valid() && inProgress == old(inProgress)
      ensures old(aggregates) <= aggregates && old(owners) <= owners
      ensures forall k <- old(cache) :: k in cache && cache[k] == old(cache)[k]
      ensures |fields| == |rsm.aggregates[i].fields| && FieldsOk(rsm, owners, rsm.aggregates[i], fields)
      decreases AllKeys(rsm) - inProgress, 1
    {
      hide LinksTo, Eligible, Reaches, RecordOk, OnPath, LinkOk, FieldTypeOf, Owned;
      var a := rsm.aggregates[i];
      fields := [];
      for n := 0 to |a.fields|
        invariant Valid() && inProgress == old(inProgress)
        invariant old(aggregates) <= aggregates && old(owners) <= owners
        invariant forall k <- old(cache) :: k in cache && cache[k] == old(cache)[k]
        invariant |fields| == n && FieldsOk(rsm, owners, a, fields)
      {
        ghost var before := owners;
        var field := RegisterField(i, n);
        FieldsStay(rsm, before, owners, a, fields);
        fields := fields + [field];
      }
    }

    method RegisterField(i: nat, n: nat) returns (f: AggregateField)
      requires Valid() && i < |rsm.aggregates| && IsComposite(rsm.aggregates[i])
               && OnPath(rsm, inProgress, KeyOf(rsm, i))
      requires n < |rsm.aggregates[i].fields|
      modifies this
      ensures Valid() && inProgress == old(inProgress)
      ensures old(aggregates) <= aggregates && old(owners) <= owners
      ensures forall k <- old(cache) :: k in cache && cache[k] == old(cache)[k]
      ensures FieldOk(rsm, owners, rsm.aggregates[i], rsm.aggregates[i].fields[n], f)
      decreases AllKeys(rsm) - inProgress, 1, 0
    {
      hide RecordOk, OnPath, LinkOk, Owned, BaseTarget, FirstByHash, Eligible, Reaches;
      var a := rsm.aggregates[i];
      var fe := a.fields[n];
      f := AggregateField(fe.name, fe.offset, 0, None, None);
      if fe.typeHash != 0 {
        var sub := rsm.FindAggregate(a.anchor, fe.typeHash);
        assert FieldTarget(rsm, a.anchor, a.fields[n]) == sub;
        var link := RegisterLink(i, sub);
        f := f.(nested := link);
      } else {
        NoLink(rsm, owners, a.OwnKey());
        if fe.primitiveMarker != 0 {
          var entry := rsm.UnitTypeEntryForMarker(a.anchor, fe.primitiveMarker);
          if entry.Some? {
            var p := rsm.ResolvePrimitive(entry.value.name);
            if p.Some? {
              f := f.(primKind := Some(p.value.kind), byteSize := p.value.byteSize);
            } else if entry.value.hash4 != 0 {
              var foreign := FindForeign(entry.value);
              assert FieldTarget(rsm, a.anchor, a.fields[n]) == foreign;
              var link := RegisterLink(i, foreign);
              f := f.(nested := link);
            }
          }
        }
      }
    }

    /** Searches the aggregates of the entry's name, first by hash. */
    method FindForeign(entry: UnitTypeEntry) returns (r: Option<nat>)
      requires rsm.Valid()
      ensures r == Foreign(rsm, entry)
    {
      var named := rsm.Named(entry.name);
      var hash := entry.hash4 % 0x1_0000;
      for n := 0 to |named|
        invariant FirstWithHash(rsm, named, hash) == FirstWithHash(rsm, named[n..], hash)
      {
        if rsm.aggregates[named[n]].ownHash == hash {
          return Some(named[n]);
        }
      }
      r := if named != [] then Some(named[0]) else None;
    }

    /** The first enum of the same unit that the name is the plural of. */
    method FindSetBase(i: nat) returns (r: Option<nat>)
      requires i < |rsm.aggregates|
      ensures r.Some? <==> IsSet(rsm, i)
      ensures r.Some? ==> FirstSetBase(rsm, i, r.value)
    {
      var a := rsm.aggregates[i];
      if a.kind != UnknownKind || |a.name| <= 1 || a.name[|a.name| - 1] != 's' {
        return None;
      }
      var enumName := a.name[..|a.name| - 1];
      for j := 0 to |rsm.aggregates|
        invariant forall k | 0 <= k < j :: !IsSetBase(rsm, i, k)
      {
        var b := rsm.aggregates[j];
        if b.anchor == a.anchor && b.kind == EnumKind && b.name == enumName {
          assert IsSetBase(rsm, i, j);
          return Some(j);
        }
      }
      r := None;
    }

    /** The record for the type of a variable, at top level: present for every variable of an eligible type. */
    method LookupAggrIdx(isPrimitive: bool, anchor: u64, typeId: u16) returns (r: Option<nat>)
      requires Valid() && inProgress == {}
      modifies this
      ensures Valid() && inProgress == {}
      ensures old(aggregates) <= aggregates && old(owners) <= owners
      ensures forall k <- old(cache) :: k in cache && cache[k] == old(cache)[k]
      ensures var t := if isPrimitive || typeId == 0 then None else rsm.FindAggregate(anchor, typeId);
              && (r.Some? <==> t.Some? && Eligible(rsm, t.value))
              && (r.Some? ==> r.value < |owners| && owners[r.value].Some? && owners[r.value].value < |rsm.aggregates|
                              && KeyOf(rsm, owners[r.value].value) == KeyOf(rsm, t.value))
    {
      hide RecordOk, Eligible;
      if isPrimitive || typeId == 0 {
        return None;
      }
      var a := None;
      if anchor != 0 {
        a := rsm.FindAggregateInUnit(anchor, typeId);
      }
      if a.None? {
        a := rsm.FindAggregateByHash(typeId);
      }
      r := RegisterAggr(a);
    }

    /** A record another phase adds for a type the RSM file does not describe. */
    method AddPlaceholder(rec: AggregateRecord) returns (idx: nat)
      requires Valid() && IsPlaceholder(rec)
      modifies this
      ensures Valid() && inProgress == old(inProgress) && cache == old(cache)
      ensures idx == |old(aggregates)| && aggregates == old(aggregates) + [rec]
    {
      hide IsPlaceholder;
      idx := |aggregates|;
      StateGrows(rsm, aggregates, owners, cache, rec, None, cache);
      aggregates, owners := aggregates + [rec], owners + [None];
    }

    /** Attaches a procedure, if its name is that of a method, to the first record of a class with its class's name,
        or else to the record of the first class of that name in the RSM file, which is registered if it has none. */
    method AddMethod(qualifiedName: string, params: seq<Param>, returnsVoid: bool)
      requires Valid() && inProgress == {}
      modifies this
      ensures Valid() && inProgress == {} && old(owners) <= owners
      ensures forall k <- old(cache) :: k in cache && cache[k] == old(cache)[k]
      ensures var path := MethodPathOf(qualifiedName);
              if path.None? then aggregates == old(aggregates)
              else
                var m := Method(path.value.name, qualifiedName, params, returnsVoid);
                var known, foreign := FirstClass(old(aggregates), path.value.cls), ForeignClass(rsm, path.value.cls);
                if known.Some? then aggregates == WithMethod(old(aggregates), known.value, m)
                else if foreign.None? then aggregates == old(aggregates)
                else
                  && KeyOf(rsm, foreign.value) in cache
                  && exists all: seq<AggregateRecord> ::
                       && old(aggregates) <= all && cache[KeyOf(rsm, foreign.value)] < |all|
                       && aggregates == WithMethod(all, cache[KeyOf(rsm, foreign.value)], m)
    {
      hide RecordOk, Eligible, KeyOf, Owned, FirstClass, ForeignClass, MethodPathOf, IsClassNamed;
      var path := MethodPathOf(qualifiedName);
      if path.None? {
        return;
      }
      var m := Method(path.value.name, qualifiedName, params, returnsVoid);
      var known := FindClass(path.value.cls);
      if known.Some? {
        Attach(known.value, m);
        return;
      }
      var foreign := FindForeignClass(path.value.cls);
      if foreign.Some? {
        assert Eligible(rsm, foreign.value) by { ClassIsEligible(rsm, foreign.value); }
        var idx := RegisterAggr(foreign);
        assert old(aggregates) <= aggregates;
        CachedIn(rsm, aggregates, owners, cache, KeyOf(rsm, foreign.value));
        Attach(idx.value, m);
      }
    }

    method FindClass(name: string) returns (r: Option<nat>)
      ensures r == FirstClass(aggregates, name)
    {
      for i := 0 to |aggregates|
        invariant forall k | 0 <= k < i :: !IsClassNamed(aggregates[k], name)
      {
        if aggregates[i].kind == ClassType && aggregates[i].name == name {
          return Some(i);
        }
      }
      r := None;
    }

    method FindForeignClass(name: string) returns (r: Option<nat>)
      requires Valid()
      ensures r == ForeignClass(rsm, name)
    {
      hide RecordOk, Owned;
      var named := rsm.Named(name);
      assert named[0..] == named;
      for i := 0 to |named|
        invariant FirstOfKind(rsm, named[i..]) == FirstOfKind(rsm, named)
      {
        if rsm.aggregates[named[i]].kind == ClassKind {
          return Some(named[i]);
        }
        assert named[i..][1..] == named[i + 1..];
      }
      r := None;
    }

    method Attach(idx: nat, m: Method)
      requires Valid() && idx < |aggregates|
      modifies this`aggregates
      ensures Valid() && aggregates == WithMethod(old(aggregates), idx, m)
    {
      hide LinkOk, FieldsOk, IsComposite, Eligible;
      var rec := aggregates[idx];
      aggregates := aggregates[idx := rec.(methods := rec.methods + [m])];
      forall i | 0 <= i < |aggregates| ensures RecordOk(rsm, owners, i, aggregates[i]) {
        assert RecordOk(rsm, owners, i, old(aggregates)[i]);
      }
    }
  }

  // ----- Methods ---------------------------------------------------------------------------------------------

  /** The last two parts of a name `unit.class.method`. */
  datatype MethodPath = MethodPath(cls: string, name: string)

  function LastDot(s: string): (r: Option<nat>)
    ensures r.Some? ==> r.value < |s| && s[r.value] == '.' && '.' !in s[r.value + 1..]
    ensures r.None? ==> '.' !in s
  {
    if s == [] then None
    else if s[|s| - 1] == '.' then Some(|s| - 1)
    else
      assert s == s[..|s| - 1] + [s[|s| - 1]];
      LastDot(s[..|s| - 1])
  }

  function MethodPathOf(q: string): (r: Option<MethodPath>)
    ensures r.Some? ==> '.' !in r.value.cls && '.' !in r.value.name
    ensures r.Some? ==> exists unit: string :: q == unit + "." + r.value.cls + "." + r.value.name
    ensures r.None? <==> forall i, j | 0 <= i < j < |q| :: q[i] != '.' || q[j] != '.'
  {
    var last := LastDot(q);
    if last.None? then None
    else
      var second := LastDot(q[..last.value]);
      if second.None? then None
      else
        assert q == q[..second.value] + "." + q[second.value + 1..last.value] + "." + q[last.value + 1..];
        Some(MethodPath(q[second.value + 1..last.value], q[last.value + 1..]))
  }

  predicate IsClassNamed(rec: AggregateRecord, name: string) {
    rec.kind == ClassType && rec.name == name
  }

  function FirstClass(records: seq<AggregateRecord>, name: string): (r: Option<nat>)
    ensures r.Some? ==> r.value < |records| && IsClassNamed(records[r.value], name)
                        && forall k | 0 <= k < r.value :: !IsClassNamed(records[k], name)
    ensures r.None? ==> forall k | 0 <= k < |records| :: !IsClassNamed(records[k], name)
  {
    if records == [] then None
    else
      var r := FirstClass(records[..|records| - 1], name);
      if r.Some? then r else if IsClassNamed(records[|records| - 1], name) then Some(|records| - 1) else None
  }

  /** The first class among the aggregates of a name. */
  function ForeignClass(rsm: Rsm, name: string): (r: Option<nat>)
    requires rsm.Valid()
    ensures r.Some? ==> r.value < |rsm.aggregates| && rsm.aggregates[r.value].kind == ClassKind
    ensures r.Some? ==> var named := rsm.Named(name);
              exists i | 0 <= i < |named| :: named[i] == r.value
                                             && forall k | 0 <= k < i :: rsm.aggregates[named[k]].kind != ClassKind
    ensures r.None? ==> forall i <- rsm.Named(name) :: rsm.aggregates[i].kind != ClassKind
  {
    FirstOfKind(rsm, rsm.Named(name))
  }

  function FirstOfKind(rsm: Rsm, named: seq<nat>): (r: Option<nat>)
    requires forall i | 0 <= i < |named| :: named[i] < |rsm.aggregates|
    ensures r.Some? ==> exists i | 0 <= i < |named| :: named[i] == r.value && rsm.aggregates[r.value].kind == ClassKind
                                                       && forall k | 0 <= k < i :: rsm.aggregates[named[k]].kind != ClassKind
    ensures r.None? ==> forall i <- named :: rsm.aggregates[i].kind != ClassKind
  {
    if named == [] then None
    else if rsm.aggregates[named[0]].kind == ClassKind then Some(named[0])
    else FirstOfKind(rsm, named[1..])
  }

  lemma CachedIn(rsm: Rsm, records: seq<AggregateRecord>, owners: seq<Option<nat>>, cache: map<Key, nat>, key: Key)
    requires StateOk(rsm, records, owners, cache) && key in cache
    ensures cache[key] < |records|
  {
    hide RecordOk, Eligible;
  }

  lemma ClassIsEligible(rsm: Rsm, i: nat)
    requires i < |rsm.aggregates| && rsm.aggregates[i].kind == ClassKind
    ensures Eligible(rsm, i)
  {
  }

  function WithMethod(records: seq<AggregateRecord>, idx: nat, m: Method): (r: seq<AggregateRecord>)
    requires idx < |records|
  {
    records[idx := records[idx].(methods := records[idx].methods + [m])]
  }

  method CopyEnumerators(entries: seq<EnumEntry>) returns (es: seq<Enumerator>, maxOrd: i64)
    ensures NamesEntries(es, entries)
    ensures forall limit: nat :: HoldsAll(entries, limit) <==> maxOrd <= limit
  {
    es, maxOrd := [], 0;
    for n := 0 to |entries|
      invariant NamesEntries(es, entries[..n]) && 0 <= maxOrd
      invariant maxOrd == 0 || exists k | 0 <= k < n :: entries[k].ordinal == maxOrd
      invariant forall k | 0 <= k < n :: entries[k].ordinal <= maxOrd
    {
      es := es + [Enumerator(entries[n].name, entries[n].ordinal)];
      if entries[n].ordinal > maxOrd {
        maxOrd := entries[n].ordinal;
      }
    }
  }

  lemma NoLink(rsm: Rsm, owners: seq<Option<nat>>, key: Key)
    requires rsm.Valid()
    ensures LinkOk(rsm, owners, key, None, None)
  {
  }

  lemma EnumRecord(rsm: Rsm, owners: seq<Option<nat>>, i: nat, rec: AggregateRecord)
    requires rsm.Valid() && i < |rsm.aggregates| && rsm.aggregates[i].kind == EnumKind
    requires rec.name == rsm.aggregates[i].name && rec.kind == EnumType && rec.fields == []
    requires LinkOk(rsm, owners, KeyOf(rsm, i), rec.base, BaseTarget(rsm, i))
    requires rec.byteSize == EnumWidth(rsm.aggregates[i].entries)
             && NamesEntries(rec.enumerators, rsm.aggregates[i].entries)
    ensures RecordOf(rsm, owners, i, rec)
  {
    hide LinkOk, EnumWidth, NamesEntries, BaseTarget;
  }

  lemma CompositeRecord(rsm: Rsm, owners: seq<Option<nat>>, i: nat, rec: AggregateRecord)
    requires rsm.Valid() && i < |rsm.aggregates| && IsComposite(rsm.aggregates[i])
    requires rec.name == rsm.aggregates[i].name && rec.byteSize == rsm.aggregates[i].totalSize && rec.enumerators == []
    requires rec.kind == (if rsm.aggregates[i].kind == ClassKind then ClassType else RecordType)
    requires rec.propertyNames == rsm.aggregates[i].properties && |rec.fields| == |rsm.aggregates[i].fields|
    requires LinkOk(rsm, owners, KeyOf(rsm, i), rec.base, BaseTarget(rsm, i))
             && FieldsOk(rsm, owners, rsm.aggregates[i], rec.fields)
    ensures RecordOf(rsm, owners, i, rec)
  {
    hide LinkOk, FieldsOk, BaseTarget;
  }

  lemma SetRecord(rsm: Rsm, owners: seq<Option<nat>>, i: nat, j: nat, rec: AggregateRecord)
    requires rsm.Valid() && i < |rsm.aggregates| && rsm.aggregates[i].kind == UnknownKind && FirstSetBase(rsm, i, j)
    requires rec.name == rsm.aggregates[i].name && rec.kind == SetType && rec.fields == []
    requires LinkOk(rsm, owners, KeyOf(rsm, i), rec.base, BaseTarget(rsm, i))
    requires rec.byteSize == SetWidth(rsm.aggregates[j].entries)
             && NamesEntries(rec.enumerators, rsm.aggregates[j].entries)
    ensures RecordOf(rsm, owners, i, rec)
  {
    hide LinkOk, SetWidth, NamesEntries, FirstSetBase, BaseTarget;
  }

  // ----- What the invariant means ------------------------------------------------------------------------

  /** The index that `link` holds is earlier than `i`, so every record refers only to earlier ones. */
  lemma LinksGoBack(rsm: Rsm, records: seq<AggregateRecord>, owners: seq<Option<nat>>, cache: map<Key, nat>, i: nat)
    requires StateOk(rsm, records, owners, cache) && i < |records|
    ensures records[i].base.Some? ==> records[i].base.value < i
    ensures forall f | 0 <= f < |records[i].fields| && records[i].fields[f].nested.Some? ::
              records[i].fields[f].nested.value < i
  {
    hide FieldTypeOf, BaseTarget, Reaches, Eligible, EnumWidth, SetWidth, NamesEntries, FirstSetBase;
    assert RecordOk(rsm, owners, i, records[i]);
    if owners[i].Some? && IsComposite(rsm.aggregates[owners[i].value]) {
      var a := rsm.aggregates[owners[i].value];
      forall f | 0 <= f < |records[i].fields| && records[i].fields[f].nested.Some?
        ensures records[i].fields[f].nested.value < i
      {
        assert FieldOk(rsm, owners[..i], a, a.fields[f], records[i].fields[f]);
      }
    }
  }

  /** No two records are for the same key. */
  lemma KeysPushedOnce(rsm: Rsm, records: seq<AggregateRecord>, owners: seq<Option<nat>>, cache: map<Key, nat>, i: nat,
                       j: nat)
    requires StateOk(rsm, records, owners, cache) && i < |records| && j < |records|
    requires owners[i].Some? && owners[j].Some?
    requires KeyOf(rsm, owners[i].value) == KeyOf(rsm, owners[j].value)
    ensures i == j
  {
    hide RecordOk, Eligible;
  }

  lemma ClosedPath(rsm: Rsm, i: nat, j: nat)
    requires rsm.Valid() && Acyclic(rsm) && i < |rsm.aggregates| && j < |rsm.aggregates|
    requires LinksTo(rsm, i, j) && Eligible(rsm, j)
    ensures !Reaches(rsm, KeyOf(rsm, j), KeyOf(rsm, i))
  {
    hide LinksTo, Eligible, Edge;
    if Reaches(rsm, KeyOf(rsm, j), KeyOf(rsm, i)) {
      var p :| Path(rsm, p) && p[0] == KeyOf(rsm, j) && p[|p| - 1] == KeyOf(rsm, i);
      LinkIsEdge(rsm, i, j);
      PathOn(rsm, p, KeyOf(rsm, j));
    }
  }

  lemma PathOn(rsm: Rsm, p: seq<Key>, l: Key)
    requires rsm.Valid() && Path(rsm, p) && Edge(rsm, p[|p| - 1], l)
    ensures Path(rsm, p + [l])
  {
    hide Edge;
  }

  lemma OwnersIn(rsm: Rsm, owners: seq<Option<nat>>, cache: map<Key, nat>)
    requires Owned(rsm, owners, cache)
    ensures forall i | 0 <= i < |owners| && owners[i].Some? :: owners[i].value < |rsm.aggregates|
  {
    hide Eligible;
  }

  /** The link of record `i` is present and leads to the record of its target. */
  ghost predicate Kept(rsm: Rsm, cache: map<Key, nat>, link: Option<nat>, target: nat)
    requires target < |rsm.aggregates|
  {
    KeyOf(rsm, target) in cache && link == Some(cache[KeyOf(rsm, target)])
  }

  lemma LinkKept(rsm: Rsm, owners: seq<Option<nat>>, cache: map<Key, nat>, i: nat, link: Option<nat>, target: nat)
    requires rsm.Valid() && Owned(rsm, owners, cache)
    requires i < |owners| && owners[i].Some? && target < |rsm.aggregates|
    requires LinkOk(rsm, owners[..i], KeyOf(rsm, owners[i].value), link, Some(target)) && Eligible(rsm, target)
    requires !Reaches(rsm, KeyOf(rsm, target), KeyOf(rsm, owners[i].value))
    ensures Kept(rsm, cache, link, target)
  {
    hide Eligible, Reaches;
  }

  /** A base link to an eligible type is kept as soon as no references lead from the base back to the class,
      whatever cycles there are elsewhere. */
  lemma BaseLinkKept(rsm: Rsm, records: seq<AggregateRecord>, owners: seq<Option<nat>>, cache: map<Key, nat>,
                     i: nat, target: nat)
    requires StateOk(rsm, records, owners, cache) && i < |records| && owners[i].Some?
    requires owners[i].value < |rsm.aggregates| && BaseTarget(rsm, owners[i].value) == Some(target)
    requires Eligible(rsm, target) && !Reaches(rsm, KeyOf(rsm, target), KeyOf(rsm, owners[i].value))
    ensures Kept(rsm, cache, records[i].base, target)
  {
    hide FieldTypeOf, BaseTarget, Reaches, Eligible, LinkOk, Owned, Kept;
    assert RecordOk(rsm, owners, i, records[i]);
    LinkKept(rsm, owners, cache, i, records[i].base, target);
  }

  /** Likewise a field link. */
  lemma FieldLinkKept(rsm: Rsm, records: seq<AggregateRecord>, owners: seq<Option<nat>>, cache: map<Key, nat>,
                      i: nat, f: nat, target: nat)
    requires StateOk(rsm, records, owners, cache) && i < |records| && owners[i].Some?
    requires owners[i].value < |rsm.aggregates| && IsComposite(rsm.aggregates[owners[i].value])
    requires var a := rsm.aggregates[owners[i].value];
             f < |a.fields| && FieldTarget(rsm, a.anchor, a.fields[f]) == Some(target)
    requires Eligible(rsm, target) && !Reaches(rsm, KeyOf(rsm, target), KeyOf(rsm, owners[i].value))
    ensures f < |records[i].fields| && Kept(rsm, cache, records[i].fields[f].nested, target)
  {
    hide FieldTypeOf, BaseTarget, Reaches, Eligible, LinkOk, Owned, Kept;
    var a := rsm.aggregates[owners[i].value];
    assert RecordOk(rsm, owners, i, records[i]);
    assert FieldOk(rsm, owners[..i], a, a.fields[f], records[i].fields[f]);
    LinkKept(rsm, owners, cache, i, records[i].fields[f].nested, target);
  }

  /** When no chain of references leads back to where it started, no link to an eligible type is lost. */
  lemma AcyclicKeepsLinks(rsm: Rsm, records: seq<AggregateRecord>, owners: seq<Option<nat>>, cache: map<Key, nat>,
                          i: nat)
    requires StateOk(rsm, records, owners, cache) && Acyclic(rsm) && i < |records| && owners[i].Some?
    ensures var o := owners[i].value; var t := BaseTarget(rsm, o);
            t.Some? && Eligible(rsm, t.value) ==> Kept(rsm, cache, records[i].base, t.value)
    ensures var a := rsm.aggregates[owners[i].value];
            IsComposite(a) ==> |records[i].fields| == |a.fields| && forall f | 0 <= f < |a.fields| ::
              var t := FieldTarget(rsm, a.anchor, a.fields[f]);
              t.Some? && Eligible(rsm, t.value) ==> Kept(rsm, cache, records[i].fields[f].nested, t.value)
  {
    hide FieldTypeOf, BaseTarget, Reaches, Eligible, Acyclic, LinkOk, Owned, Kept;
    OwnersIn(rsm, owners, cache);
    assert RecordOk(rsm, owners, i, records[i]);
    var o := owners[i].value;
    var a := rsm.aggregates[o];
    if BaseTarget(rsm, o).Some? && Eligible(rsm, BaseTarget(rsm, o).value) {
      BaseIsLink(rsm, o);
      ClosedPath(rsm, o, BaseTarget(rsm, o).value);
      BaseLinkKept(rsm, records, owners, cache, i, BaseTarget(rsm, o).value);
    }
    if IsComposite(a) {
      forall f | 0 <= f < |a.fields| && FieldTarget(rsm, a.anchor, a.fields[f]).Some?
                 && Eligible(rsm, FieldTarget(rsm, a.anchor, a.fields[f]).value)
        ensures Kept(rsm, cache, records[i].fields[f].nested, FieldTarget(rsm, a.anchor, a.fields[f]).value)
      {
        ClosedPath(rsm, o, FieldTarget(rsm, a.anchor, a.fields[f]).value);
        FieldLinkKept(rsm, records, owners, cache, i, f, FieldTarget(rsm, a.anchor, a.fields[f]).value);
      }
    }
  }

  lemma BaseIsLink(rsm: Rsm, i: nat)
    requires rsm.Valid() && i < |rsm.aggregates| && BaseTarget(rsm, i).Some?
    ensures LinksTo(rsm, i, BaseTarget(rsm, i).value)
  {
  }

  lemma FieldIsLink(rsm: Rsm, i: nat, f: nat)
    requires rsm.Valid() && i < |rsm.aggregates| && IsComposite(rsm.aggregates[i]) && f < |rsm.aggregates[i].fields|
    requires var a := rsm.aggregates[i]; FieldTarget(rsm, a.anchor, a.fields[f]).Some?
    ensures var a := rsm.aggregates[i]; LinksTo(rsm, i, FieldTarget(rsm, a.anchor, a.fields[f]).value)
  {
    hide FieldTarget, BaseTarget;
  }

  // ----- Cycles ----------------------------------------------------------------------------------------------

  /** Record `i` holds some link to record `j`. */
  predicate RefersTo(records: seq<AggregateRecord>, i: nat, j: nat)
    requires i < |records|
  {
    records[i].base == Some(j) || exists f | 0 <= f < |records[i].fields| :: records[i].fields[f].nested == Some(j)
  }

  /** Following links through the records never leads back: on a cycle of types, a link was dropped. */
  lemma {:induction false} NoReferenceCycle(rsm: Rsm, records: seq<AggregateRecord>, owners: seq<Option<nat>>,
                                            cache: map<Key, nat>,
                                            p: seq<nat>)
    requires StateOk(rsm, records, owners, cache) && |p| > 1 && forall k | 0 <= k < |p| :: p[k] < |records|
    requires forall k | 0 < k < |p| :: RefersTo(records, p[k - 1], p[k])
    ensures p[|p| - 1] < p[0]
  {
    hide StateOk;
    assert RefersTo(records, p[0], p[1]);
    LinksGoBack(rsm, records, owners, cache, p[0]);
    if |p| > 2 {
      NoReferenceCycle(rsm, records, owners, cache, p[1..]);
    }
  }
}
