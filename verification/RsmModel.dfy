/** What the RSM reader hands to its clients: aggregate types, the hash indexes over them, and the
    per-unit type tables. Pointers into the aggregate list are indices. */
module RsmModel {
  import opened Bytes
  import opened Model

  /** A unit's anchor offset and a hash local to that unit. */
  datatype Key = Key(anchor: u64, hash: u16)

  datatype RsmKind = UnknownKind | RecordKind | PackedRecordKind | ClassKind | EnumKind | SetKind

  datatype FieldEntry = FieldEntry(name: string, offset: u32, primitiveMarker: u8, typeHash: u16)

  datatype EnumEntry = EnumEntry(name: string, ordinal: i64)

  datatype AggregateType = AggregateType(
    name: string, ownHash: u16, kind: RsmKind, fields: seq<FieldEntry>, entries: seq<EnumEntry>,
    properties: seq<string>, baseHash: u16, linkedHash: u16, totalSize: u32, anchor: u64)
  {
    function OwnKey(): Key { Key(anchor, ownHash) }
  }

  datatype UnitTypeEntry = UnitTypeEntry(name: string, hash4: u32)

  datatype Primitive = Primitive(kind: PrimitiveKind, byteSize: u16)

  /** `byName` lists the aggregates of one name in the order the multimap happens to give. */
  datatype Rsm = Rsm(
    aggregates: seq<AggregateType>, byHash: map<u16, nat>, byUnitHash: map<Key, nat>,
    tables: map<u64, seq<UnitTypeEntry>>, byName: map<string, seq<nat>>, primitives: map<string, Primitive>)
  {
    ghost predicate Valid() {
      && (forall h <- byHash :: byHash[h] < |aggregates|)
      && (forall k <- byUnitHash :: byUnitHash[k] < |aggregates|)
      && (forall n <- byName :: forall i | 0 <= i < |byName[n]| :: byName[n][i] < |aggregates|)
    }

    function FindAggregateByHash(hash: u16): Option<nat> {
      if hash in byHash then Some(byHash[hash]) else None
    }

    function FindAggregateInUnit(anchor: u64, hash: u16): Option<nat> {
      if anchor != 0 && Key(anchor, hash) in byUnitHash then Some(byUnitHash[Key(anchor, hash)]) else None
    }

    /** Same unit first, then any unit. */
    function FindAggregate(anchor: u64, hash: u16): (r: Option<nat>)
      ensures Valid() && r.Some? ==> r.value < |aggregates|
    {
      var local := FindAggregateInUnit(anchor, hash);
      if local.Some? then local else FindAggregateByHash(hash)
    }

    /** Markers are the even numbers from 2, in table order. */
    function UnitTypeEntryForMarker(anchor: u64, marker: u8): Option<UnitTypeEntry> {
      if anchor == 0 || marker == 0 || marker % 2 == 1 || anchor !in tables then None
      else if marker / 2 > |tables[anchor]| then None
      else Some(tables[anchor][marker / 2 - 1])
    }

    function ResolvePrimitive(name: string): Option<Primitive> {
      if name in primitives then Some(primitives[name]) else None
    }

    function Named(name: string): (r: seq<nat>)
      ensures Valid() ==> forall i | 0 <= i < |r| :: r[i] < |aggregates|
    {
      if name in byName then byName[name] else []
    }
  }
}
