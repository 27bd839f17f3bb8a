/** The aggregate records the PDB writer consumes. Links between records are indices into their list. */
module PdbModel {
  import opened Bytes
  import opened Model

  datatype AggregateKind = RecordType | ClassType | EnumType | SetType

  datatype AggregateField = AggregateField(
    name: string, byteOffset: u32, byteSize: u32, primKind: Option<PrimitiveKind>, nested: Option<nat>)

  datatype Enumerator = Enumerator(name: string, value: i64)

  datatype Param = Param(primKind: Option<PrimitiveKind>, byteSize: u32, aggregateIndex: Option<nat>)

  datatype Method = Method(name: string, qualifiedName: string, params: seq<Param>, returnsVoid: bool)

  datatype AggregateRecord = AggregateRecord(
    kind: AggregateKind, name: string, byteSize: u32, fields: seq<AggregateField>, enumerators: seq<Enumerator>,
    methods: seq<Method>, propertyNames: seq<string>, base: Option<nat>)
}
