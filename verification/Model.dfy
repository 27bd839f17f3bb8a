/** The debugger-agnostic program model that the adapters fill and the emitters consume. */
module Model {
  import opened Bytes

  datatype PrimitiveKind =
    | Bool | Char | WChar
    | Int8 | Int16 | Int32 | Int64
    | UInt8 | UInt16 | UInt32 | UInt64
    | Float32 | Float64 | Float80
    | PChar | PWChar

  /** Index into the module's type list, plus one. */
  type TypeId = u32
  const NO_TYPE: TypeId := 0

  datatype Type =
    | Primitive(kind: PrimitiveKind)
    | Pointer(pointee: TypeId)
    | Array(element: TypeId, length: u64)
    | Record(recordName: bytes, recordSize: u64)
    | Enum(enumName: bytes, underlying: TypeId)

  datatype LineEntry = LineEntry(address: u64, fileId: u32, line: u32)

  datatype SymbolKind = Unknown | Function | Variable

  datatype LocalVar = LocalVar(name: bytes, ty: TypeId, stackOffset: i32)

  datatype Symbol = Symbol(name: bytes, address: u64, size: u64, ty: TypeId, kind: SymbolKind,
                           params: seq<LocalVar>, locals: seq<LocalVar>)

  datatype CompileUnit = CompileUnit(sourcePath: bytes, symbols: seq<Symbol>, lines: seq<LineEntry>)

  datatype Module = Module(units: seq<CompileUnit>, sourceFiles: seq<bytes>, types: seq<Type>) {
    /** What `getType` asserts of its argument. */
    predicate HasType(id: TypeId) {
      id != NO_TYPE && id <= |types|
    }

    function GetType(id: TypeId): Type
      requires HasType(id)
    {
      types[id - 1]
    }
  }

  // ----- Paths ------------------------------------------------------------------

  const SLASH: u8 := 0x2F
  const BACKSLASH: u8 := 0x5C

  predicate IsSeparator(c: u8) { c == SLASH || c == BACKSLASH }

  datatype PathSplit = PathSplit(dir: bytes, file: bytes)

  /** Splits at the last separator of either kind. */
  function SplitPath(path: bytes): (r: PathSplit)
    ensures forall c <- r.file :: !IsSeparator(c)
    ensures || (path == r.file && r.dir == [])
            || exists sep: u8 :: IsSeparator(sep) && path == r.dir + [sep] + r.file
    ensures NoNul(path) ==> NoNul(r.dir) && NoNul(r.file)
  {
    if path == [] then PathSplit([], [])
    else
      var last := |path| - 1;
      if IsSeparator(path[last]) then
        assert path == path[..last] + [path[last]] + [];
        PathSplit(path[..last], [])
      else
        var r := SplitPath(path[..last]);
        assert path == path[..last] + [path[last]];
        assert forall sep: u8 :: path[..last] == r.dir + [sep] + r.file ==>
          path == r.dir + [sep] + (r.file + [path[last]]);
        PathSplit(r.dir, r.file + [path[last]])
  }
}
