/** The map-file adapter: publics and line tables regrouped into one compile unit per module. */
module MapAdapter {
  import opened Bytes
  import opened Grouping
  import opened Model

  datatype Segment = Segment(id: u16, startVa: u64, klass: bytes)

  datatype Public = Public(segmentId: u16, offset: u64, name: bytes)

  datatype LineRecord = LineRecord(line: u32, segmentId: u16, offset: u64)

  datatype LineTable = LineTable(moduleName: bytes, sourcePath: bytes, lines: seq<LineRecord>)

  datatype MapFile = MapFile(segments: seq<Segment>, publics: seq<Public>, lineTables: seq<LineTable>)

  const DOT: u8 := 0x2E
  // "CODE", "$pdata$" and "$unwind$".
  const CODE: bytes := [0x43, 0x4F, 0x44, 0x45]
  const PDATA: bytes := [0x24, 0x70, 0x64, 0x61, 0x74, 0x61, 0x24]
  const UNWIND: bytes := [0x24, 0x75, 0x6E, 0x77, 0x69, 0x6E, 0x64, 0x24]

  // ----- Addresses -------------------------------------------------------------------------------

  /** The first segment with the number. */
  function FindSegment(segments: seq<Segment>, id: u16): Option<Segment> {
    if segments == [] then None
    else if segments[0].id == id then Some(segments[0])
    else FindSegment(segments[1..], id)
  }

  function ResolveVA(mf: MapFile, id: u16, offset: u64): u64 {
    match FindSegment(mf.segments, id)
    case Some(s) => var va: int := s.startVa; (va + offset) % 0x1_0000_0000_0000_0000
    case None => 0
  }

  // ----- Which module a public belongs to -----------------------------------------------------------

  ghost predicate IsModule(mf: MapFile, name: bytes) {
    exists i | 0 <= i < |mf.lineTables| :: mf.lineTables[i].moduleName == name
  }

  /** Some module's name and a dot start the name. */
  ghost predicate HasPrefix(mf: MapFile, name: bytes, len: nat) {
    len < |name| && name[len] == DOT && IsModule(mf, name[..len])
  }

  /** The module whose name is the longest such prefix. */
  ghost predicate IsOwner(mf: MapFile, name: bytes, owner: Option<bytes>) {
    match owner
    case Some(m) => HasPrefix(mf, name, |m|) && name[..|m|] == m && forall len | |m| < len < |name| :: !HasPrefix(mf, name, len)
    case None => forall len | 0 <= len < |name| :: !HasPrefix(mf, name, len)
  }

  /** The longest prefix shorter than `end`, searched from the right. */
  ghost function Owner(mf: MapFile, name: bytes, end: nat): (owner: Option<bytes>)
    requires end <= |name|
    ensures owner.Some? ==> |owner.value| < end && HasPrefix(mf, name, |owner.value|) && name[..|owner.value|] == owner.value
    ensures owner.Some? ==> forall len | |owner.value| < len < end :: !HasPrefix(mf, name, len)
    ensures owner.None? ==> forall len | 0 <= len < end :: !HasPrefix(mf, name, len)
  {
    if end == 0 then None
    else if HasPrefix(mf, name, end - 1) then Some(name[..end - 1])
    else Owner(mf, name, end - 1)
  }

  /** There is at most one owner. */
  lemma OwnerUnique(mf: MapFile, name: bytes, a: Option<bytes>, b: Option<bytes>)
    requires IsOwner(mf, name, a) && IsOwner(mf, name, b)
    ensures a == b
  {
    if a.Some? && b.Some? {
      assert |a.value| == |b.value|;
    }
  }

  // ----- Units -----------------------------------------------------------------------------------------

  /** A line without its file. */
  datatype Placed = Placed(address: u64, line: u32)

  function PlacedLines(mf: MapFile, lines: seq<LineRecord>): (r: seq<Placed>)
    ensures |r| == |lines|
  {
    seq(|lines|, i requires 0 <= i < |lines| => Placed(ResolveVA(mf, lines[i].segmentId, lines[i].offset), lines[i].line))
  }

  /** The lines of the first `n` tables, keyed by module. */
  function LineItems(mf: MapFile, n: nat): (r: seq<Keyed<Placed>>)
    requires n <= |mf.lineTables|
    ensures |r| == n && forall i | 0 <= i < n :: r[i].key == Some(mf.lineTables[i].moduleName)
  {
    if n == 0 then []
    else LineItems(mf, n - 1) + [Keyed(Some(mf.lineTables[n - 1].moduleName), PlacedLines(mf, mf.lineTables[n - 1].lines))]
  }

  predicate StartsWith(s: bytes, p: bytes) {
    |p| <= |s| && s[..|p|] == p
  }

  /** Unwind data, anonymous symbols and bare module names are not symbols of the program. */
  predicate IsSymbolName(local: bytes) {
    local != [] && !StartsWith(local, PDATA) && !StartsWith(local, UNWIND) && local[0] != DOT
  }

  function KindOf(mf: MapFile, id: u16): SymbolKind {
    match FindSegment(mf.segments, id)
    case Some(s) => if s.klass == CODE then Function else Variable
    case None => Unknown
  }

  /** The symbol for a public of a module, if it gets one. Functions keep their qualified name. */
  function SymbolsFor(mf: MapFile, p: Public, owner: bytes): seq<Symbol>
    requires |owner| < |p.name|
  {
    var local := p.name[|owner| + 1..];
    if !IsSymbolName(local) then []
    else
      var kind := KindOf(mf, p.segmentId);
      [Symbol(if kind == Variable then local else p.name, ResolveVA(mf, p.segmentId, p.offset), 0, NO_TYPE, kind, [], [])]
  }

  ghost function OwnerOf(mf: MapFile, i: nat): (owner: Option<bytes>)
    requires i < |mf.publics|
    ensures IsOwner(mf, mf.publics[i].name, owner)
    ensures owner.Some? ==> |owner.value| < |mf.publics[i].name|
  {
    Owner(mf, mf.publics[i].name, |mf.publics[i].name|)
  }

  /** The symbols of the first `n` publics, keyed by the module each belongs to. */
  ghost function SymbolItems(mf: MapFile, n: nat): (r: seq<Keyed<Symbol>>)
    requires n <= |mf.publics|
    ensures |r| == n && forall i | 0 <= i < n :: r[i].key == OwnerOf(mf, i)
  {
    if n == 0 then []
    else
      var owner := OwnerOf(mf, n - 1);
      SymbolItems(mf, n - 1) + [Keyed(owner, if owner.Some? then SymbolsFor(mf, mf.publics[n - 1], owner.value) else [])]
  }

  /** The modules of the first `n` tables, in the order they first appear. */
  function ModuleOrder(mf: MapFile, n: nat): (order: seq<bytes>)
    requires n <= |mf.lineTables|
    ensures Distinct(order)
    ensures forall i | 0 <= i < n :: mf.lineTables[i].moduleName in order
    ensures forall m <- order :: exists i | 0 <= i < n :: mf.lineTables[i].moduleName == m
  {
    if n == 0 then []
    else
      var rest, m := ModuleOrder(mf, n - 1), mf.lineTables[n - 1].moduleName;
      if m in rest then rest else rest + [m]
  }

  /** The place of a module's first table. */
  predicate FirstTable(mf: MapFile, m: bytes, i: nat) {
    i < |mf.lineTables| && mf.lineTables[i].moduleName == m && forall k | 0 <= k < i :: mf.lineTables[k].moduleName != m
  }

  lemma OrderStep(mf: MapFile, n: nat)
    requires 0 < n <= |mf.lineTables|
    ensures var rest, m := ModuleOrder(mf, n - 1), mf.lineTables[n - 1].moduleName;
            ModuleOrder(mf, n) == if m in rest then rest else rest + [m]
  {
  }

  /** The order of modules is that of their first tables. */
  lemma {:induction false} OrderOfFirstTables(mf: MapFile, n: nat, a: nat, b: nat, i: nat, j: nat)
    requires n <= |mf.lineTables| && a < b < |ModuleOrder(mf, n)|
    requires FirstTable(mf, ModuleOrder(mf, n)[a], i) && FirstTable(mf, ModuleOrder(mf, n)[b], j)
    ensures i < j
    decreases n
  {
    hide ModuleOrder;
    if n > 0 {
      OrderStep(mf, n);
      var rest := ModuleOrder(mf, n - 1);
      if b < |rest| {
        OrderOfFirstTables(mf, n - 1, a, b, i, j);
      } else {
        FirstBefore(mf, n - 1, rest[a], i);
        assert rest[..] == ModuleOrder(mf, n)[..|rest|];
        NotBefore(mf, n - 1, ModuleOrder(mf, n)[b], j);
      }
    } else {
      hide FirstTable;
      NoModules(mf);
    }
  }

  lemma NoModules(mf: MapFile)
    ensures ModuleOrder(mf, 0) == []
  {
  }

  lemma NotBefore(mf: MapFile, n: nat, m: bytes, j: nat)
    requires n <= |mf.lineTables| && m !in ModuleOrder(mf, n) && FirstTable(mf, m, j)
    ensures n <= j
  {
    hide ModuleOrder;
  }

  lemma FirstBefore(mf: MapFile, n: nat, m: bytes, i: nat)
    requires n <= |mf.lineTables| && m in ModuleOrder(mf, n) && FirstTable(mf, m, i)
    ensures i < n
  {
  }

  /** A unit is its module's: the path of the first table, every line of every table under that path's
      file, and every symbol of every public the module owns. */
  ghost predicate UnitOk(mf: MapFile, m: bytes, u: CompileUnit, sources: seq<bytes>) {
    && (exists i | 0 <= i < |mf.lineTables| :: FirstTable(mf, m, i) && u.sourcePath == mf.lineTables[i].sourcePath)
    && u.symbols == GroupOf(SymbolItems(mf, |mf.publics|), m)
    && (exists file: u32 :: file < |sources| && sources[file] == u.sourcePath
                            && u.lines == WithFile(GroupOf(LineItems(mf, |mf.lineTables|), m), file))
  }

  function WithFile(ps: seq<Placed>, file: u32): (r: seq<LineEntry>)
    ensures |r| == |ps|
  {
    seq(|ps|, i requires 0 <= i < |ps| => LineEntry(ps[i].address, file, ps[i].line))
  }

  // ----- The adapter -------------------------------------------------------------------------------------

  method ModuleNames(mf: MapFile) returns (names: set<bytes>)
    ensures forall m :: m in names <==> IsModule(mf, m)
  {
    names := {};
    for i := 0 to |mf.lineTables|
      invariant forall m :: m in names <==> exists k | 0 <= k < i :: mf.lineTables[k].moduleName == m
    {
      names := names + {mf.lineTables[i].moduleName};
    }
  }

  /** Walks the dots from the right, so that the longest prefix is tried first. */
  method FindOwner(mf: MapFile, names: set<bytes>, name: bytes) returns (owner: Option<bytes>)
    requires forall m :: m in names <==> IsModule(mf, m)
    ensures owner == Owner(mf, name, |name|)
  {
    hide IsModule;
    var pos: nat := |name|;
    while pos > 0
      invariant pos <= |name| && Owner(mf, name, |name|) == Owner(mf, name, pos)
    {
      pos := pos - 1;
      if name[pos] == DOT && name[..pos] in names {
        return Some(name[..pos]);
      }
    }
    owner := None;
  }

  ghost predicate OwnedBy(mf: MapFile, idxs: seq<nat>, m: bytes) {
    forall i | 0 <= i < |idxs| :: idxs[i] < |mf.publics| && OwnerOf(mf, idxs[i]) == Some(m) && |m| < |mf.publics[idxs[i]].name|
  }

  predicate TablesIn(mf: MapFile, idxs: seq<nat>) {
    forall i | 0 <= i < |idxs| :: idxs[i] < |mf.lineTables|
  }

  /** Indices of the first `n` publics that module `m` owns. */
  ghost function Bucket(mf: MapFile, n: nat, m: bytes): (r: seq<nat>)
    requires n <= |mf.publics|
    ensures OwnedBy(mf, r, m)
  {
    if n == 0 then []
    else Bucket(mf, n - 1, m) + if OwnerOf(mf, n - 1) == Some(m) then [n - 1] else []
  }

  ghost function TablesOf(mf: MapFile, n: nat, m: bytes): (r: seq<nat>)
    requires n <= |mf.lineTables|
    ensures TablesIn(mf, r)
  {
    if n == 0 then []
    else TablesOf(mf, n - 1, m) + if mf.lineTables[n - 1].moduleName == m then [n - 1] else []
  }

  /** The list a map has for a key, where a missing one is empty. */
  function Lookup(m: map<bytes, seq<nat>>, key: bytes): seq<nat> {
    if key in m then m[key] else []
  }

  lemma BucketStep(mf: MapFile, n: nat, m: bytes)
    requires n < |mf.publics|
    ensures Bucket(mf, n + 1, m) == Bucket(mf, n, m) + if OwnerOf(mf, n) == Some(m) then [n] else []
  {
    hide OwnerOf;
  }

  lemma NoBucket(mf: MapFile, m: bytes)
    ensures Bucket(mf, 0, m) == []
  {
  }

  method BucketPublics(mf: MapFile, names: set<bytes>) returns (buckets: map<bytes, seq<nat>>)
    requires forall m :: m in names <==> IsModule(mf, m)
    ensures forall m :: Lookup(buckets, m) == Bucket(mf, |mf.publics|, m)
  {
    hide IsModule, Owner, Bucket, IsOwner;
    buckets := map[];
    forall m ensures Lookup(buckets, m) == Bucket(mf, 0, m) {
      NoBucket(mf, m);
    }
    for i := 0 to |mf.publics|
      invariant forall m :: Lookup(buckets, m) == Bucket(mf, i, m)
    {
      var owner := FindOwner(mf, names, mf.publics[i].name);
      ghost var before := buckets;
      if owner.Some? {
        buckets := buckets[owner.value := Lookup(buckets, owner.value) + [i]];
      }
      forall m ensures Lookup(buckets, m) == Bucket(mf, i + 1, m) {
        BucketStep(mf, i, m);
        assert Lookup(before, m) == Bucket(mf, i, m);
      }
    }
  }

  lemma TablesStep(mf: MapFile, n: nat, m: bytes)
    requires n < |mf.lineTables|
    ensures TablesOf(mf, n + 1, m) == TablesOf(mf, n, m) + if mf.lineTables[n].moduleName == m then [n] else []
  {
  }

  lemma NoTables(mf: MapFile, m: bytes)
    ensures TablesOf(mf, 0, m) == []
  {
  }

  method GroupTables(mf: MapFile) returns (groups: map<bytes, seq<nat>>, order: seq<bytes>)
    ensures order == ModuleOrder(mf, |mf.lineTables|)
    ensures forall m :: Lookup(groups, m) == TablesOf(mf, |mf.lineTables|, m)
  {
    hide TablesOf, ModuleOrder;
    groups, order := map[], [];
    NoModules(mf);
    forall m ensures Lookup(groups, m) == TablesOf(mf, 0, m) {
      NoTables(mf, m);
    }
    for i := 0 to |mf.lineTables|
      invariant order == ModuleOrder(mf, i)
      invariant forall m :: m in groups <==> m in order
      invariant forall m :: Lookup(groups, m) == TablesOf(mf, i, m)
    {
      var m := mf.lineTables[i].moduleName;
      OrderStep(mf, i + 1);
      if m !in groups {
        order := order + [m];
      }
      ghost var before := groups;
      groups := groups[m := Lookup(groups, m) + [i]];
      GroupsStep(mf, i, before, groups);
    }
  }

  lemma GroupsStep(mf: MapFile, i: nat, before: map<bytes, seq<nat>>, after: map<bytes, seq<nat>>)
    requires i < |mf.lineTables| && forall m :: Lookup(before, m) == TablesOf(mf, i, m)
    requires var m := mf.lineTables[i].moduleName; after == before[m := Lookup(before, m) + [i]]
    ensures forall m :: Lookup(after, m) == TablesOf(mf, i + 1, m)
  {
    hide TablesOf;
    forall m ensures Lookup(after, m) == TablesOf(mf, i + 1, m) {
      TablesStep(mf, i, m);
      assert Lookup(before, m) == TablesOf(mf, i, m);
    }
  }

  // ----- Building one unit ---------------------------------------------------------------------------------

  function LinesAt(mf: MapFile, idxs: seq<nat>): seq<Placed>
    requires TablesIn(mf, idxs)
  {
    if idxs == [] then []
    else LinesAt(mf, idxs[..|idxs| - 1]) + PlacedLines(mf, mf.lineTables[idxs[|idxs| - 1]].lines)
  }

  lemma LinesAtAdd(mf: MapFile, idxs: seq<nat>, i: nat)
    requires TablesIn(mf, idxs) && i < |mf.lineTables|
    ensures LinesAt(mf, idxs + [i]) == LinesAt(mf, idxs) + PlacedLines(mf, mf.lineTables[i].lines)
  {
    hide PlacedLines;
    assert (idxs + [i])[..|idxs|] == idxs;
  }

  lemma LineItemsStep(mf: MapFile, n: nat)
    requires n <= |mf.lineTables|
    ensures n == 0 ==> LineItems(mf, n) == []
    ensures n > 0 ==>
              var t := mf.lineTables[n - 1];
              LineItems(mf, n) == LineItems(mf, n - 1) + [Keyed(Some(t.moduleName), PlacedLines(mf, t.lines))]
    ensures forall m :: GroupOf<Placed>([], m) == []
  {
    hide PlacedLines;
  }

  lemma {:induction false} TablesHoldLines(mf: MapFile, n: nat, m: bytes)
    requires n <= |mf.lineTables|
    ensures LinesAt(mf, TablesOf(mf, n, m)) == GroupOf(LineItems(mf, n), m)
  {
    hide PlacedLines, GroupOf, LineItems;
    LineItemsStep(mf, n);
    if n > 0 {
      TablesHoldLines(mf, n - 1, m);
      var k := Keyed(Some(mf.lineTables[n - 1].moduleName), PlacedLines(mf, mf.lineTables[n - 1].lines));
      GroupAdd(LineItems(mf, n - 1), k, m);
      if mf.lineTables[n - 1].moduleName == m {
        LinesAtAdd(mf, TablesOf(mf, n - 1, m), n - 1);
      } else {
        assert TablesOf(mf, n, m) == TablesOf(mf, n - 1, m);
      }
    }
  }

  ghost function SymbolsAt(mf: MapFile, idxs: seq<nat>, m: bytes): seq<Symbol>
    requires OwnedBy(mf, idxs, m)
  {
    if idxs == [] then []
    else SymbolsAt(mf, idxs[..|idxs| - 1], m) + SymbolsFor(mf, mf.publics[idxs[|idxs| - 1]], m)
  }

  lemma SymbolsAtAdd(mf: MapFile, idxs: seq<nat>, i: nat, m: bytes)
    requires OwnedBy(mf, idxs, m) && i < |mf.publics| && OwnerOf(mf, i) == Some(m)
    ensures OwnedBy(mf, idxs + [i], m) && |m| < |mf.publics[i].name|
    ensures SymbolsAt(mf, idxs + [i], m) == SymbolsAt(mf, idxs, m) + SymbolsFor(mf, mf.publics[i], m)
  {
    hide SymbolsFor, Owner, HasPrefix;
    assert |m| < |mf.publics[i].name|;
    assert (idxs + [i])[..|idxs|] == idxs;
  }

  lemma SymbolItemsStep(mf: MapFile, n: nat)
    requires n <= |mf.publics|
    ensures n == 0 ==> SymbolItems(mf, n) == []
    ensures n > 0 ==>
              var owner := OwnerOf(mf, n - 1);
              SymbolItems(mf, n) == SymbolItems(mf, n - 1)
                                    + [Keyed(owner, if owner.Some? then SymbolsFor(mf, mf.publics[n - 1], owner.value) else [])]
    ensures forall m :: GroupOf<Symbol>([], m) == []
  {
    hide SymbolsFor, OwnerOf;
  }

  lemma {:induction false} BucketHoldsSymbols(mf: MapFile, n: nat, m: bytes)
    requires n <= |mf.publics|
    ensures SymbolsAt(mf, Bucket(mf, n, m), m) == GroupOf(SymbolItems(mf, n), m)
  {
    hide SymbolsFor, OwnerOf, GroupOf, SymbolItems, IsOwner, Owner, HasPrefix, Bucket, SymbolsAt;
    SymbolItemsStep(mf, n);
    if n == 0 {
      NoBucket(mf, m);
      NoSymbolsAt(mf, m);
    } else {
      BucketHoldsSymbols(mf, n - 1, m);
      BucketStep(mf, n - 1, m);
      var owner := OwnerOf(mf, n - 1);
      var k := Keyed(owner, if owner.Some? then SymbolsFor(mf, mf.publics[n - 1], owner.value) else []);
      GroupAdd(SymbolItems(mf, n - 1), k, m);
      if owner == Some(m) {
        SymbolsAtAdd(mf, Bucket(mf, n - 1, m), n - 1, m);
      } else {
        assert Bucket(mf, n, m) == Bucket(mf, n - 1, m);
      }
    }
  }

  lemma NoSymbolsAt(mf: MapFile, m: bytes)
    ensures SymbolsAt(mf, [], m) == []
  {
  }

  method CollectLines(mf: MapFile, idxs: seq<nat>, file: u32) returns (lines: seq<LineEntry>)
    requires TablesIn(mf, idxs)
    ensures lines == WithFile(LinesAt(mf, idxs), file)
  {
    lines := [];
    for i := 0 to |idxs|
      invariant lines == WithFile(LinesAt(mf, idxs[..i]), file)
    {
      var table := mf.lineTables[idxs[i]].lines;
      ghost var placed := PlacedLines(mf, table);
      ghost var before := lines;
      for j := 0 to |table|
        invariant lines == before + WithFile(placed[..j], file)
      {
        lines := lines + [LineEntry(ResolveVA(mf, table[j].segmentId, table[j].offset), file, table[j].line)];
      }
      assert placed[..|table|] == placed;
      assert idxs[..i + 1][..i] == idxs[..i];
    }
    assert idxs[..|idxs|] == idxs;
  }

  method CollectSymbols(mf: MapFile, idxs: seq<nat>, m: bytes) returns (symbols: seq<Symbol>)
    requires OwnedBy(mf, idxs, m)
    ensures symbols == SymbolsAt(mf, idxs, m)
  {
    hide SymbolsFor, OwnerOf;
    symbols := [];
    var prefix := m + [DOT];
    for i := 0 to |idxs|
      invariant symbols == SymbolsAt(mf, idxs[..i], m)
    {
      var p := mf.publics[idxs[i]];
      // The code tests this again, and skips the public if it fails: it cannot.
      assert StartsWith(p.name, prefix) by { OwnerStarts(mf, idxs[i], m); }
      symbols := symbols + SymbolsFor(mf, p, m);
      assert idxs[..i + 1][..i] == idxs[..i];
    }
    assert idxs[..|idxs|] == idxs;
  }

  /** The bucket a public is in is that of a literal prefix of its name. */
  lemma OwnerStarts(mf: MapFile, i: nat, m: bytes)
    requires i < |mf.publics| && OwnerOf(mf, i) == Some(m)
    ensures StartsWith(mf.publics[i].name, m + [DOT])
  {
    hide Owner, IsModule;
    var name := mf.publics[i].name;
    assert name[..|m| + 1] == name[..|m|] + [name[|m|]];
  }

  /** The index of a path in the list of sources, to which it is added when it is new. */
  method SourceFileId(sources: seq<bytes>, path: bytes) returns (all: seq<bytes>, id: nat)
    ensures id < |all| && all[id] == path && sources <= all && |all| <= |sources| + 1
    ensures all != sources ==> path !in sources && all == sources + [path]
  {
    for i := 0 to |sources|
      invariant path !in sources[..i]
    {
      if sources[i] == path {
        return sources, i;
      }
    }
    return sources + [path], |sources|;
  }

  predicate IsPathOf(units: seq<CompileUnit>, path: bytes) {
    exists i | 0 <= i < |units| :: units[i].sourcePath == path
  }

  lemma NewPath(units: seq<CompileUnit>, unit: CompileUnit)
    ensures IsPathOf(units + [unit], unit.sourcePath)
  {
    assert (units + [unit])[|units|] == unit;
  }

  lemma PathOfMore(a: seq<CompileUnit>, b: seq<CompileUnit>, c: seq<CompileUnit>, path: bytes)
    requires IsPathOf(b, path)
    ensures IsPathOf(a + b + c, path)
  {
    var i :| 0 <= i < |b| && b[i].sourcePath == path;
    assert (a + b + c)[|a| + i] == b[i];
  }

  /** Fills a module from a map file: one unit per module with lines, in the order of the line tables. */
  method Populate(mf: MapFile, mod: Module) returns (out: Module)
    requires |mod.sourceFiles| + |mf.lineTables| < 0x1_0000_0000 && Distinct(mod.sourceFiles)
    ensures out.types == mod.types && Distinct(out.sourceFiles) && mod.sourceFiles <= out.sourceFiles
    ensures var order, base := ModuleOrder(mf, |mf.lineTables|), |mod.units|;
            && |out.units| == base + |order| && out.units[..base] == mod.units
            && (forall k | 0 <= k < |order| :: UnitOk(mf, order[k], out.units[base + k], out.sourceFiles))
            && (forall f | |mod.sourceFiles| <= f < |out.sourceFiles| ::
                  IsPathOf(out.units, out.sourceFiles[f]))
  {
    hide IsModule, ModuleOrder, TablesOf, Bucket, UnitOk, OwnerOf, IsPathOf;
    var names := ModuleNames(mf);
    var buckets := BucketPublics(mf, names);
    var groups, order := GroupTables(mf);
    OrderBound(mf, |mf.lineTables|);
    var units, sources := [], mod.sourceFiles;
    for k := 0 to |order|
      invariant |units| == k && mod.sourceFiles <= sources && Distinct(sources) && |sources| <= |mod.sourceFiles| + k
      invariant forall j | 0 <= j < k :: UnitOk(mf, order[j], units[j], sources)
      invariant forall f | |mod.sourceFiles| <= f < |sources| :: IsPathOf(units, sources[f])
    {
      var m := order[k];
      FirstOfGroup(mf, |mf.lineTables|, m);
      assert Lookup(groups, m) == TablesOf(mf, |mf.lineTables|, m) && Lookup(buckets, m) == Bucket(mf, |mf.publics|, m);
      var unit, all := BuildUnit(mf, m, Lookup(groups, m), Lookup(buckets, m), sources);
      forall j | 0 <= j < k ensures UnitOk(mf, order[j], units[j], all) {
        UnitStays(mf, order[j], units[j], sources, all);
      }
      forall f | |mod.sourceFiles| <= f < |all| ensures IsPathOf(units + [unit], all[f]) {
        if f < |sources| {
          PathOfMore([], units, [unit], sources[f]);
          assert [] + units + [unit] == units + [unit];
        } else {
          NewPath(units, unit);
        }
      }
      units, sources := units + [unit], all;
    }
    out := Module(mod.units + units, sources, mod.types);
    forall f | |mod.sourceFiles| <= f < |sources| ensures IsPathOf(out.units, sources[f]) {
      PathOfMore(mod.units, units, [], sources[f]);
      assert mod.units + units + [] == mod.units + units;
    }
  }

  method BuildUnit(mf: MapFile, m: bytes, tables: seq<nat>, bucket: seq<nat>, sources: seq<bytes>)
    returns (unit: CompileUnit, all: seq<bytes>)
    requires tables == TablesOf(mf, |mf.lineTables|, m) && tables != [] && FirstTable(mf, m, tables[0])
    requires bucket == Bucket(mf, |mf.publics|, m) && Distinct(sources) && |sources| < 0xFFFF_FFFF
    ensures UnitOk(mf, m, unit, all)
    ensures sources <= all && Distinct(all) && |all| <= |sources| + 1
            && (all == sources || all == sources + [unit.sourcePath])
  {
    hide FirstTable, TablesOf, Bucket, OwnerOf, WithFile, LinesAt, SymbolsAt, GroupOf, LineItems, SymbolItems, UnitOk;
    var path := mf.lineTables[tables[0]].sourcePath;
    var id;
    all, id := SourceFileId(sources, path);
    var lines := CollectLines(mf, tables, id);
    TablesHoldLines(mf, |mf.lineTables|, m);
    var symbols := CollectSymbols(mf, bucket, m);
    BucketHoldsSymbols(mf, |mf.publics|, m);
    unit := CompileUnit(path, symbols, lines);
    UnitMade(mf, m, unit, tables[0], id, all);
  }

  lemma UnitMade(mf: MapFile, m: bytes, u: CompileUnit, first: nat, file: u32, sources: seq<bytes>)
    requires FirstTable(mf, m, first) && u.sourcePath == mf.lineTables[first].sourcePath
    requires u.symbols == GroupOf(SymbolItems(mf, |mf.publics|), m)
    requires file < |sources| && sources[file] == u.sourcePath
    requires u.lines == WithFile(GroupOf(LineItems(mf, |mf.lineTables|), m), file)
    ensures UnitOk(mf, m, u, sources)
  {
    hide WithFile, LineItems, SymbolItems, GroupOf;
    assert first < |mf.lineTables|;
  }

  lemma UnitStays(mf: MapFile, m: bytes, u: CompileUnit, sources: seq<bytes>, all: seq<bytes>)
    requires UnitOk(mf, m, u, sources) && sources <= all
    ensures UnitOk(mf, m, u, all)
  {
    hide FirstTable, WithFile;
  }

  lemma {:induction false} FirstOfGroup(mf: MapFile, n: nat, m: bytes)
    requires n <= |mf.lineTables| && m in ModuleOrder(mf, n)
    ensures TablesOf(mf, n, m) != [] && FirstTable(mf, m, TablesOf(mf, n, m)[0])
  {
    hide ModuleOrder, TablesOf, TablesIn, FirstTable, Distinct;
    if n == 0 {
      NoModules(mf);
    } else {
      InOrderStep(mf, n, m);
      TablesStep(mf, n - 1, m);
      if m in ModuleOrder(mf, n - 1) {
        FirstOfGroup(mf, n - 1, m);
      } else {
        NoneOfGroup(mf, n - 1, m);
        assert TablesOf(mf, n, m) == [n - 1];
        assert FirstTable(mf, m, n - 1) by { IsFirst(mf, m, n - 1); }
      }
    }
  }

  lemma InOrderStep(mf: MapFile, n: nat, m: bytes)
    requires 0 < n <= |mf.lineTables|
    ensures m in ModuleOrder(mf, n) <==> m in ModuleOrder(mf, n - 1) || mf.lineTables[n - 1].moduleName == m
  {
    hide Distinct;
  }

  lemma IsFirst(mf: MapFile, m: bytes, i: nat)
    requires i < |mf.lineTables| && mf.lineTables[i].moduleName == m
    requires forall k | 0 <= k < i :: mf.lineTables[k].moduleName != m
    ensures FirstTable(mf, m, i)
  {
  }

  /** A module that is not in the order has no tables. */
  lemma {:induction false} NoneOfGroup(mf: MapFile, n: nat, m: bytes)
    requires n <= |mf.lineTables| && m !in ModuleOrder(mf, n)
    ensures TablesOf(mf, n, m) == [] && forall k | 0 <= k < n :: mf.lineTables[k].moduleName != m
  {
    hide ModuleOrder, TablesOf, TablesIn, Distinct;
    if n == 0 {
      NoModules(mf);
      NoTables(mf, m);
    } else {
      InOrderStep(mf, n, m);
      TablesStep(mf, n - 1, m);
      NoneOfGroup(mf, n - 1, m);
    }
  }

  lemma {:induction false} OrderBound(mf: MapFile, n: nat)
    requires n <= |mf.lineTables|
    ensures |ModuleOrder(mf, n)| <= n
  {
    if n > 0 {
      OrderBound(mf, n - 1);
    }
  }

  // ----- Conservation -----------------------------------------------------------------------------------------

  function PlacesOf(ls: seq<LineEntry>): (r: seq<Placed>)
    ensures |r| == |ls|
  {
    seq(|ls|, i requires 0 <= i < |ls| => Placed(ls[i].address, ls[i].line))
  }

  function AllPlaces(units: seq<CompileUnit>): seq<Placed> {
    if units == [] then [] else AllPlaces(units[..|units| - 1]) + PlacesOf(units[|units| - 1].lines)
  }

  function AllSymbols(units: seq<CompileUnit>): seq<Symbol> {
    if units == [] then [] else AllSymbols(units[..|units| - 1]) + units[|units| - 1].symbols
  }

  lemma {:induction false} UnitsAreGroups(mf: MapFile, order: seq<bytes>, units: seq<CompileUnit>, sources: seq<bytes>)
    requires |units| == |order| && forall k | 0 <= k < |order| :: UnitOk(mf, order[k], units[k], sources)
    ensures AllPlaces(units) == Groups(LineItems(mf, |mf.lineTables|), order)
    ensures AllSymbols(units) == Groups(SymbolItems(mf, |mf.publics|), order)
    decreases |order|
  {
    hide FirstTable, LineItems, SymbolItems, GroupOf;
    if order != [] {
      var n := |order| - 1;
      UnitsAreGroups(mf, order[..n], units[..n], sources);
      assert UnitOk(mf, order[n], units[n], sources);
      var items := GroupOf(LineItems(mf, |mf.lineTables|), order[n]);
      var file: u32 :| file < |sources| && sources[file] == units[n].sourcePath && units[n].lines == WithFile(items, file);
      assert PlacesOf(WithFile(items, file)) == items;
    }
  }

  /** Every line record comes out exactly once, and so does the symbol of every public that any module owns. */
  lemma NothingLost(mf: MapFile, units: seq<CompileUnit>, sources: seq<bytes>)
    requires var order := ModuleOrder(mf, |mf.lineTables|);
             |units| == |order| && forall k | 0 <= k < |order| :: UnitOk(mf, order[k], units[k], sources)
    ensures multiset(AllPlaces(units)) == multiset(KeyedItems(LineItems(mf, |mf.lineTables|)))
    ensures multiset(AllSymbols(units)) == multiset(KeyedItems(SymbolItems(mf, |mf.publics|)))
  {
    hide UnitOk, LineItems, SymbolItems, Groups, KeyedItems;
    var order := ModuleOrder(mf, |mf.lineTables|);
    UnitsAreGroups(mf, order, units, sources);
    Conservation(LineItems(mf, |mf.lineTables|), order);
    forall i | 0 <= i < |mf.publics| && OwnerOf(mf, i).Some? ensures OwnerOf(mf, i).value in order {
      var owner := OwnerOf(mf, i).value;
      assert IsModule(mf, mf.publics[i].name[..|owner|]);
    }
    Conservation(SymbolItems(mf, |mf.publics|), order);
  }
}
