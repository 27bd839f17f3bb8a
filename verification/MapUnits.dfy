/** What the units made from a map file hold, in terms of the file: which publics become symbols, under which name and
    of which kind, and at which addresses symbols and lines are. */
module MapUnits {
  import opened Bytes
  import opened Grouping
  import opened Model
  import opened MapAdapter

  /** The start of the first segment of the number plus the offset; 0 where there is no such segment. */
  ghost predicate IsAddress(mf: MapFile, id: u16, offset: u64, va: u64) {
    if exists i | 0 <= i < |mf.segments| :: mf.segments[i].id == id then
      exists i | 0 <= i < |mf.segments| ::
        && mf.segments[i].id == id && (forall j | 0 <= j < i :: mf.segments[j].id != id)
        && va as int == (mf.segments[i].startVa as int + offset as int) % 0x1_0000_0000_0000_0000
    else va == 0
  }

  /** A function in the first segment of the number if that is called `CODE`, and data if it is called otherwise. */
  ghost predicate IsKind(mf: MapFile, id: u16, kind: SymbolKind) {
    if exists i | 0 <= i < |mf.segments| :: mf.segments[i].id == id then
      exists i | 0 <= i < |mf.segments| ::
        && mf.segments[i].id == id && (forall j | 0 <= j < i :: mf.segments[j].id != id)
        && kind == if mf.segments[i].klass == Ascii("CODE") then Function else Variable
    else kind == Unknown
  }

  /** A public `owner.local` of the program: not unwind data, not anonymous, not the module itself. */
  ghost predicate IsLocal(p: Public, owner: bytes, local: bytes) {
    && p.name == owner + Ascii(".") + local && local != []
    && !(Ascii("$pdata$") <= local) && !(Ascii("$unwind$") <= local) && !(Ascii(".") <= local)
  }

  /** The symbol of such a public. Data goes by its local name, and everything else by the qualified one. */
  ghost predicate IsSymbolOf(mf: MapFile, p: Public, owner: bytes, s: Symbol) {
    exists local: bytes ::
      && IsLocal(p, owner, local) && s.name == (if s.kind == Variable then local else p.name)
      && IsKind(mf, p.segmentId, s.kind) && IsAddress(mf, p.segmentId, p.offset, s.address)
      && s.size == 0 && s.ty == NO_TYPE && s.params == [] && s.locals == []
  }

  // ----- Segments -----------------------------------------------------------------------------------------

  lemma {:induction false} FirstSegment(segments: seq<Segment>, id: u16) returns (i: nat)
    requires FindSegment(segments, id).Some?
    ensures i < |segments| && segments[i].id == id && FindSegment(segments, id) == Some(segments[i])
    ensures forall j | 0 <= j < i :: segments[j].id != id
  {
    if segments[0].id == id {
      i := 0;
    } else {
      var k := FirstSegment(segments[1..], id);
      i := k + 1;
      assert forall j | 0 < j < i :: segments[j] == segments[1..][j - 1];
    }
  }

  lemma {:induction false} NoSegment(segments: seq<Segment>, id: u16)
    requires FindSegment(segments, id).None?
    ensures forall i | 0 <= i < |segments| :: segments[i].id != id
  {
    if segments != [] {
      NoSegment(segments[1..], id);
      assert forall j | 0 < j < |segments| :: segments[j] == segments[1..][j - 1];
    }
  }

  lemma NamesSpelled()
    ensures CODE == Ascii("CODE") && PDATA == Ascii("$pdata$") && UNWIND == Ascii("$unwind$") && [DOT] == Ascii(".")
  {
  }

  lemma AddressAndKind(mf: MapFile, id: u16, offset: u64)
    ensures IsAddress(mf, id, offset, ResolveVA(mf, id, offset)) && IsKind(mf, id, KindOf(mf, id))
  {
    NamesSpelled();
    hide CODE, Ascii;
    if FindSegment(mf.segments, id).Some? {
      var i := FirstSegment(mf.segments, id);
    } else {
      NoSegment(mf.segments, id);
    }
  }

  lemma KindUnique(mf: MapFile, id: u16, a: SymbolKind, b: SymbolKind)
    requires IsKind(mf, id, a) && IsKind(mf, id, b)
    ensures a == b
  {
    hide Ascii;
  }

  lemma AddressUnique(mf: MapFile, id: u16, offset: u64, a: u64, b: u64)
    requires IsAddress(mf, id, offset, a) && IsAddress(mf, id, offset, b)
    ensures a == b
  {
  }

  // ----- Symbols ----------------------------------------------------------------------------------------------

  lemma LocalPart(p: Public, owner: bytes, local: bytes)
    requires owner + [DOT] <= p.name
    ensures p.name == owner + [DOT] + local <==> local == p.name[|owner| + 1..]
  {
    assert p.name == (owner + [DOT]) + p.name[|owner| + 1..];
  }

  lemma SymbolName(p: Public, owner: bytes)
    requires owner + [DOT] <= p.name
    ensures IsSymbolName(p.name[|owner| + 1..]) <==> IsLocal(p, owner, p.name[|owner| + 1..])
  {
    NamesSpelled();
    hide Ascii, PDATA, UNWIND;
    var local := p.name[|owner| + 1..];
    LocalPart(p, owner, local);
    Prefixes(local, Ascii("$pdata$"));
    Prefixes(local, Ascii("$unwind$"));
    Prefixes(local, [DOT]);
    assert [DOT] <= local <==> local != [] && local[0] == DOT;
  }

  lemma Prefixes(s: bytes, p: bytes)
    ensures StartsWith(s, p) <==> p <= s
  {
  }

  /** A public becomes the one symbol that describes it, or none if it is not one of the program. */
  lemma SymbolsForIs(mf: MapFile, p: Public, owner: bytes, s: Symbol)
    requires |owner| < |p.name| && owner + [DOT] <= p.name
    ensures s in SymbolsFor(mf, p, owner) <==> IsSymbolOf(mf, p, owner, s)
  {
    hide Ascii, IsAddress, IsKind, ResolveVA, KindOf, IsLocal, IsSymbolName;
    NamesSpelled();
    var local := p.name[|owner| + 1..];
    SymbolName(p, owner);
    AddressAndKind(mf, p.segmentId, p.offset);
    if IsSymbolOf(mf, p, owner, s) {
      var other: bytes :| IsLocal(p, owner, other) && s.name == (if s.kind == Variable then other else p.name);
      SameLocal(p, owner, other);
      KindUnique(mf, p.segmentId, s.kind, KindOf(mf, p.segmentId));
      AddressUnique(mf, p.segmentId, p.offset, s.address, ResolveVA(mf, p.segmentId, p.offset));
    }
  }

  lemma SameLocal(p: Public, owner: bytes, local: bytes)
    requires owner + [DOT] <= p.name && IsLocal(p, owner, local)
    ensures local == p.name[|owner| + 1..]
  {
    NamesSpelled();
    hide Ascii;
    LocalPart(p, owner, local);
  }

  lemma {:induction false} InGroup<T>(ks: seq<Keyed<T>>, key: bytes, x: T)
    ensures x in GroupOf(ks, key) <==> exists i | 0 <= i < |ks| :: ks[i].key == Some(key) && x in ks[i].items
  {
    if ks != [] {
      InGroup(ks[..|ks| - 1], key, x);
      assert forall i | 0 <= i < |ks| - 1 :: ks[i] == ks[..|ks| - 1][i];
    }
  }

  lemma {:induction false} SymbolItemAt(mf: MapFile, n: nat, i: nat)
    requires i < n <= |mf.publics|
    ensures var owner := OwnerOf(mf, i);
            SymbolItems(mf, n)[i]
            == Keyed(owner, if owner.Some? then SymbolsFor(mf, mf.publics[i], owner.value) else [])
    decreases n
  {
    hide SymbolsFor, OwnerOf;
    if i < n - 1 {
      SymbolItemAt(mf, n - 1, i);
    }
  }

  /** The symbols of a unit are exactly those that describe the publics of its module. */
  lemma UnitSymbols(mf: MapFile, m: bytes, u: CompileUnit, sources: seq<bytes>, s: Symbol)
    requires UnitOk(mf, m, u, sources)
    ensures s in u.symbols
            <==> exists i | 0 <= i < |mf.publics| :: OwnerOf(mf, i) == Some(m) && IsSymbolOf(mf, mf.publics[i], m, s)
  {
    hide SymbolsFor, IsSymbolOf, SymbolItems, OwnerOf, FirstTable, LineItems, GroupOf, WithFile;
    var items := SymbolItems(mf, |mf.publics|);
    InGroup(items, m, s);
    forall i | 0 <= i < |mf.publics|
      ensures items[i].key == OwnerOf(mf, i)
      ensures OwnerOf(mf, i) == Some(m) ==> (s in items[i].items <==> IsSymbolOf(mf, mf.publics[i], m, s))
    {
      SymbolItemAt(mf, |mf.publics|, i);
      if OwnerOf(mf, i) == Some(m) {
        OwnerStarts(mf, i, m);
        SymbolsForIs(mf, mf.publics[i], m, s);
      }
    }
  }

  // ----- Lines ------------------------------------------------------------------------------------------------

  lemma {:induction false} LineItemAt(mf: MapFile, n: nat, i: nat)
    requires i < n <= |mf.lineTables|
    ensures LineItems(mf, n)[i]
            == Keyed(Some(mf.lineTables[i].moduleName), PlacedLines(mf, mf.lineTables[i].lines))
    decreases n
  {
    hide PlacedLines;
    if i < n - 1 {
      LineItemAt(mf, n - 1, i);
    }
  }

  /** The record of the line table places line `line` at `va`. */
  ghost predicate Places(mf: MapFile, t: LineTable, va: u64, line: u32) {
    exists k | 0 <= k < |t.lines| :: t.lines[k].line == line && IsAddress(mf, t.lines[k].segmentId, t.lines[k].offset, va)
  }

  lemma PlacedIn(mf: MapFile, t: LineTable, va: u64, line: u32)
    ensures Placed(va, line) in PlacedLines(mf, t.lines) <==> Places(mf, t, va, line)
  {
    hide IsAddress, ResolveVA;
    var placed := PlacedLines(mf, t.lines);
    forall k | 0 <= k < |t.lines|
      ensures placed[k] == Placed(va, line)
              <==> t.lines[k].line == line && IsAddress(mf, t.lines[k].segmentId, t.lines[k].offset, va)
    {
      var r := t.lines[k];
      AddressAndKind(mf, r.segmentId, r.offset);
      if IsAddress(mf, r.segmentId, r.offset, va) {
        AddressUnique(mf, r.segmentId, r.offset, va, ResolveVA(mf, r.segmentId, r.offset));
      }
    }
  }

  /** The lines of a unit are exactly those that the tables of its module place, all in the file of its path. */
  lemma UnitLines(mf: MapFile, m: bytes, u: CompileUnit, sources: seq<bytes>, va: u64, line: u32)
    requires UnitOk(mf, m, u, sources)
    ensures (exists k | 0 <= k < |u.lines| :: u.lines[k].address == va && u.lines[k].line == line)
            <==> exists i | 0 <= i < |mf.lineTables| ::
                   mf.lineTables[i].moduleName == m && Places(mf, mf.lineTables[i], va, line)
    ensures forall k | 0 <= k < |u.lines| :: u.lines[k].fileId < |sources| && sources[u.lines[k].fileId] == u.sourcePath
  {
    hide Places, LineItems, SymbolItems, FirstTable, GroupOf, PlacedLines;
    var items := LineItems(mf, |mf.lineTables|);
    var group := GroupOf(items, m);
    InGroup(items, m, Placed(va, line));
    forall i | 0 <= i < |mf.lineTables|
      ensures items[i].key == Some(mf.lineTables[i].moduleName)
      ensures Placed(va, line) in items[i].items <==> Places(mf, mf.lineTables[i], va, line)
    {
      LineItemAt(mf, |mf.lineTables|, i);
      PlacedIn(mf, mf.lineTables[i], va, line);
    }
    assert |u.lines| == |group| && forall k | 0 <= k < |u.lines| ::
             u.lines[k].address == group[k].address && u.lines[k].line == group[k].line;
    assert forall k | 0 <= k < |group| :: group[k] == Placed(va, line)
                                          <==> u.lines[k].address == va && u.lines[k].line == line;
  }
}
