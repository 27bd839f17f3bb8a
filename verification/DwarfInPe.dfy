/** From a module to an image and back: what a debugger reads from the sections it finds by name in an image
    into which the emitted DWARF was injected. */
module DwarfInPe {
  import opened Bytes
  import opened Model
  import opened PeView
  import opened DwarfReader
  import opened DwarfEmitter
  import opened DwarfInjector
  import opened DwarfInjection

  /** What the emitter hands to the injector: two of the five sections stay empty. */
  function ToInject(s: Sections): DwarfSections {
    DwarfSections(s.abbrev, [], [], s.line, s.info)
  }

  /** A section that is not there is as good as an empty one. */
  function Lookup(image: bytes, pe: Pe, name: bytes): bytes {
    match SectionByName(image, pe, name, 0)
    case Some(data) => data
    case None => []
  }

  /** The debug sections of an image, each by its name. */
  function DebugSections(image: bytes): Sections
    requires HasTable(image)
  {
    var pe := ParsePe(image);
    Sections(Lookup(image, pe, INFO), Lookup(image, pe, ABBREV), Lookup(image, pe, LINE))
  }

  lemma {:induction false} NoSuchName(image: bytes, pe: Pe, name: bytes, from: nat)
    requires from <= |pe.secs|
    requires forall i | from <= i < |pe.secs| :: NameIn(image, pe, i) != name
    ensures SectionByName(image, pe, name, from) == None
    decreases |pe.secs| - from
  {
    hide NameIn;
    if from < |pe.secs| {
      NoSuchName(image, pe, name, from + 1);
    }
  }

  /** After an injection no section has a `.debug` name that was not injected, whatever the input had. */
  lemma OthersNotFound(a: bytes, b: bytes, es: seq<Entry>, name: bytes)
    requires Ready(a, es) && EntriesOk(es) && IsInjected(a, b, es)
    requires IsDebugName(name) && forall j | 0 <= j < |es| :: es[j].name != name
    ensures HasTable(b) && SectionByName(b, ParsePe(b), name, 0) == None
  {
    hide Ready, IsInjected, EntriesOk, HasTable, ParsePe, NameIn, IsDebugName, SectionByName;
    InjectionNames(a, b, es);
    OldDwIsNotDebug();
    var n := |ParsePe(a).secs|;
    forall i | 0 <= i < |ParsePe(b).secs| ensures NameIn(b, ParsePe(b), i) != name {
      if i >= n {
        assert NameIn(b, ParsePe(b), i) == es[i - n].name;
      }
    }
    NoSuchName(b, ParsePe(b), name, 0);
  }

  /** `d` has `data` for the section `name`. */
  predicate Supplies(d: DwarfSections, name: bytes, data: bytes) {
    || (name == ABBREV && data == d.abbrev) || (name == STR && data == d.str) || (name == LINE_STR && data == d.lineStr)
    || (name == LINE && data == d.line) || (name == INFO && data == d.info)
  }

  /** The entries are the nonempty sections, under their names. */
  lemma EntriesAre(d: DwarfSections, e: Entry)
    ensures e in Entries(d) <==> e.data != [] && Supplies(d, e.name, e.data)
  {
    hide ABBREV, STR, LINE_STR, LINE, INFO;
  }

  lemma SuppliesOnce(d: DwarfSections, name: bytes, data: bytes, other: bytes)
    requires Supplies(d, name, data) && Supplies(d, name, other)
    ensures data == other && IsDebugName(name)
  {
    NamesDiffer();
    hide ABBREV, STR, LINE_STR, LINE, INFO, NoNul, IsDebugName;
    assert name in {ABBREV, STR, LINE_STR, LINE, INFO};
  }

  /** Each of the sections is found by its name with its bytes; nothing is found for an empty one. */
  lemma LookupFinds(a: bytes, b: bytes, d: DwarfSections, name: bytes, data: bytes)
    requires Ready(a, Entries(d)) && IsInjected(a, b, Entries(d)) && Supplies(d, name, data)
    ensures HasTable(b) && Lookup(b, ParsePe(b), name) == data
  {
    hide Ready, IsInjected, HasTable, ParsePe, EntriesOk, SectionByName, Supplies, Entries, IsDebugName;
    var es := Entries(d);
    EntriesAreOk(d);
    SuppliesOnce(d, name, data, data);
    if data != [] {
      EntriesAre(d, Entry(name, data));
      var j :| 0 <= j < |es| && es[j] == Entry(name, data);
      InjectionFoundByName(a, b, es, j);
    } else {
      forall j | 0 <= j < |es| ensures es[j].name != name {
        EntriesAre(d, es[j]);
        if es[j].name == name {
          SuppliesOnce(d, name, data, es[j].data);
        }
      }
      OthersNotFound(a, b, es, name);
    }
  }

  /** The sections that a debugger finds by name in the new image are the emitted ones. */
  lemma SectionsArrive(a: bytes, b: bytes, s: Sections)
    requires Ready(a, Entries(ToInject(s))) && IsInjected(a, b, Entries(ToInject(s)))
    ensures HasTable(b) && DebugSections(b) == s
  {
    hide Ready, IsInjected, HasTable, ParsePe, Lookup, Entries, ABBREV, STR, LINE_STR, LINE, INFO;
    var d := ToInject(s);
    LookupFinds(a, b, d, INFO, d.info);
    LookupFinds(a, b, d, ABBREV, d.abbrev);
    LookupFinds(a, b, d, LINE, d.line);
  }

  /** From the model to the debugger: whatever image the emitted sections are injected into, reading the
      sections found by name gives one unit per model unit with lines, in order, each matching it. */
  method InjectEmitted(peIn: bytes, mod: Module, producer: bytes, s: Sections) returns (r: Result)
    requires ReadDebugInfo(s).Some? && UnitsMatch(ReadDebugInfo(s).value, mod, UnitsWithLines(mod.units), producer)
    requires Refusal(peIn, Entries(ToInject(s))).None? ==> Ready(peIn, Entries(ToInject(s)))
    ensures r.Ok? <==> Refusal(peIn, Entries(ToInject(s))).None?
    ensures r.Ok? ==>
              && HasTable(peIn) && HasTable(r.image) && ViewKept(peIn, r.image)
              && var us := ReadDebugInfo(DebugSections(r.image));
                 us.Some? && UnitsMatch(us.value, mod, UnitsWithLines(mod.units), producer)
  {
    hide Ready, IsInjected, HasTable, Entries, Refusal, ViewKept, UnitsMatch, ReadDebugInfo, DebugSections, EntriesOk,
         UnitsWithLines;
    EntriesAreOk(ToInject(s));
    r := InjectDwarfSections(peIn, ToInject(s));
    if r.Ok? {
      InjectionKeepsView(peIn, r.image, Entries(ToInject(s)));
      SectionsArrive(peIn, r.image, s);
    }
  }
}
