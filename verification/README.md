# Verified model of rsm2pdb

rsm2pdb turns the debug information of Delphi Win64 programs (map and RSM files) into DWARF v5 sections inside
the executable, or into a PDB that the executable refers to. This project models the parts of it that transform
data and proves what they promise. It verifies with Dafny 4.11:

```
dafny verify dfyconfig.toml
```

Every encoder is proved against a decoder written from the format's definition, not from the encoder, and every
loop against a description of its result, about which the properties are then proved.

**DWARF.** `Bytes` has little-endian and LEB128 numbers (section 7.6 of the DWARF v5 standard) and the byte
buffer. `LineReader` is the line-number header and state machine of section 6.2; `LineWriter` writes line
programs and proves that the machine gives back the rows. `DwarfForms`, `DieReader` and `DwarfReader` read
abbreviations, units and DIEs (section 7.5) down to functions, variables and types; `DieWriter`, `AbbrevWriter`,
`TypeDies` and `DwarfEmitter` write them, and `DwarfEmitter.EmitDwarf` states the whole round trip.

**PE images.** `PeImage` has images as bytes with named header fields; `PeView` is what loaders and debuggers
see: bytes by address, sections by name. `PeEdit` and `PeNames` are the edits the two injectors share,
`DwarfInjector` and `PdbInjector` the injectors, and `DwarfInjection` and `PdbInjection` what their outputs
mean, also one after the other; `PdbOffsets` follows the file offset in the debug directory. `DwarfInPe` joins
emission and injection: what a debugger reads from the sections it finds by name in the new image.

**Aggregate types.** `Registrar` is the memoised walk over a possibly cyclic type graph, with its in-progress
set; `TypeRecords` is the type stream and the meaning of an index in it; `TypeEmitter` is the single-pass
emission, whose order the registrar provides. `TypeLookup` says which aggregate a reference of a unit leads to,
from the indexes to the records. `Primitives` has the table of Delphi types and holds the two writers against it
and against each other. `LineSlices` is the per-function line tables.

**RSM files.** `SubRecord` and `Scanner` are the resynchronising scan for procedures and variables,
`ScanInvariants` and `GlobalVariables` what it keeps, what it reads back and that it reads nothing else,
`AliasIndex` the hash indexes with their aliases. `Prologue`, `SizeSniffer` and `Frame` resolve stack frames,
against an executable model of the few instructions involved.

**Map files.** `MapAdapter` regroups publics and line tables into compile units, whose contents `MapUnits`
spells out; `Grouping` has the conservation argument.

Where the code does not do what its comments say on all inputs, the model follows the code and states when it
does:

- A sub-record whose form only its length tells is misread when its own bytes look like the tag of the next
  record or, with six bytes, when an even hash has an odd high byte: `SubRecord.Readable` is the exact condition
  (`SubRecord.SubRoundTrip`), and `SubRecord.HashMisread` an input.
- More than sixteen pushes hide the frame size (`Prologue.PrologueDecodes`, `Prologue.SeventeenPushes`).
- The scan for moves does not look at REX.B, which turns the base register from `rbp` into `r13`, and it takes a
  64-bit immediate move with a superfluous 16-bit prefix for two bytes shorter than it is. For all other moves,
  and only for them, it agrees with the processor (`SizeSniffer.MovReads`); `SizeSniffer.R13Recorded` and
  `SizeSniffer.ShortImmediate` are inputs. None of the documented forms is concerned.
- Old-style type references of sub-records, and hash 0, leave no trace in the variables, while all others are
  kept (`ScanInvariants.TypeKeptIff`, `ScanInvariants.OldTypeLost`).
- A method parameter has the type of its aggregate if and only if that comes before the class of the method
  (`TypeEmitter.ParameterMeans`, `TypeEmitter.LaterParameterLost`): methods are attached when the class already
  has its place.
- In an image whose sections are aligned more finely in memory than in the file, an injected section can reach
  over the address of the next (`DwarfInjection.InjectionByAddress`, `DwarfInjector.FinerOverlaps`).
- The first byte of a global's type decides its form, so an id whose low byte is even and below 0x40, except 0,
  is read as a marker, with a wrong address (`GlobalVariables.GlobalRoundTrip` has the exact condition,
  `GlobalVariables.IdMisread` an input).
- Sub-records behind 1030 and more undecoded bytes are lost (`ScanInvariants.PadSkipped`,
  `ScanInvariants.PadTooLong`).
- The file offset in the debug directory goes stale when DWARF sections are added afterwards, if and only if the
  headers have to grow for them (`PdbOffsets.OffsetAfterDwarf`); the address beside it stays right.
- A `Real48` is shown as eight bytes in the PDB, two more than it has, and the name `Extended` that DWARF gives
  the 80-bit float is that of a 64-bit one in the table of Delphi types (`Primitives.TableWidth`,
  `Primitives.DescribedName`).
- A function that reaches the end of the 32-bit offsets of its segment has no lines, since its end wraps around
  (`LineSlices.InFunction`); in a unit that reaches the last 64-bit address, functions become one byte long
  (`DwarfEmitter.EndsAt`).

## Model

| member | source | states |
|---|---|---|
| Bytes.UlebRoundTrip | src/dwarf/dwarf_internal.h:33-40 | An unsigned LEB128 number in front of any bytes reads back as that number and those bytes. |
| Bytes.SlebRoundTrip | src/dwarf/dwarf_internal.h:41-54 | The same for a signed number of either sign. |
| Bytes.UlebMinimal | src/dwarf/dwarf_internal.h:33-40 | Whatever bytes decode to a number, the encoding of that number is no longer than they are. |
| Bytes.SlebMinimal | src/dwarf/dwarf_internal.h:41-54 | The same for signed numbers. |
| Bytes.LeRoundTrip | src/dwarf/dwarf_internal.h:21-31 | Little-endian bytes of any width read back as the number modulo the width. |
| Bytes.CStrRoundTrip | src/dwarf/dwarf_internal.h:57-60 | A text without NUL is found again in front of any bytes. |
| Bytes.BytesBuf.Uleb128 | src/dwarf/dwarf_internal.h:33-40 | The shift loop appends exactly the LEB128 encoding the round-trip and minimality lemmas are about. |
| Bytes.BytesBuf.Sleb128 | src/dwarf/dwarf_internal.h:41-54 | The arithmetic-shift loop does the same for signed numbers. |
| Bytes.BytesBuf.PatchU32 | src/dwarf/dwarf_internal.h:74-77 | Only the four bytes at the offset change, to the little-endian value. |
| Bytes.BytesBuf.ReservedU32 | src/dwarf/dwarf_internal.h:69-73 | The placeholder is four zero bytes at the returned offset, the former end. |
| Model.SplitPath | src/dwarf/dwarf_internal.h:107-111 | Directory and file rejoin to the path around one separator of either kind, and the file part has no separator. |
| LineWriter.Sort | src/dwarf/dwarf_sections.cpp:260-265 | A permutation of the entries in ascending address order; nothing is said of the order of equal addresses, as for an unstable sort. |
| LineWriter.WriteRows | src/dwarf/dwarf_sections.cpp:230-281 | The opcodes lead a DWARF v5 line state machine from the state after selecting file 0 to one row per entry, with that address and line, and no other row. |
| LineWriter.WriteLineProgram | src/dwarf/dwarf_sections.cpp:145-293 | While the section fits 32 bits, an independent DWARF v5 reader started at the returned offset finds, whatever the section gains later: lengths that land on the end of the unit, the directory and file of the source path, and rows of file 0 that are an address-sorted permutation of the line entries, closed by one end_sequence row at the last address. |
| AbbrevWriter.WriteAbbrevTable | src/dwarf/dwarf_sections.cpp:19-120 | What is appended decodes, by section 7.5.3 of DWARF v5, to the ten abbreviations the DIE writers use, and to nothing behind them. |
| AbbrevWriter.TableReads | src/dwarf/dwarf_sections.cpp:19-120 | The encoding of the declared abbreviations parses back to the same table of tags, children flags, attributes and forms. |
| DieWriter.ReadForest | src/dwarf/dwarf_emitter.cpp:204-361 | Any forest of DIEs that conforms to an abbreviation table reads back, DIE by DIE, with each at the offset where it was written, and reading stops exactly behind it. |
| DieWriter.ParseWritten | src/dwarf/dwarf_emitter.cpp:314-361 | A unit body behind its header parses to its one root DIE, at the absolute offset that references count from. |
| DieWriter.SplitAppended | src/dwarf/dwarf_emitter.cpp:328-360 | A unit whose patched length covers its body is one more unit of the section: every earlier unit is split off as before. |
| TypeDies.EmitTypeDIEs | src/dwarf/dwarf_emitter.cpp:144-197 | Afterwards the offset recorded for every type a symbol needs leads to a DIE in the same unit that means that type: a primitive by name, size and encoding, an array by element meaning and bound, or no reference for unsupported types. |
| TypeDies.BaseDieMeans | src/dwarf/dwarf_emitter.cpp:112-120 | A base-type DIE read through the table has exactly the name, size and encoding of the primitive. |
| TypeDies.ArrayDieMeans | src/dwarf/dwarf_emitter.cpp:122-135 | An array DIE refers to the element offset and has one subrange child whose upper bound is the length. |
| DwarfEmitter.CuRange | src/dwarf/dwarf_emitter.cpp:36-52 | The least and the greatest nonzero address of lines and functions, both of which occur; 0 and 0 when there is none. |
| DwarfEmitter.ComputeSymbolEnd | src/dwarf/dwarf_emitter.cpp:58-68 | A function's end lies behind its start, at the end of the unit or at a symbol's address, with no symbol's address strictly between; where the unit does not end behind the start, one byte, modulo 2^64. |
| DwarfEmitter.FunctionRanges | src/dwarf/dwarf_emitter.cpp:58-68 | In any unit that reads back as its model unit and whose end does not wrap to 0: functions at different addresses have nonempty ranges within the unit that do not overlap. |
| DwarfEmitter.FunctionRange | src/dwarf/dwarf_emitter.cpp:58-68 | Each range that is read starts at a symbol of the unit, within the unit, and ends at the unit's end or the next symbol. |
| DwarfEmitter.NearestFunctionFound | src/dwarf/dwarf_emitter.cpp:54-68 | Every address within the unit whose nearest symbol at or below it is a function lies in the range that is read for that function. |
| DwarfEmitter.Sleb128Bytes | src/dwarf/dwarf_emitter.cpp:214-226 | The emitter's separate encoder gives the same bytes as the buffer's. |
| DwarfEmitter.FunctionMeans | src/dwarf/dwarf_emitter.cpp:230-280 | Read back, a subprogram is the function with its name, range, and each parameter and local in order with name, type meaning and frame offset. |
| DwarfEmitter.VariableMeans | src/dwarf/dwarf_emitter.cpp:281-306 | Read back, a data DIE is the variable with its name, address and type meaning, typed or untyped. |
| DwarfEmitter.SymbolsMean | src/dwarf/dwarf_emitter.cpp:228-312 | The DIEs of all symbols read back as the described symbols in order: functions outside the range and unknown symbols leave none. |
| DwarfEmitter.WriteCompileUnit | src/dwarf/dwarf_emitter.cpp:314-361 | One unit is appended whose back-patched length is the size of its body, and whose root has the producer, path, range and stmt_list given, with children that mean the types and symbols of the unit. |
| DwarfEmitter.EmitDwarf | src/dwarf/dwarf_emitter.cpp:367-394 | Refused exactly for a module without units. Otherwise, while the sections fit 32-bit DWARF, an independent reader of the three sections finds one unit per model unit with lines, in order; each has its path, range and line program, and one entity, in order, for each variable and each function in range, with name, address, type, parameters, locals, and a range that ends at the next symbol. |
| PeView.MaskRoundsUp | src/pe/pe_injector.cpp:38-40 | For every power of two, adding and masking low bits gives the least multiple that is not below. |
| PeView.RoundUp | src/pe/pe_injector.cpp:38-40 | The masked sum is a multiple of the alignment, not below the value and less than one alignment above it. |
| DwarfInjector.CheckHeaders | src/pe/pe_injector.cpp:94-120 | No error exactly when magic numbers, offsets and machine are those of a 64-bit PE image. |
| DwarfInjector.FirstError | src/pe/pe_injector.cpp:94-120 | The error reported is the first, in the order of the checks, that the bytes of the image have. |
| DwarfInjector.SymbolsChecked | src/pe/pe_injector.cpp:149-154 | Where 32-bit arithmetic does not wrap, the check asks that the symbols and the size of their string table lie within the file. |
| PeEdit.CopyAndGrow | src/pe/pe_injector.cpp:216-246 | The headers parse as before but for the larger header size, the shifted symbol pointer and raw pointers; all bytes behind the headers are there, moved by the expansion. |
| PeEdit.ComputeLayout | src/pe/pe_injector.cpp:180-204 | The first free address and file offset: behind every section, the symbols and the file, rounded up. |
| PeNames.BuildStrTab | src/pe/pe_injector.cpp:159-178 | The old table, resized, with each name behind its own offset, terminated. |
| PeNames.NewNameReads | src/pe/pe_injector.cpp:313-318 | The slash-and-decimal name of each offset resolves to exactly that name in the new table. |
| PeNames.DecimalRoundTrip | src/pe/pe_injector.cpp:313-315 | Parsing the decimal digits of a number gives the number. |
| PeView.NameStable | src/pe/pe_injector.cpp:159-178 | A long name resolves to the same string in any table that keeps the old strings. |
| DwarfInjector.RenameStale | src/pe/pe_injector.cpp:255-287 | Exactly the sections whose resolved name starts with .debug become .old_dw; nothing else changes. |
| DwarfInjector.DebugNames | src/pe/pe_injector.cpp:255-287 | Stale are exactly the names that consist of .debug and anything behind it. |
| DwarfInjector.WriteSections | src/pe/pe_injector.cpp:307-338 | Every new header and its data are where the layout says, and no byte outside is touched. |
| DwarfInjector.InjectDwarfSections | src/pe/pe_injector.cpp:68-348 | The exact error for every refused input; otherwise an image with the patched headers, which grew by the least number of whole file alignments that makes room, all old contents moved by that, the new sections holding their data, and the symbols in front of the extended string table. |
| DwarfInjection.InjectionKeepsView | src/pe/pe_injector.cpp:132-246 | Every address an old section backs loads the same byte, whether or not the headers were expanded. |
| DwarfInjection.InjectionLoaded | src/pe/pe_injector.cpp:307-338 | Loading a new section by address gives exactly the supplied bytes, if the padded raw data of each section before it ends before the next one starts. |
| DwarfInjection.InjectionByAddress | src/pe/pe_injector.cpp:307-338 | All new sections are found at their own addresses if and only if the padded raw data of all but the last ends before the next section starts. |
| DwarfInjector.CoarserSpansFit | src/pe/pe_injector.cpp:333-338 | That holds for whatever sections when they are aligned at least as coarsely in memory as in the file. |
| DwarfInjector.FinerOverlaps | src/pe/pe_injector.cpp:307-338 | It fails for two one-byte sections padded to 512 bytes and 16 apart in memory: the first reaches over the address of the second. |
| DwarfInjection.InjectionNames | src/pe/pe_injector.cpp:255-332 | Old names resolve as before unless they start with .debug, and each injected name is the name of its own section and of no other. |
| DwarfInjection.InjectionFoundByName | src/pe/pe_injector.cpp:313-332 | Looking a DWARF section up by name gives the supplied bytes, even if the input had a section of that name. |
| DwarfInjection.InjectionLayout | src/pe/pe_injector.cpp:180-345 | New sections are aligned, and their contents are pairwise disjoint and disjoint from old sections in memory, as their raw data is in the file; headers fit, SizeOfImage covers the contents, and data ends where the symbols begin. With the next two rows, everything the layout chooses is determined. |
| DwarfInjection.InjectionAlignment | src/pe/pe_injector.cpp:132-143 | The header size grows by the least number of whole file alignments that makes room for the new section headers: not at all when they fit. It and every old raw pointer keep their remainder by the alignment. |
| DwarfInjection.InjectionTight | src/pe/pe_injector.cpp:180-209 | No address space is wasted: the first new section starts at the first aligned address behind all old ones, each further one at the first behind its predecessor, and the image ends at the first behind the last. |
| PeEdit.LeastGrowthIsLeast | src/pe/pe_injector.cpp:139-143 | Any other growth by whole alignments that has the room is at least as large. |
| DwarfInjection.InjectionWellFormed | src/pe/pe_injector.cpp:68-348 | The output satisfies every assumption made of an input, so it can be injected into again. |
| DwarfInPe.SectionsArrive | src/pe/pe_injector.cpp:68-348 | The abbreviations, lines and units that a debugger finds by name in the new image are those that were injected, and an empty one is found nowhere, whatever the input had. |
| DwarfInPe.InjectEmitted | src/cli/cli_cmd_dwarf.cpp:252-274 | From the model to the debugger: reading the sections found by name in the image into which the emitted DWARF was injected gives one unit per model unit with lines, in order, each matching it, and the image loads as before. |
| PdbInjector.InjectPdbReference | src/pe/pe_pdb_injector.cpp:74-274 | The exact error for every refused input; otherwise the image, its headers grown by the least number of whole file alignments that makes room for one section, with that section holding the debug directory and RSDS payload, entry 6 of the data directory set to it, and the symbols and strings moved behind. |
| PdbInjection.ReferenceKeepsView | src/pe/pe_pdb_injector.cpp:123-210 | Every address an old section backs loads the same byte. |
| PdbInjection.ReferenceAlignment | src/pe/pe_pdb_injector.cpp:123-133 | The header size grows by the least number of whole file alignments that makes room for one section header, and it and every old raw pointer keep their remainder. |
| PdbInjection.ReferenceReads | src/pe/pe_pdb_injector.cpp:229-264 | Following the data directory by address through the debug directory to the payload gives exactly the GUID, age and file name, for every input image. |
| PdbInjection.ReferenceNames | src/pe/pe_pdb_injector.cpp:212-239 | Old section names resolve as before, and the new section is called .debug. |
| PdbInjection.ReferenceWellFormed | src/pe/pe_pdb_injector.cpp:74-274 | The output satisfies every assumption made of an input. |
| PdbInjection.PdbThenDwarf | src/pe/pe_injector.cpp:216-345 | After a PDB reference and then DWARF sections: the reference still reads, every DWARF section is found by name, and the first image's view is kept. |
| PdbInjection.DwarfThenPdb | src/pe/pe_pdb_injector.cpp:149-274 | The same in the other order. |
| PdbOffsets.ReferenceByOffset | src/pe/pe_pdb_injector.cpp:241-259 | The debug directory that is injected gives, beside the address, the file offset of that address, and reading the file there gives the reference too. |
| PdbOffsets.OffsetsMove | src/pe/pe_injector.cpp:216-246 | Adding DWARF sections moves the file offset of every address that has one by exactly the growth of the headers. |
| PdbOffsets.OffsetAfterDwarf | src/pe/pe_injector.cpp:132-246 | After a PDB reference and then DWARF sections the directory is as it was, and its file offset is still that of its address if and only if the headers had room for the new section headers. |
| Registrar.Context.RegisterAggr | src/cli/cli_cmd_pdb_aggregates.cpp:56-276 | Keeps the invariant and restores the in-progress set; earlier records and cached indices stay. It yields nothing exactly for an aggregate without a record of its own or whose key is on the recursion path, and else the index cached for its key. It terminates by the keys not in progress. |
| Registrar.Context.RegisterFields | src/cli/cli_cmd_pdb_aggregates.cpp:200-263 | Every field has its name, offset, and primitive or link; a missing link of an eligible type means that its target leads back to the aggregate. TypeLookup.FieldLeads and TypeLookup.FieldByMarker say which target that is. |
| Registrar.Context.FindSetBase | src/cli/cli_cmd_pdb_aggregates.cpp:82-96 | The first enum of the same unit that the name is the plural of, and nothing exactly when there is none. |
| Registrar.Context.FindForeign | src/cli/cli_cmd_pdb_aggregates.cpp:240-253 | The search by name, then by hash, finds the first of the name whose low hash half agrees, else the first of the name. |
| Registrar.CopyEnumerators | src/cli/cli_cmd_pdb_aggregates.cpp:151-167 | All enumerators in order, and a bound that any limit admits exactly when it admits every ordinal. |
| Registrar.Context.LookupAggrIdx | src/cli/cli_cmd_pdb_aggregates.cpp:278-290 | At top level a variable of an eligible type always gets a record of its type's key. TypeLookup.VariableLeads says which type that is. |
| Registrar.Context.AddPlaceholder | src/cli/cli_cmd_pdb_modules.cpp:283-288 | Appending a record for a type RSM does not describe keeps the invariant and every cached index. |
| Registrar.Context.AddMethod | src/cli/cli_cmd_pdb_modules.cpp:424-496 | A procedure named unit.class.method becomes the last method of the first class record of that name, or else of the record of the first class so named in the RSM file, which is registered if it has none; otherwise nothing changes. The invariant stays. |
| Registrar.MethodPathOf | src/cli/cli_cmd_pdb_modules.cpp:424-436 | A name splits into a class and a method without dots behind some unit exactly when it has at least two dots. |
| Registrar.StateGrows | src/cli/cli_cmd_pdb_aggregates.cpp:271-275 | Pushing a correct record of a new key and caching its index keeps cache, owners and records in agreement. |
| Registrar.LinksGoBack | src/cli/cli_cmd_pdb_aggregates.cpp:107-134 | In every reachable state each base and nested index is smaller than the record's own. |
| Registrar.KeysPushedOnce | src/cli/cli_cmd_pdb_aggregates.cpp:107-111 | No two records belong to the same key. |
| Registrar.ReachesOn | src/cli/cli_cmd_pdb_aggregates.cpp:119-133 | The keys on the recursion path lead to the target of the link about to be followed. |
| Registrar.AcyclicKeepsLinks | src/cli/cli_cmd_pdb_aggregates.cpp:126-258 | If no chain of references leads back to its start, every base and field link to an eligible type is present and leads to the record of its target. |
| Registrar.FieldLinkKept | src/cli/cli_cmd_pdb_aggregates.cpp:200-258 | Whatever cycles a program has, a field link to an eligible type is present and leads to its record as soon as no references lead from the type back to the owner of the field. |
| Registrar.BaseLinkKept | src/cli/cli_cmd_pdb_aggregates.cpp:126-134 | The same for the link to the base class. |
| Registrar.NoReferenceCycle | src/cli/cli_cmd_pdb_aggregates.cpp:119-121 | Links in the records never lead back, so of any cycle of types at least one link is dropped. |
| Registrar.SetNames | src/cli/cli_cmd_pdb_aggregates.cpp:78-96 | An aggregate counts as a set if and only if its kind is unknown and some enum of its unit has its name without a final s. |
| TypeLookup.FindsTarget | src/cli/cli_cmd_pdb_aggregates.cpp:206-213 | Over finished indexes: if any aggregate of the unit answers to the hash, the search finds one of the unit, the last that owns the hash if there is one; only otherwise it finds one of any unit, again the last owner first; and it finds something if any aggregate answers. |
| TypeLookup.FieldLeads | src/cli/cli_cmd_pdb_aggregates.cpp:206-214 | In the records, a field with a type hash that has a link is linked to the record of that target, for the unit of the record's aggregate. |
| TypeLookup.BaseLeads | src/cli/cli_cmd_pdb_aggregates.cpp:126-133 | The same for a class and its base. |
| TypeLookup.VariableLeads | src/cli/cli_cmd_pdb_aggregates.cpp:278-289 | The same for the record of a variable's type. |
| TypeLookup.SameUnitFirst | src/cli/cli_cmd_pdb_aggregates.cpp:206-213 | So such a record is of the referring unit whenever an aggregate of the unit answers, and owns the hash whenever one of the unit does. |
| TypeLookup.MarkersCount | src/rsm/rsm_reader.cpp:117-126 | The entries of a unit's type table have the even markers from 2 on, in order; no other marker has one. |
| TypeLookup.FieldByMarker | src/cli/cli_cmd_pdb_aggregates.cpp:214-258 | A field with the marker of table entry k is that primitive if its name is one, and otherwise links at most to the first aggregate of the name whose hash agrees, or else the first of the name. |
| TypeRecords.MeaningStays | src/pdb/pdb_writer_types.cpp:36-62 | Appending records changes the meaning of no earlier type index. |
| TypeRecords.AppendMeans | src/pdb/pdb_writer_types.cpp:57-58 | A new record refers only to earlier ones, and its index means the record with its references followed. |
| TypeEmitter.PdbWriter.TypeForSize | src/pdb/pdb_writer_types.cpp:36-62 | An index that means the built-in type of 0, 1, 2, 4 or 8 bytes or else a byte array of the size; a size asked for again adds no record. |
| TypeEmitter.PdbWriter.TypeForKindParts | src/pdb/pdb_writer_types.cpp:66-135 | An index that means the primitive, or the type of the size where CodeView has no such primitive. |
| TypeEmitter.PdbWriter.ResolveTypeIndex | src/pdb/pdb_writer_types.cpp:137-145 | An aggregate already emitted gives its variable type; everything else goes by kind and size. |
| TypeEmitter.PdbWriter.FieldTypeIndex | src/pdb/pdb_writer_types.cpp:184-194 | The index of a field means its aggregate's variable type when that is earlier, and one byte when it is not. |
| TypeEmitter.PdbWriter.EmitSet | src/pdb/pdb_writer_types.cpp:204-234 | The record means a structure with one bit per enumerator at its ordinal. |
| TypeEmitter.PdbWriter.EmitEnum | src/pdb/pdb_writer_types.cpp:242-263 | The record means an enumeration of all enumerators over the type of its width. |
| TypeEmitter.PdbWriter.EmitMethods | src/pdb/pdb_writer_types.cpp:278-358 | Each method gets a function type over the forward-declared class, with its parameters and return type, and is entered under its qualified name. |
| TypeEmitter.PdbWriter.EmitArgList | src/pdb/pdb_writer_types.cpp:315-338 | The list means the parameter types; methods without parameters share one record. |
| TypeEmitter.PdbWriter.CollectMembers | src/pdb/pdb_writer_types.cpp:361-392 | The base, if earlier, then all fields, then all methods, with their meanings and their count. |
| TypeEmitter.PdbWriter.EmitAggregates | src/pdb/pdb_writer_types.cpp:177-422 | For every list of aggregates: both index vectors are as long as the list, each index means its aggregate, records refer only to earlier ones, and method names map to their function types. The next rows say what these meanings are. |
| TypeEmitter.VariableMeans | src/pdb/pdb_writer_types.cpp:411-422 | In the type stream, a variable of a class is a pointer to the class's structure; of anything else it is the structure itself. |
| TypeEmitter.StructureMeans | src/pdb/pdb_writer_types.cpp:361-410 | A class or record is a structure of its kind, name, unique name, size and member count: the base if earlier, all fields, and for classes all methods. |
| TypeEmitter.MethodMeans | src/pdb/pdb_writer_types.cpp:296-358 | A method returns nothing or a 32-bit integer, belongs to the class of the same unique name, takes a pointer to it, and has one argument per parameter. |
| TypeEmitter.EnumMeans | src/pdb/pdb_writer_types.cpp:242-263 | An enum lists all enumerators with their values in order, over the unsigned integer of its width. |
| TypeEmitter.SetMeans | src/pdb/pdb_writer_types.cpp:204-234 | A set is a structure with one bit per enumerator, at its ordinal, in the unsigned integer of its width. |
| TypeEmitter.PlainFieldMeans | src/pdb/pdb_writer_types.cpp:184-194 | A field without a link goes by kind and size, with four bytes for none; one that links to its own or a later aggregate is one byte. |
| TypeEmitter.PlainParameterMeans | src/pdb/pdb_writer_types.cpp:325-332 | A parameter without an aggregate goes by kind and size. |
| TypeEmitter.LastMethodWins | src/pdb/pdb_writer_types.cpp:357 | A qualified name stands for the last method that has it. |
| TypeEmitter.FieldTypeSurvives | src/pdb/pdb_writer_types.cpp:184-194 | For registered aggregates of any program: the emitted member of a field whose eligible type does not lead back to the field's owner has exactly the type of the record registered for it. |
| TypeEmitter.FieldLinkMeans | src/pdb/pdb_writer_types.cpp:184-194 | For any program: every field link that a registered record has is to an earlier record, and the emitted member has exactly the type emitted for that one, a pointer for a class, never the one-byte fallback. |
| TypeEmitter.BaseLinkMeans | src/pdb/pdb_writer_types.cpp:367-373 | Likewise every base link of a registered class is to an earlier record, whose emitted structure is the first member. |
| TypeEmitter.BaseSurvives | src/pdb/pdb_writer_types.cpp:367-373 | Likewise the first member of a class is its eligible base class, if that does not lead back to the class. |
| TypeEmitter.AcyclicTypesSurvive | src/pdb/pdb_writer_types.cpp:177-422 | In a program without cycles of references, every field and every base of an eligible type has the type of its registered record. |
| TypeEmitter.ParameterMeans | src/pdb/pdb_writer_types.cpp:315-338 | In the type stream, a parameter that refers to an aggregate has the type emitted for that aggregate if and only if the aggregate comes before the class of the method. |
| TypeEmitter.LaterParameterLost | src/pdb/pdb_writer_types.cpp:137-145 | A class whose method takes the record behind it: the parameter becomes an unsigned number of eight bytes. |
| TypeEmitter.SizedType | src/pdb/pdb_writer_types.cpp:36-62 | A size alone means the unsigned integer of that size, an address for none, else that many bytes. |
| Primitives.DescribedAsIs | src/dwarf/dwarf_emitter.cpp:79-106 | Each primitive's DWARF base type has the nature and size of its kind. |
| Primitives.WritersAgree | src/pdb/pdb_writer_types.cpp:66-135 | DWARF and PDB describe each primitive with the same nature and size, but for the 80-bit float, which is ten bytes in the PDB. |
| Primitives.BooleanWidth | src/pdb/pdb_writer_types.cpp:77-90 | Booleans of 1, 2, 4 and 8 bytes stay booleans of that size; others are plain bytes. |
| Primitives.LookupPrimitive | src/rsm/rsm_internal.h:102-107 | The loop over the table of Delphi types finds the first entry of the name, or nothing if there is none. |
| Primitives.FoundByName | src/rsm/rsm_internal.h:63-107 | Every entry of the table is found under its name: no two have the same. |
| Primitives.DescribedName | src/dwarf/dwarf_emitter.cpp:79-106 | The name DWARF gives a primitive is that of an entry of its kind and size if and only if it is not the 80-bit float, whose name is that of a 64-bit one. |
| Primitives.TableWidth | src/pdb/pdb_writer_types.cpp:66-135 | A variable of a type of the table has that type's size in the PDB if and only if the type is not Real48, which becomes eight bytes instead of six. |
| LineSlices.FunctionLines | src/pdb/pdb_writer_modules.cpp:359-381 | The slice from the lower bound on is what a pass over all sorted lines selects for the function. |
| LineSlices.SliceIsNaive | src/pdb/pdb_writer_modules.cpp:337-381 | It has the lines that a pass over the unsorted sources selects, each as often, whatever the sort did with equal lines. |
| LineSlices.SortedLines | src/pdb/pdb_writer_modules.cpp:337-356 | A sorted permutation of all lines of all sources, each with its source. |
| SubRecord.ParseSub | src/rsm/rsm_procs_vars.cpp:111-285 | Returns what the positional description of a sub-record gives, whose every success stays within the buffer and has the tag, name and size found there. |
| SubRecord.SubRoundTrip | src/rsm/rsm_procs_vars.cpp:123-283 | A sub-record of any documented form in front of a record tag reads back with its name, type reference, signed offset and length if and only if it is readable: a condition on the parities of its hash and on tag bytes within it. |
| SubRecord.SubWritten | src/rsm/rsm_procs_vars.cpp:123-283 | Nothing else is read: whatever parses as a sub-record, unless its new sub-tag has a second byte, has the bytes of a sub-record of a documented form that the result describes. |
| SubRecord.NameCharacters | src/rsm/rsm_internal.h:139-147 | Name characters are letters, digits, underscore, dot, dollar and at. |
| SubRecord.OldReads | src/rsm/rsm_procs_vars.cpp:186-192 | The older forms, and the two-byte sub-tags of out parameters, always read back. |
| SubRecord.HashMisread | src/rsm/rsm_procs_vars.cpp:192-233 | A six-byte body with hash 0x0102 reads as a primitive with marker 2, wherever it stands. |
| Scanner.WalkBody | src/rsm/rsm_procs_vars.cpp:409-500 | Collects the parameters and locals that the step-by-step description of the walk takes, in order, and ends where it ends. |
| Scanner.ReadProcedure | src/rsm/rsm_procs_vars.cpp:289-404 | Finds a procedure record exactly where its head, its trailer and a sub-record or end marker are in place. |
| Scanner.Reader.ScanProceduresAndVariables | src/rsm/rsm_procs_vars.cpp:69-623 | From offset 0x426 on, procedures are scanned first and in order, which is what the search that the variable scan relies on needs. ScanInvariants.StreamRoundTrip and GlobalVariables.GlobalsRoundTrip say what comes out. |
| Scanner.Reader.ScanProcedures | src/rsm/rsm_procs_vars.cpp:286-510 | The procedures are those of the resynchronising scan from offset 0x426 on. |
| Scanner.Reader.IsInsideProcedure | src/rsm/rsm_procs_vars.cpp:523-532 | Binary search gives the same answer as testing every procedure. |
| Scanner.Reader.ScanVariables | src/rsm/rsm_procs_vars.cpp:534-622 | The variables are those of the scan that skips procedures and passes over decoded records; GlobalVariables says what each is. |
| ScanInvariants.ScanInvariant | src/rsm/rsm_procs_vars.cpp:286-510 | Over any bytes the ranges of procedures are ascending, pairwise disjoint and within the file, and each contains its own sub-records in ascending disjoint ranges, which are its parameters and locals. |
| ScanInvariants.NoProcMissed | src/rsm/rsm_procs_vars.cpp:289-509 | A procedure record can be passed over only if it starts inside an earlier one. |
| ScanInvariants.VariablesOutside | src/rsm/rsm_procs_vars.cpp:534-622 | No variable starts inside a procedure, and no two variable records overlap. |
| ScanInvariants.NoVariableMissed | src/rsm/rsm_procs_vars.cpp:534-622 | A variable record outside all procedures is found, or an earlier one covers its start. |
| GlobalVariables.GlobalRoundTrip | src/rsm/rsm_procs_vars.cpp:540-621 | A written global, in any of its three forms and in front of anything, is read back with its name, address, type and end if and only if the first byte of its type tells the form and, for a plain marker, no bytes that look like a trailer follow. |
| GlobalVariables.GlobalWritten | src/rsm/rsm_procs_vars.cpp:540-621 | Nothing else is read: whatever is read as a global has the bytes of a global of one of the three forms that the result describes. |
| GlobalVariables.GlobalsRoundTrip | src/rsm/rsm_procs_vars.cpp:534-622 | Any number of such globals one behind the other, outside procedures, are found, exactly and in order, and the scan goes on behind them. |
| GlobalVariables.IdMisread | src/rsm/rsm_procs_vars.cpp:579-610 | A global of type id 0x0602 at 0x401000 reads as one of marker 2 at 0x100000, one byte shorter. |
| ScanInvariants.ProcRoundTrip | src/rsm/rsm_procs_vars.cpp:289-503 | A written procedure record, with undecoded bytes in front of and between its sub-records, reads back whole, wherever it stands: name, address, range, nesting, and every parameter and local. |
| ScanInvariants.HeadIff | src/rsm/rsm_procs_vars.cpp:290-346 | A head is recognised exactly where one stands: tag, name of 2 to 200 name characters, one of five sub-tags with its zeros, and the address at its place. |
| ScanInvariants.HeadWritten | src/rsm/rsm_procs_vars.cpp:290-346 | What is read as a head was written as one, with that name, address and nesting. |
| ScanInvariants.ProcIff | src/rsm/rsm_procs_vars.cpp:357-399 | A procedure record is exactly where a head stands and a sub-record, or an end marker that a record follows, starts within the next 96 bytes. |
| ScanInvariants.PadSkipped | src/rsm/rsm_procs_vars.cpp:403-471 | Fewer than 1030 bytes that are neither end markers nor tags of sub-records are passed over between sub-records. |
| ScanInvariants.PadTooLong | src/rsm/rsm_procs_vars.cpp:403-471 | Of 1030 and more the walk gives up, six bytes in, and what is behind is not read. |
| ScanInvariants.LongPad | src/rsm/rsm_procs_vars.cpp:446-471 | Beyond six bytes the walk goes on at the next sub-record or at any end marker, whatever follows it. |
| ScanInvariants.BadSubEnds | src/rsm/rsm_procs_vars.cpp:472-473 | The tag of a sub-record without a whole sub-record, six bytes behind the last one, ends the walk there. |
| ScanInvariants.StreamRoundTrip | src/rsm/rsm_procs_vars.cpp:286-510 | Any number of records one behind the other are found, exactly and in order, and the scan goes on behind them. |
| ScanInvariants.TypeKeptIff | src/rsm/rsm_procs_vars.cpp:472-497 | A parameter or local determines the type reference it was read from if and only if that is a new-style marker or a nonzero new-style hash. |
| ScanInvariants.OldTypeLost | src/rsm/rsm_procs_vars.cpp:472-497 | Two old-style parameters with different markers read as the same variable. |
| AliasIndex.Reader.BuildIndexes | src/rsm/rsm_aggregates.cpp:384-513 | For every hash, and every hash in a unit, the index has the last aggregate that owns it, else the first linked to it, else the first that derives it, else nothing. |
| AliasIndex.OwnHashWins | src/rsm/rsm_aggregates.cpp:386-414 | An own hash always finds the last aggregate that has it, globally and in its unit, whatever aliases there are. |
| AliasIndex.FoundByName | src/rsm/rsm_aggregates.cpp:384-513 | Something is found under a hash exactly if some aggregate has it as its own or as an alias; what is found is the last owner, or has it as an alias while no aggregate owns it. |
| AliasIndex.FoundInUnit | src/rsm/rsm_aggregates.cpp:384-513 | The same for the index of a unit, which finds only aggregates of the unit, and aliases only of hashes that nobody in the unit owns. |
| AliasIndex.DerivedAre | src/rsm/rsm_aggregates.cpp:458-505 | Unless a class header has hash 0: the derived hashes of an aggregate are its linked hash's low byte in front of 8, and the hash of the class headers with that low byte if they all share one and none is linked to directly. |
| AliasIndex.AliasOrder | src/rsm/rsm_aggregates.cpp:403-480 | A hash that nobody owns finds the first aggregate linked to it; only without one, the first that derives it. |
| AliasIndex.ClassifiedAre | src/rsm/rsm_aggregates.cpp:481-512 | An aggregate with a linked hash in a known unit becomes a class if and only if a class header has that hash or the headers of its low byte share one. |
| AliasIndex.HeaderByLowUnique | src/rsm/rsm_aggregates.cpp:489-501 | Unless a class header has hash 0, the scan finds a header's hash exactly when all headers of the low byte share it. |
| AliasIndex.IndexesValid | src/rsm/rsm_reader.cpp:90-101 | Lookups through the finished indexes never leave the list of aggregates. |
| AliasIndex.UnitAnchorFor | src/rsm/rsm_reader.cpp:103-109 | The greatest anchor not behind the offset, or 0 when all are behind it. |
| Prologue.ParsePrologue | src/pe/prologue.h:57-107 | The byte loop computes the count of pushes and the immediate that the decoding lemma is about. |
| Prologue.PrologueDecodes | src/pe/prologue.h:57-107 | For push rbp, any plain or REX.B pushes, and sub rsp in either width, followed by anything, both numbers are recovered if and only if there are at most sixteen extra pushes; of more, sixteen are counted and the frame is taken for empty. |
| Prologue.SeventeenPushes | src/pe/prologue.h:70-107 | Seventeen pushes and a frame of 32 bytes give sixteen pushes and no frame. |
| Prologue.ShortCode | src/pe/prologue.h:59-60 | Code shorter than five bytes, or not starting with push rbp, has no prologue; five bytes are enough. |
| Prologue.PrologueRuns | src/pe/prologue.h:14-43 | Executing those instructions from any state leaves rbp at the entry rsp less 8, less 8 per push, less the frame size, and writes nothing at or above the entry rsp. |
| Frame.OffsetsLead | src/compose/frame.cpp:119-187 | From any entry rsp, rbp after the prologue plus the resolved offset is entry rsp + 8 for Self and the static link, and the recorded distance from the entry rsp for other parameters and for locals. |
| Frame.HomeSlotKept | src/compose/frame.cpp:154-162 | That slot still holds after the prologue what it held at entry. |
| Frame.ResolveFunction | src/compose/frame.cpp:113-190 | The static link first, then every parameter, then every local, each with its offset and resolved data, which the next rows spell out. |
| Frame.FirstKnownWidth | src/compose/frame.cpp:69-109 | A variable has the first width that is known, of its type's name, being Self, its marker and the code that accesses it, and 0 without any; its kind comes with the type name, its aggregate reference with a nonzero id that is no marker. |
| Frame.StaticLinkIs | src/compose/frame.cpp:147-155 | The static link is a parameter of eight bytes in the home slot, called __frame_outer__. |
| Frame.BuildMarkerSizes | src/compose/frame.cpp:23-59 | A marker is kept with a width if and only if some global of it has a valid gap and all that have one have this one, in whatever order they come. |
| SizeSniffer.SniffStackVarSizes | src/pe/size_sniffer.h:42-121 | The scanning loop computes the map that the decoding lemma is about, also where prefixes end the buffer. |
| SizeSniffer.MovReads | src/pe/size_sniffer.h:60-116 | Each mov with a displacement is recorded with it and the operand width of the processor, also when REX.B makes r13 its base, which is no access to the frame. What the scan sees is the frame access of the instruction and its true length if and only if the base is rbp and the instruction is not a 64-bit immediate move with a 16-bit prefix. |
| SizeSniffer.R13Recorded | src/pe/size_sniffer.h:67-107 | 41 89 45 F8, which writes [r13 - 8], is recorded as four bytes of the frame at -8. |
| SizeSniffer.ShortImmediate | src/pe/size_sniffer.h:84-108 | 66 48 C7 45 F8 and four bytes of immediate: the scan goes on after seven of the nine bytes. |
| SizeSniffer.SniffDecodes | src/pe/size_sniffer.h:6-24 | On any concatenation of the eleven documented forms the scan stays on instruction boundaries and returns exactly the first width of each displacement. |
| SizeSniffer.FirstWins | src/pe/size_sniffer.h:48-52 | A displacement is in the result exactly when some instruction uses it, with the width of the first that does. |
| SizeSniffer.OnlyMovs | src/pe/size_sniffer.h:60-116 | Nothing else is recorded: behind optional prefixes there is the opcode of a mov and an operand with a displacement from register 5, within the code. |
| SizeSniffer.NoAccessMissed | src/pe/size_sniffer.h:42-121 | No instruction is passed over: one that is not recorded lies within an earlier one that is. |
| MapAdapter.FindOwner | src/map/map_reader.cpp:546-562 | The walk over dots from the right finds the module whose name is the longest registered dotted prefix. |
| MapAdapter.OwnerUnique | src/map/map_reader.cpp:546-562 | A public has at most one such module. |
| MapAdapter.OwnerStarts | src/map/map_reader.cpp:601-606 | The literal-prefix test that the code repeats for a bucketed public cannot fail. |
| MapAdapter.BucketPublics | src/map/map_reader.cpp:542-562 | Each module's bucket has exactly the publics it owns, in order. |
| MapAdapter.GroupTables | src/map/map_reader.cpp:571-580 | The modules in order of first appearance, each with its tables in order. |
| MapAdapter.OrderOfFirstTables | src/map/map_reader.cpp:571-580 | Units come in the order of their modules' first line tables. |
| MapAdapter.SourceFileId | src/map/map_reader.cpp:520-528 | The index of the path in a list that gains it only if it was missing. |
| MapAdapter.Populate | src/map/map_reader.cpp:517-651 | One unit per module, in order, behind the existing ones: its path, its symbols and its lines, whose file id is the place of its path in a list of sources without duplicates that holds nothing else new. |
| MapUnits.UnitSymbols | src/map/map_reader.cpp:600-646 | A unit's symbols are exactly those of the publics its module owns whose local name is not empty, not unwind data and does not start with a dot: at the address of the first segment of that number, a function exactly in class CODE, and with the local name exactly if a variable. |
| MapUnits.UnitLines | src/map/map_reader.cpp:584-598 | A unit's lines are exactly those of its module's tables, at the addresses of their segments, in the file of the unit's path. |
| MapAdapter.NothingLost | src/map/map_reader.cpp:582-649 | Over all units, every line record appears exactly once, and so does the symbol of every public that a module owns. |
| Grouping.Conservation | src/map/map_reader.cpp:582-649 | Grouping keyed items by a duplicate-free list of all their keys neither loses nor doubles any. |

## Left out

- Reading and writing files, console reports, timing, environment variables and the generation of GUIDs.
- LLVM's builders for PDB, MSF, DBI and GSI streams, symbol serialisation and MD5: the type stream is an append-only list, and a field list is one record however long it is.
- DWARF for arrays nested more than one level and names with NUL: `CuOk` excludes them. Record, enum and pointer types get no reference, as in the code.
- DWARF sections of 4 GiB and more: the 32-bit format cannot hold them, so the round trip is stated below that size.
- DwarfInjector.InjectDwarfSections: for inputs that pass the checks it assumes a well-formed image (section table within SizeOfHeaders within the file, raw data and symbols behind the headers, a whole string table, long names that are terminated, alignments that are powers of two) whose extension overflows no 32-bit field and keeps the string table within ten million bytes, the seven digits a name has room for.
- PdbInjector.InjectPdbReference: assumes the same of its input; the file name has no NUL.
- PeView.RoundUp: computes without the 32-bit wrap of the code, which cannot happen below the sizes that the injectors assume.
- DwarfInjector.SpansFit: what a debugger sees by name needs no such condition; only loading the DWARF sections by address does, for images whose sections are aligned more finely in memory than in the file.
- DwarfInPe.InjectEmitted: takes the emitted sections as given, with what `DwarfEmitter.EmitDwarf` ensures of them.
- Data hidden in the slack of the headers, and whether expanded headers reach the first section's address.
- The order of equal keys in a hash multimap is a parameter of the registrar (`RsmModel.Rsm.byName`), and so are the per-unit type tables. `RsmModel.Rsm.primitives` and `Frame.Sizes.primitives` stand for the table in `Primitives`.
- Registrar.Context.AddMethod: takes the resolved parameters of the procedure and whether it has a `Result` as given.
- Parsing of 0x2A, 0x2C, 0x25, 0x31, 0x47 and 0x66 records, and the attachment of fields, enumerators and base classes to aggregates, which later records may overwrite. Whether Delphi writes what the reverse-engineered format says.
- SubRecord.SubRoundTrip: new-style bodies need a record tag behind them, as the lookahead does; a body at the very end of the buffer is not read.
- SubRecord.SubWritten: a body whose new sub-tag has a second byte parses, although no documented form has one; it is excluded.
- ScanInvariants.ProcRoundTrip: undecoded bytes contain no tag of a sub-record and no end marker, and behind a new-style sub-record they start with the tag of another kind of record; other bytes may pass or not, by what they look like.
- Prologue.PrologueRuns: models register and memory effects of four instructions; flags are not modelled, and addresses wrap at 64 bits.
- Frame.ResolveFunction: offsets are unbounded integers; frames near two gigabytes would overflow in the code.
- The map parser and its line-number grammar.
- The adjuster-thunk scan and section contributions, whose properties are easy beside the scans modelled here.
- Dumps, NatVis files, the filter for library names, source-path search, diagnostic commands, and the editor extension.
