/** From the stack offsets of an RSM procedure record to addresses relative to `rbp`, and from the
    addresses of globals to the widths of type markers. */
module Frame {
  import opened Bytes
  import opened Model
  import opened Search
  import Prologue
  import RsmModel
  import Scanner
  import SizeSniffer

  // ----- Marker widths ---------------------------------------------------------------------------------

  type Globals = seq<Scanner.Variable>

  const MAX_GAP := 16

  predicate Counts(v: Scanner.Variable) {
    v.isPrimitive && v.address != 0
  }

  /** The next primitive global above address `a` is `g` bytes on, near enough to tell a width. */
  ghost predicate IsGap(vars: Globals, a: nat, g: nat) {
    && 0 < g <= 16
    && (exists w <- vars :: Counts(w) && w.address == a + g)
    && (forall w <- vars | Counts(w) && w.address > a :: a + g <= w.address)
  }

  /** Some global with the marker has the gap. */
  ghost predicate HasGap(vars: Globals, i: nat, marker: u8, g: nat)
    requires i < |vars|
  {
    Counts(vars[i]) && vars[i].typeMarker == marker && IsGap(vars, vars[i].address, g)
  }

  /** Some global of the marker has a valid gap, and all that have one have the same. */
  ghost predicate Agreed(vars: Globals, marker: u8, g: nat) {
    && (exists i | 0 <= i < |vars| :: HasGap(vars, i, marker, g))
    && (forall i, h | 0 <= i < |vars| && HasGap(vars, i, marker, h) :: h == g)
  }

  /** The addresses of the primitive globals, ascending, each once. */
  method SortedAddresses(vars: Globals) returns (s: seq<nat>)
    ensures Ascending(s)
    ensures forall a :: a in s <==> exists w <- vars :: Counts(w) && w.address == a
  {
    s := [];
    for i := 0 to |vars|
      invariant Ascending(s)
      invariant forall a <- s :: exists j | 0 <= j < i :: Counts(vars[j]) && vars[j].address == a
      invariant forall j | 0 <= j < i && Counts(vars[j]) :: vars[j].address in s
    {
      if vars[i].isPrimitive && vars[i].address != 0 {
        var k := UpperBound(s, vars[i].address);
        if k == 0 || s[k - 1] != vars[i].address {
          s := Inserted(s, k, vars[i].address);
        }
      }
    }
    forall a | exists w <- vars :: Counts(w) && w.address == a ensures a in s {
      var w :| w in vars && Counts(w) && w.address == a;
    }
  }

  function Inserted(s: seq<nat>, k: nat, a: nat): (r: seq<nat>)
    requires Ascending(s) && k <= |s|
    requires (forall i | 0 <= i < k :: s[i] < a) && (forall i | k <= i < |s| :: a < s[i])
    ensures Ascending(r) && forall b :: b in r <==> b in s || b == a
  {
    assert forall b :: b in s <==> b in s[..k] || b in s[k..];
    s[..k] + [a] + s[k..]
  }

  method GapAbove(ghost vars: Globals, s: seq<nat>, a: nat) returns (gap: Option<nat>)
    requires Ascending(s) && forall b :: b in s <==> exists w <- vars :: Counts(w) && w.address == b
    ensures gap.Some? ==> IsGap(vars, a, gap.value)
    ensures forall g: nat :: IsGap(vars, a, g) ==> gap == Some(g)
  {
    var k := UpperBound(s, a);
    gap := None;
    if k < |s| {
      assert s[k] in s;
      forall w | w in vars && Counts(w) && w.address > a ensures s[k] <= w.address {
        assert w.address in s;
        var i :| 0 <= i < |s| && s[i] == w.address;
        assert i >= k;
      }
      if s[k] - a <= MAX_GAP {
        gap := Some(s[k] - a);
      }
    }
    forall g: nat | IsGap(vars, a, g) ensures gap == Some(g) {
      assert a + g in s;
    }
  }

  /** A marker is kept exactly when all valid gaps of its globals agree, in whatever order they come. */
  method BuildMarkerSizes(vars: Globals) returns (sizes: map<u8, nat>)
    ensures forall m: u8, g: nat :: m in sizes && sizes[m] == g <==> Agreed(vars, m, g)
  {
    hide IsGap, Ascending;
    sizes := map[];
    var addresses := SortedAddresses(vars);
    var conflicting: set<u8> := {};
    for i := 0 to |vars|
      invariant forall m <- sizes :: exists j | 0 <= j < i :: HasGap(vars, j, m, sizes[m])
      invariant forall j, m, g | 0 <= j < i && HasGap(vars, j, m, g) :: m in sizes && (sizes[m] == g || m in conflicting)
      invariant forall m <- conflicting ::
                  m in sizes && exists j, g | 0 <= j < i && HasGap(vars, j, m, g) :: g != sizes[m]
    {
      var v := vars[i];
      if v.isPrimitive && v.address != 0 {
        var gap := GapAbove(vars, addresses, v.address);
        if gap.Some? {
          assert HasGap(vars, i, v.typeMarker, gap.value);
          if v.typeMarker !in sizes {
            sizes := sizes[v.typeMarker := gap.value];
          } else if sizes[v.typeMarker] != gap.value {
            conflicting := conflicting + {v.typeMarker};
          }
        }
      }
    }
    sizes := map m | m in sizes && m !in conflicting :: sizes[m];
  }

  // ----- Frames -------------------------------------------------------------------------------------------

  /** A sub-record's variable with its type name and its unit's anchor, where they are known. */
  datatype FrameVar = FrameVar(raw: Scanner.Variable, pascalType: string, anchor: u64)

  datatype Procedure = Procedure(params: seq<FrameVar>, locals: seq<FrameVar>, hasStaticLink: bool)

  datatype ResolvedVar = ResolvedVar(
    name: bytes, rbpOffset: int, byteSize: nat, primKind: Option<PrimitiveKind>,
    isParam: bool, isSelf: bool, isStaticLink: bool, aggregateHash: u16, anchor: u64)

  /** The sources a variable's width can come from besides its type name. */
  datatype Sizes = Sizes(primitives: map<string, RsmModel.Primitive>, markers: map<u8, nat>, sniffed: SizeSniffer.Widths)

  // "Self" and "__frame_outer__".
  const SELF: bytes := [0x53, 0x65, 0x6C, 0x66]
  const FRAME_OUTER: bytes := [0x5F, 0x5F, 0x66, 0x72, 0x61, 0x6D, 0x65, 0x5F, 0x6F, 0x75, 0x74, 0x65, 0x72, 0x5F, 0x5F]

  predicate IsSelf(v: FrameVar) {
    v.raw.name == SELF || v.raw.typeMarker == 0x29 || v.raw.typeMarker == 0xD5
  }

  /** Division by two toward zero. */
  function Half(x: int): (h: int)
    ensures if x >= 0 then 0 <= x - 2 * h <= 1 else -1 <= x - 2 * h <= 0
  {
    if x < 0 then -(-x / 2) else x / 2
  }

  function ResolveSize(v: FrameVar, offset: int, sizes: Sizes): nat {
    if IsSelf(v) then 8
    else if v.raw.typeMarker in sizes.markers then sizes.markers[v.raw.typeMarker]
    else if offset in sizes.sniffed then sizes.sniffed[offset]
    else 0
  }

  /** The offsets, from the number of extra pushes and the size of the frame. */
  function HomeOffset(p: Prologue.ParsedPrologue): int {
    p.subRsp as int + 16 + 8 * p.extraPushes
  }

  function ParamOffset(p: Prologue.ParsedPrologue, v: FrameVar): int {
    if IsSelf(v) then HomeOffset(p) else p.subRsp as int + 8 * p.extraPushes + Half(v.raw.stackOffset)
  }

  function LocalOffset(p: Prologue.ParsedPrologue, v: FrameVar): int {
    p.subRsp as int - 8 * p.extraPushes + Half(v.raw.stackOffset)
  }

  function Resolved(v: FrameVar, offset: int, isParam: bool, sizes: Sizes): (r: ResolvedVar)
    ensures r.rbpOffset == offset && r.isParam == isParam && r.isSelf == (isParam && IsSelf(v)) && !r.isStaticLink
  {
    var named := v.pascalType != "" && v.pascalType in sizes.primitives;
    var composite := !v.raw.isPrimitive && v.raw.inlineTypeId != 0;
    ResolvedVar(v.raw.name, offset,
                if named then sizes.primitives[v.pascalType].byteSize else ResolveSize(v, offset, sizes),
                if named then Some(sizes.primitives[v.pascalType].kind) else None,
                isParam, isParam && IsSelf(v), false,
                if composite then v.raw.inlineTypeId else 0, if composite then v.anchor else 0)
  }

  /** The widths that are known for a variable, from the most to the least trusted source: its type's name, being
      `Self`, its marker's globals, the code that accesses it. */
  function KnownWidths(v: FrameVar, offset: int, sizes: Sizes): (r: seq<Option<nat>>)
    ensures |r| == 4
  {
    [if v.pascalType != "" && v.pascalType in sizes.primitives then Some(sizes.primitives[v.pascalType].byteSize as nat)
     else None,
     if v.raw.name == Ascii("Self") || v.raw.typeMarker in {0x29, 0xD5} then Some(8) else None,
     if v.raw.typeMarker in sizes.markers then Some(sizes.markers[v.raw.typeMarker]) else None,
     if offset in sizes.sniffed then Some(sizes.sniffed[offset]) else None]
  }

  /** A variable has the first width that is known, and none without any. The kind comes with the name, and the
      aggregate reference with a nonzero id that is no marker. */
  lemma FirstKnownWidth(v: FrameVar, offset: int, isParam: bool, sizes: Sizes, k: nat)
    requires k <= 4 && forall j | 0 <= j < k :: KnownWidths(v, offset, sizes)[j].None?
    ensures var r, known := Resolved(v, offset, isParam, sizes), KnownWidths(v, offset, sizes);
            && (k == 4 ==> r.byteSize == 0)
            && (k < 4 && known[k].Some? ==> r.byteSize == known[k].value)
            && r.name == v.raw.name && (r.primKind.Some? <==> known[0].Some?)
            && (r.primKind.Some? ==> r.primKind.value == sizes.primitives[v.pascalType].kind)
            && (r.aggregateHash != 0 <==> !v.raw.isPrimitive && v.raw.inlineTypeId != 0)
            && (r.aggregateHash != 0 ==> r.aggregateHash == v.raw.inlineTypeId && r.anchor == v.anchor)
  {
    NamesSpelled();
    hide Ascii;
    var known := KnownWidths(v, offset, sizes);
    assert k > 0 ==> known[0].None?;
    assert k > 1 ==> known[1].None?;
    assert k > 2 ==> known[2].None?;
    assert k > 3 ==> known[3].None?;
  }

  function StaticLink(p: Prologue.ParsedPrologue): ResolvedVar {
    ResolvedVar(FRAME_OUTER, HomeOffset(p), 8, None, true, false, true, 0, 0)
  }

  lemma NamesSpelled()
    ensures SELF == Ascii("Self") && FRAME_OUTER == Ascii("__frame_outer__")
  {
  }

  /** The static link is a parameter as wide as a pointer, in the home slot of `rcx`, and nothing else is known of it. */
  lemma StaticLinkIs(p: Prologue.ParsedPrologue)
    ensures var r := StaticLink(p);
            && r.name == Ascii("__frame_outer__") && r.byteSize == 8 && r.isParam && r.isStaticLink && !r.isSelf
            && r.rbpOffset == HomeOffset(p) && r.primKind == None && r.aggregateHash == 0
  {
    hide Ascii;
    NamesSpelled();
  }

  /** The static link of a nested function, then the parameters, then the locals. */
  method ResolveFunction(proc: Procedure, code: bytes, primitives: map<string, RsmModel.Primitive>,
                         markerSizes: map<u8, nat>)
    returns (prologue: Prologue.ParsedPrologue, vars: seq<ResolvedVar>)
    ensures prologue == Prologue.PrologueOf(code)
    ensures var first := if proc.hasStaticLink then 1 else 0; var np := |proc.params|;
            var sizes := Sizes(primitives, markerSizes, SizeSniffer.SniffFrom(code, 0, map[]));
            && |vars| == first + np + |proc.locals|
            && (proc.hasStaticLink ==> vars[0] == StaticLink(prologue))
            && (forall i | 0 <= i < np ::
                  vars[first + i] == Resolved(proc.params[i], ParamOffset(prologue, proc.params[i]), true, sizes))
            && (forall i | 0 <= i < |proc.locals| ::
                  vars[first + np + i] == Resolved(proc.locals[i], LocalOffset(prologue, proc.locals[i]), false, sizes))
  {
    hide Prologue.PrologueOf, SizeSniffer.SniffFrom, Resolved, ParamOffset, LocalOffset, StaticLink;
    prologue := Prologue.ParsePrologue(code);
    var sniffed := SizeSniffer.SniffStackVarSizes(code);
    var sizes := Sizes(primitives, markerSizes, sniffed);
    vars := if proc.hasStaticLink then [StaticLink(prologue)] else [];
    var first := |vars|;
    for i := 0 to |proc.params|
      invariant |vars| == first + i && (proc.hasStaticLink ==> vars[0] == StaticLink(prologue))
      invariant forall j | 0 <= j < i ::
                  vars[first + j] == Resolved(proc.params[j], ParamOffset(prologue, proc.params[j]), true, sizes)
    {
      vars := vars + [Resolved(proc.params[i], ParamOffset(prologue, proc.params[i]), true, sizes)];
    }
    ghost var before := vars;
    for i := 0 to |proc.locals|
      invariant |vars| == |before| + i && vars[..|before|] == before
      invariant forall j | 0 <= j < i ::
                  vars[|before| + j] == Resolved(proc.locals[j], LocalOffset(prologue, proc.locals[j]), false, sizes)
    {
      vars := vars + [Resolved(proc.locals[i], LocalOffset(prologue, proc.locals[i]), false, sizes)];
    }
    assert forall k | 0 <= k < |before| :: vars[k] == vars[..|before|][k];
  }

  // ----- Where the offsets lead --------------------------------------------------------------------------------

  /** Running a prologue of at most sixteen extra pushes and then adding the resolved offset to `rbp` leads,
      from any entry `rsp`: for Self and the static link to the slot above the return address; for other
      parameters and for locals to the recorded place relative to the entry `rsp`. */
  lemma OffsetsLead(p: Prologue.Shape, rest: bytes, s: Prologue.State, v: FrameVar) returns (t: Prologue.State)
    requires Prologue.ShapeOk(p) && |p.pushes| <= Prologue.MAX_PUSHES && Prologue.StateOk(s)
    ensures Prologue.StateOk(t) && Prologue.Run(Prologue.ShapeBytes(p), s) == Some(t)
    ensures var parsed := Prologue.PrologueOf(Prologue.ShapeBytes(p) + rest);
            var entry, rbp := s.regs[Prologue.RSP], t.regs[Prologue.RBP];
            && Prologue.Moved(rbp, HomeOffset(parsed)) == Prologue.Moved(entry, 8)
            && (IsSelf(v) ==> Prologue.Moved(rbp, ParamOffset(parsed, v)) == Prologue.Moved(entry, 8))
            && (!IsSelf(v) ==>
                  Prologue.Moved(rbp, ParamOffset(parsed, v)) == Prologue.Moved(entry, Half(v.raw.stackOffset) - 8))
            && Prologue.Moved(rbp, LocalOffset(parsed, v))
               == Prologue.Moved(entry, Half(v.raw.stackOffset) - 8 - 16 * |p.pushes|)
  {
    hide Prologue.Run, Prologue.PrologueOf, Prologue.ShapeBytes, Prologue.Moved, IsSelf, Half;
    t := Prologue.PrologueRuns(p, s);
    Prologue.PrologueDecodes(p, rest);
    var parsed := Prologue.PrologueOf(Prologue.ShapeBytes(p) + rest);
    var entry, down := s.regs[Prologue.RSP], -8 - 8 * |p.pushes| - p.size;
    Prologue.MovedTwice(entry, down, HomeOffset(parsed));
    Prologue.MovedTwice(entry, down, ParamOffset(parsed, v));
    Prologue.MovedTwice(entry, down, LocalOffset(parsed, v));
  }

  /** The slot above the return address still holds what it held at entry. */
  lemma HomeSlotKept(p: Prologue.Shape, s: Prologue.State) returns (t: Prologue.State)
    requires Prologue.ShapeOk(p) && |p.pushes| <= Prologue.MAX_PUSHES && Prologue.StateOk(s)
    ensures Prologue.StateOk(t) && Prologue.Run(Prologue.ShapeBytes(p), s) == Some(t)
    ensures Prologue.Kept(s, t, Prologue.Moved(s.regs[Prologue.RSP], 8))
  {
    hide Prologue.Run, Prologue.ShapeBytes, Prologue.Moved;
    t := Prologue.PrologueRuns(p, s);
  }
}
