/** What a DIE forest is in bytes, and the proof that the reader inverts it:
    same tree, same values, and each DIE at the offset where it was written. */
module DieWriter {
  import opened Bytes
  import opened DwarfForms
  import opened DieReader

  /** A DIE to write: its abbreviation code, its values and its children. */
  datatype Node = Node(code: nat, vals: seq<Val>, hasKids: bool, kids: seq<Node>)

  function EncForest(ns: seq<Node>): bytes {
    if ns == [] then []
    else EncNode(ns[0]) + EncForest(ns[1..])
  }

  function EncNode(n: Node): bytes {
    Uleb(n.code) + EncVals(n.vals) + if n.hasKids then EncForest(n.kids) + [0] else []
  }

  /** The nodes are declared in the table with the forms their values have. */
  predicate Declared(t: AbbrevTable, ns: seq<Node>) {
    forall i | 0 <= i < |ns| :: NodeDeclared(t, ns[i])
  }

  predicate NodeDeclared(t: AbbrevTable, n: Node) {
    && n.code > 0 && n.code in t && t[n.code].hasChildren == n.hasKids
    && t[n.code].forms == FormsOf(n.vals)
    && (forall v <- n.vals :: Fits(v))
    && (!n.hasKids ==> n.kids == [])
    && Declared(t, n.kids)
  }

  /** The tree a reader must find, when the first node starts at `off`. */
  function Locate(t: AbbrevTable, ns: seq<Node>, off: nat): (r: seq<Die>)
    requires Declared(t, ns)
    ensures |r| == |ns|
  {
    if ns == [] then []
    else
      [LocateNode(t, ns[0], off)] + Locate(t, ns[1..], off + |EncNode(ns[0])|)
  }

  function LocateNode(t: AbbrevTable, n: Node, off: nat): Die
    requires NodeDeclared(t, n)
  {
    var a := t[n.code];
    Die(off, a.tag, a.names, n.vals, Locate(t, n.kids, off + |Uleb(n.code)| + |EncVals(n.vals)|))
  }

  /** Reading one DIE: its code and values, then its children, then its later siblings. */
  lemma ReadOne(t: AbbrevTable, code: nat, vals: seq<Val>, s2: bytes, kids: seq<Die>, after: bytes,
                more: seq<Die>, rest: bytes, end: nat, top: bool)
    requires code > 0 && code in t && t[code].forms == FormsOf(vals) && forall v <- vals :: Fits(v)
    requires |Uleb(code) + EncVals(vals) + s2| <= end
    requires |after| <= |s2|
    requires if t[code].hasChildren then ReadDies(t, s2, end, false) == Got(kids, after) else s2 == after && kids == []
    requires ReadDies(t, after, end, top) == Got(more, rest)
    ensures var s := Uleb(code) + EncVals(vals) + s2;
            var d := Die(end - |s|, t[code].tag, t[code].names, vals, kids);
            ReadDies(t, s, end, top) == Got([d] + more, rest)
  {
    hide Uleb, ReadUleb, EncVals, ReadForms, Fits, FormsOf;
    var s := Uleb(code) + EncVals(vals) + s2;
    var s1 := EncVals(vals) + s2;
    assert s == Uleb(code) + s1;
    UlebRoundTrip(code, s1);
    ReadFormsEncoded(vals, s2);
  }

  /** Reading the written forest, with `tail` ending the siblings, finds the tree at its offsets. */
  lemma {:induction false} ReadForest(t: AbbrevTable, ns: seq<Node>, tail: bytes, rest: bytes, end: nat, top: bool)
    requires Declared(t, ns)
    requires |EncForest(ns) + tail| <= end
    requires ReadDies(t, tail, end, top) == Got([], rest)
    ensures ReadDies(t, EncForest(ns) + tail, end, top) == Got(Locate(t, ns, end - |EncForest(ns) + tail|), rest)
  {
    hide ReadDies, Uleb, EncVals, Fits, FormsOf, EncForest, EncNode, Locate;
    LocateSplit(t, ns, end - |EncForest(ns) + tail|);
    if ns == [] {
      assert EncForest(ns) + tail == tail by { NoForestBytes(); }
    } else {
      var n := ns[0];
      var after := EncForest(ns[1..]) + tail;
      var kidBytes := if n.hasKids then EncForest(n.kids) + [0] else [];
      var s2 := kidBytes + after;
      NodeThenRest(n, ns, tail);
      ReadForest(t, ns[1..], tail, rest, end, top);
      if n.hasKids {
        ReadNull(t, after, end);
        assert EncForest(n.kids) + ([0] + after) == s2;
        ReadForest(t, n.kids, [0] + after, after, end, false);
      } else {
        assert s2 == after;
        LocateSplit(t, n.kids, end - |s2|);
      }
      var kids := Locate(t, n.kids, end - |s2|);
      var more := Locate(t, ns[1..], end - |after|);
      ReadOne(t, n.code, n.vals, s2, kids, after, more, rest, end, top);
    }
  }

  lemma NoForestBytes()
    ensures EncForest([]) == []
  {
  }

  lemma LocateSplit(t: AbbrevTable, ns: seq<Node>, off: nat)
    requires Declared(t, ns)
    ensures ns == [] ==> Locate(t, ns, off) == []
    ensures ns != [] ==>
              NodeDeclared(t, ns[0]) && Locate(t, ns, off)
                                        == [LocateNode(t, ns[0], off)] + Locate(t, ns[1..], off + |EncNode(ns[0])|)
  {
    hide EncNode, LocateNode;
  }

  lemma NodeThenRest(n: Node, ns: seq<Node>, tail: bytes)
    requires ns != [] && n == ns[0]
    ensures EncForest(ns) + tail
         == Uleb(n.code) + EncVals(n.vals)
            + ((if n.hasKids then EncForest(n.kids) + [0] else []) + (EncForest(ns[1..]) + tail))
    ensures |EncNode(n)| == |Uleb(n.code) + EncVals(n.vals)| + if n.hasKids then |EncForest(n.kids)| + 1 else 0
  {
    hide Uleb, EncVals;
    var kids := if n.hasKids then EncForest(n.kids) + [0] else [];
    var rest := EncForest(ns[1..]);
    assert EncForest(ns) == EncNode(n) + rest && EncNode(n) == Uleb(n.code) + EncVals(n.vals) + kids;
    hide EncForest, EncNode;
    Regroup4(Uleb(n.code) + EncVals(n.vals), kids, rest, tail);
  }

  lemma Regroup4(a: bytes, b: bytes, c: bytes, d: bytes)
    ensures a + b + c + d == a + (b + (c + d))
  {
  }

  lemma ReadNull(t: AbbrevTable, after: bytes, end: nat)
    requires 1 + |after| <= end
    ensures ReadDies(t, [0] + after, end, false) == Got([], after)
  {
    assert ([0] + after)[1..] == after;
  }

  lemma {:induction false} EncForestConcat(ns: seq<Node>, ms: seq<Node>)
    ensures EncForest(ns + ms) == EncForest(ns) + EncForest(ms)
  {
    hide EncNode;
    if ns == [] {
      assert ns + ms == ms;
    } else {
      assert (ns + ms)[1..] == ns[1..] + ms;
      EncForestConcat(ns[1..], ms);
    }
  }

  lemma {:induction false} LocateConcat(t: AbbrevTable, ns: seq<Node>, ms: seq<Node>, off: nat)
    requires Declared(t, ns) && Declared(t, ms)
    ensures Declared(t, ns + ms)
    ensures Locate(t, ns + ms, off) == Locate(t, ns, off) + Locate(t, ms, off + |EncForest(ns)|)
  {
    hide EncNode, NodeDeclared, LocateNode;
    if ns == [] {
      assert ns + ms == ms;
    } else {
      assert (ns + ms)[1..] == ns[1..] + ms;
      LocateConcat(t, ns[1..], ms, off + |EncNode(ns[0])|);
    }
  }

  /** The DIEs of a forest start inside its bytes. */
  lemma {:induction false} LocateBounds(t: AbbrevTable, ns: seq<Node>, off: nat)
    requires Declared(t, ns)
    ensures forall d <- Locate(t, ns, off) :: off <= d.off < off + |EncForest(ns)|
  {
    if ns != [] {
      LocateBounds(t, ns[1..], off + |EncNode(ns[0])|);
    }
  }

  // ----- Units -------------------------------------------------------------------------------

  function UnitBody(abbrevOff: u32, root: Node): bytes {
    Le(5, 2) + [UT_COMPILE, 8] + Le(abbrevOff, 4) + EncNode(root)
  }

  /** Where the root DIE of the unit at `off` starts: after `unit_length` and the header. */
  const HEADER_SIZE := 12

  lemma ParseWritten(t: AbbrevTable, off: nat, root: Node, abbrevSection: bytes, later: bytes)
    requires NodeDeclared(t, root)
    requires ReadAbbrevs(abbrevSection) == Got(t, later)
    ensures ParseUnit(RawUnit(off, UnitBody(0, root)), abbrevSection) == Some(LocateNode(t, root, off + HEADER_SIZE))
  {
    hide Le, FromLe, EncNode, ReadAbbrevs, ReadDies, NodeDeclared, LocateNode;
    var body := UnitBody(0, root);
    UnitHeaderFields(root);
    assert abbrevSection[0..] == abbrevSection;
    RootReads(t, root, off + 4 + |body|);
  }

  lemma UnitHeaderFields(root: Node)
    ensures var body := UnitBody(0, root);
            && |body| == 8 + |EncNode(root)|
            && FromLe(body[..2]) == 5 && body[2] == UT_COMPILE && body[3] == 8
            && FromLe(body[4..8]) == 0 && body[8..] == EncNode(root)
  {
    hide Le, FromLe, EncNode;
    var body := UnitBody(0, root);
    Pow256Values();
    LeRoundTrip(5, 2);
    LeRoundTrip(0, 4);
    SmallMod(5, Pow256(2));
    SmallMod(0, Pow256(4));
    assert body[..2] == Le(5, 2) && body[4..8] == Le(0, 4) && body[8..] == EncNode(root);
  }

  lemma RootReads(t: AbbrevTable, root: Node, end: nat)
    requires NodeDeclared(t, root) && |EncNode(root)| <= end
    ensures ReadDies(t, EncNode(root), end, true) == Got([LocateNode(t, root, end - |EncNode(root)|)], [])
  {
    hide NodeDeclared, LocateNode, EncNode;
    var ns := [root];
    assert EncForest(ns) == EncNode(root) by {
      assert EncForest([]) == [];
      assert ns[1..] == [];
      assert EncNode(root) + [] == EncNode(root);
    }
    assert EncForest(ns) + [] == EncForest(ns);
    ReadForest(t, ns, [], [], end, true);
    assert Locate(t, ns, end - |EncNode(root)|) == [LocateNode(t, root, end - |EncNode(root)|)] by {
      assert ns[1..] == [];
    }
  }

  /** Appending a unit after its length adds exactly that unit to the split section. */
  lemma {:induction false} SplitAppended(s: bytes, end: nat, body: bytes)
    requires |s| <= end && |body| < 0xFFFF_FFF0
    requires SplitUnits(s, end).Some?
    ensures SplitUnits(s + Le(|body|, 4) + body, end + 4 + |body|)
         == Some(SplitUnits(s, end).value + [RawUnit(end, body)])
    decreases |s|
  {
    hide Le, ReadUnitLength;
    var more := s + Le(|body|, 4) + body;
    if s == [] {
      ReadUnitAt([], body, []);
      var none: bytes := [];
      assert (none + Le(|body|, 4) + body + none)[0..] == more;
      assert SplitUnits([], end + 4 + |body|) == Some([]);
      assert [RawUnit(end, body)] + [] == [] + [RawUnit(end, body)];
    } else {
      assert ReadUnitLength(s).Got?;
      LengthReadPrefix(s, Le(|body|, 4) + body);
      var first, rest := ReadUnitLength(s).item, ReadUnitLength(s).rest;
      SplitAppended(rest, end, body);
      assert more == s + (Le(|body|, 4) + body);
      assert rest + (Le(|body|, 4) + body) == rest + Le(|body|, 4) + body;
      var us := SplitUnits(rest, end).value;
      assert [RawUnit(end - |s|, first)] + (us + [RawUnit(end, body)])
      == [RawUnit(end - |s|, first)] + us + [RawUnit(end, body)];
    }
  }

  lemma LengthReadPrefix(s: bytes, t: bytes)
    requires ReadUnitLength(s).Got?
    ensures ReadUnitLength(s + t)
         == Got(ReadUnitLength(s).item, ReadUnitLength(s).rest + t)
  {
    hide FromLe;
    assert (s + t)[..4] == s[..4] && (s + t)[4..] == s[4..] + t;
    var n := FromLe(s[..4]);
    assert (s[4..] + t)[..n] == s[4..][..n] && (s[4..] + t)[n..] == s[4..][n..] + t;
  }
}
