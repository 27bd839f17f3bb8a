/** A reader of DWARF v5 debugging information entries: abbreviation tables (section 7.5.3),
    unit headers (7.5.1) and DIE trees (7.5.2), with each DIE's offset in its section. */
module DieReader {
  import opened Bytes
  import opened DwarfForms

  // Tags and attributes (sections 7.5.3 and 7.5.4).
  const TAG_ARRAY_TYPE := 0x01
  const TAG_FORMAL_PARAMETER := 0x05
  const TAG_COMPILE_UNIT := 0x11
  const TAG_SUBRANGE_TYPE := 0x21
  const TAG_BASE_TYPE := 0x24
  const TAG_SUBPROGRAM := 0x2E
  const TAG_VARIABLE := 0x34

  const AT_LOCATION := 0x02
  const AT_NAME := 0x03
  const AT_BYTE_SIZE := 0x0B
  const AT_STMT_LIST := 0x10
  const AT_LOW_PC := 0x11
  const AT_HIGH_PC := 0x12
  const AT_LANGUAGE := 0x13
  const AT_COMP_DIR := 0x1B
  const AT_PRODUCER := 0x25
  const AT_UPPER_BOUND := 0x2F
  const AT_ENCODING := 0x3E
  const AT_EXTERNAL := 0x3F
  const AT_FRAME_BASE := 0x40
  const AT_TYPE := 0x49

  const CHILDREN_NO := 0
  const CHILDREN_YES := 1
  const UT_COMPILE := 1

  datatype Abbrev = Abbrev(tag: nat, hasChildren: bool, names: seq<nat>, forms: seq<nat>)

  type AbbrevTable = map<nat, Abbrev>

  datatype Die = Die(off: nat, tag: nat, names: seq<nat>, vals: seq<Val>, kids: seq<Die>) {
    /** The value of the first attribute called `name`. */
    function Attr(name: nat): Option<Val> {
      AttrFrom(names, vals, name)
    }
  }

  function AttrFrom(names: seq<nat>, vals: seq<Val>, name: nat): Option<Val> {
    if names == [] || vals == [] then None
    else if names[0] == name then Some(vals[0])
    else AttrFrom(names[1..], vals[1..], name)
  }

  // ----- Abbreviation tables ------------------------------------------------------------

  datatype Specs = Specs(names: seq<nat>, forms: seq<nat>)

  /** Attribute specifications up to the (0, 0) pair. */
  function ReadSpecs(s: bytes): (r: Read<Specs>)
    ensures r.Got? ==> |r.rest| <= |s|
    decreases |s|
  {
    var (name, t1) :- ReadUleb(s);
    var (form, t2) :- ReadUleb(t1);
    if name == 0 && form == 0 then Got(Specs([], []), t2)
    else
      var (more, t3) :- ReadSpecs(t2);
      Got(Specs([name] + more.names, [form] + more.forms), t3)
  }

  /** Declarations up to the zero code. A code may be declared once. */
  function ReadAbbrevs(s: bytes): (r: Read<AbbrevTable>)
    decreases |s|
  {
    var (code, t1) :- ReadUleb(s);
    if code == 0 then Got(map[], t1)
    else
      var (tag, t2) :- ReadUleb(t1);
      var (children, t3) :- ReadLe(1, t2);
      var (specs, t4) :- ReadSpecs(t3);
      var (more, t5) :- ReadAbbrevs(t4);
      if code in more || children > CHILDREN_YES then Bad
      else Got(more[code := Abbrev(tag, children == CHILDREN_YES, specs.names, specs.forms)], t5)
  }

  // ----- DIE trees -------------------------------------------------------------------------

  /** The sibling DIEs at the front of `s`, whose last byte is just before section offset `end`.
      Siblings under a parent end at a null entry; at the top, with the unit. */
  function ReadDies(t: AbbrevTable, s: bytes, end: nat, top: bool): (r: Read<seq<Die>>)
    requires |s| <= end
    ensures r.Got? ==> |r.rest| <= |s|
    decreases |s|
  {
    if s == [] && top then Got([], [])
    else
      var (code, s1) :- ReadUleb(s);
      if code == 0 then
        if top then Bad else Got([], s1)
      else if code !in t then Bad
      else
        var a := t[code];
        var (vals, s2) :- ReadForms(a.forms, s1);
        var (kids, s3) :- if a.hasChildren then ReadDies(t, s2, end, false) else Got([], s2);
        var (more, s4) :- ReadDies(t, s3, end, top);
        Got([Die(end - |s|, a.tag, a.names, vals, kids)] + more, s4)
  }

  // ----- Units -----------------------------------------------------------------------------

  /** A unit's section offset, and its bytes after `unit_length`. */
  datatype RawUnit = RawUnit(off: nat, body: bytes)

  /** Each unit starts where the length of the one before it says. */
  function SplitUnits(s: bytes, end: nat): Option<seq<RawUnit>>
    requires |s| <= end
    decreases |s|
  {
    if s == [] then Some([])
    else
      match ReadUnitLength(s)
      case Bad => None
      case Got(body, rest) =>
        var more :- SplitUnits(rest, end);
        Some([RawUnit(end - |s|, body)] + more)
  }

  /** The single DIE of a compile unit, read with the abbreviation table its header names. */
  function ParseUnit(u: RawUnit, abbrevSection: bytes): Option<Die> {
    if |u.body| < 8 || FromLe(u.body[..2]) != 5 || u.body[2] != UT_COMPILE || u.body[3] != 8 then None
    else
      var abbrevOff := FromLe(u.body[4..8]);
      if abbrevOff > |abbrevSection| then None
      else
        match ReadAbbrevs(abbrevSection[abbrevOff..])
        case Bad => None
        case Got(t, _) =>
          match ReadDies(t, u.body[8..], u.off + 4 + |u.body|, true)
          case Bad => None
          case Got(dies, _) => if |dies| == 1 then Some(dies[0]) else None
  }
}
