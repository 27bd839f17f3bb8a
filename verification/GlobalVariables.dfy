/** Global-variable records of an RSM stream: the three written forms, exactly when the scan recognises each, and that
    it reads back what was written. */
module GlobalVariables {
  import opened Bytes
  import opened SubRecord
  import opened Scanner
  import opened ScanInvariants

  /** How a global names its type: by a marker in its unit's table, optionally with a trailer behind the address that
      has a hash and another id, or by an id. */
  datatype GlobalType =
    | Marked(marker: u8)
    | WithTrailer(marker: u8, hash: u16, trailerId: u16)
    | ById(id: u16)

  /** The address is stored in the upper 28 bits of a word; `nibble` is what the lower four hold. */
  datatype Global = Global(name: bytes, ty: GlobalType, address: nat, nibble: nat)

  predicate GlobalOk(g: Global) {
    1 <= |g.name| <= 64 && IsName(g.name) && g.nibble < 16 && 16 * g.address + g.nibble < 0x1_0000_0000
  }

  function Word16(v: u16): (r: bytes)
    ensures |r| == 2
  {
    [v % 0x100, v / 0x100]
  }

  function TrailerBytes(ty: GlobalType): bytes {
    match ty
    case WithTrailer(_, hash, id) => [0x9C, 0x09] + Word16(hash) + Word16(id) + [0xFF]
    case _ => []
  }

  function TypeField(ty: GlobalType): bytes {
    match ty
    case Marked(marker) => [marker]
    case WithTrailer(marker, _, _) => [marker]
    case ById(id) => Word16(id)
  }

  /** A record: tag, length, name, sub-tag and two zeros, type, address, trailer. */
  function GlobalBytes(g: Global): bytes
    requires GlobalOk(g)
  {
    [0x20, |g.name|] + g.name + [0x66, 0, 0] + TypeField(g.ty) + Le(16 * g.address + g.nibble, 4) + TrailerBytes(g.ty)
  }

  /** What should be read. */
  function VariableFor(g: Global, at: nat): Variable
    requires GlobalOk(g)
  {
    match g.ty
    case Marked(marker) => Variable(g.name, g.address, 0, 0, 0, marker, true, false, at)
    case WithTrailer(marker, _, id) => Variable(g.name, g.address, 0, 0, id, marker, true, true, at)
    case ById(id) => Variable(g.name, g.address, 0, id, 0, 0, false, false, at)
  }

  /** A byte that the scan takes for a marker. */
  predicate LooksLikeMarker(b: u8) {
    b in {0x02, 0x04, 0x06, 0x08, 0x0A, 0x0C, 0x0E, 0x10, 0x12, 0x14, 0x16, 0x18, 0x1A, 0x1C, 0x1E, 0x20,
          0x22, 0x24, 0x26, 0x28, 0x2A, 0x2C, 0x2E, 0x30, 0x32, 0x34, 0x36, 0x38, 0x3A, 0x3C, 0x3E}
  }

  /** Bytes that the scan takes for a trailer. */
  predicate LooksLikeTrailer(s: bytes) {
    |s| >= 7 && s[0] == 0x9C && s[1] == 0x09 && s[6] == 0xFF
  }

  /** The first byte of the type tells the form. */
  predicate FormTold(ty: GlobalType) {
    match ty
    case Marked(marker) => LooksLikeMarker(marker)
    case WithTrailer(marker, _, _) => LooksLikeMarker(marker)
    case ById(id) => !LooksLikeMarker(id % 0x100)
  }

  /** What follows a record without a trailer is there and is no trailer. */
  predicate MayFollow(ty: GlobalType, post: bytes) {
    ty.Marked? ==> post != [] && !LooksLikeTrailer(post)
  }

  // ----- Reading one record ------------------------------------------------------------------------------

  lemma MarkerByte(b: u8)
    ensures LooksLikeMarker(b) <==> b != 0 && b < 0x40 && b % 2 == 0
  {
  }

  lemma Parts(buf: bytes, i: nat, a: bytes, b: bytes, c: bytes, d: bytes, rest: bytes)
    requires i <= |buf| && buf[i..] == a + b + c + d + rest
    ensures var n := i + |a| + |b|;
            && |buf| == n + |c| + |d| + |rest|
            && buf[i..i + |a|] == a && buf[i + |a|..n] == b && buf[n..n + |c|] == c
            && buf[n + |c|..n + |c| + |d|] == d && buf[n + |c| + |d|..] == rest
  {
    Cut(buf, i, a, b + c + d + rest) by { assert a + b + c + d + rest == a + (b + c + d + rest); }
    Cut(buf, i + |a|, b, c + d + rest) by { assert b + c + d + rest == b + (c + d + rest); }
    Cut(buf, i + |a| + |b|, c, d + rest) by { assert c + d + rest == c + (d + rest); }
    Cut(buf, i + |a| + |b| + |c|, d, rest);
  }

  lemma Cut(buf: bytes, i: nat, a: bytes, rest: bytes)
    requires i <= |buf| && buf[i..] == a + rest
    ensures i + |a| <= |buf| && buf[i..i + |a|] == a && buf[i + |a|..] == rest
  {
    assert buf[i..i + |a|] == buf[i..][..|a|];
    assert buf[i + |a|..] == buf[i..][|a|..];
  }

  lemma GlobalShape(g: Global, post: bytes) returns (head: bytes, tag: bytes)
    requires GlobalOk(g)
    ensures |head| == 2 && head[0] == 0x20 && head[1] == |g.name| && |tag| == 3 && tag[0] == 0x66 && tag[1] == tag[2] == 0
    ensures g.nibble < 16 && 16 * g.address + g.nibble < 0x1_0000_0000
    ensures GlobalBytes(g) + post
         == head + g.name + tag + TypeField(g.ty) + Le(16 * g.address + g.nibble, 4) + (TrailerBytes(g.ty) + post)
  {
    hide Le, IsName, TrailerBytes, TypeField;
    head, tag := [0x20, |g.name|], [0x66, 0, 0];
    var front := head + g.name + tag + TypeField(g.ty) + Le(16 * g.address + g.nibble, 4);
    assert GlobalBytes(g) == front + TrailerBytes(g.ty);
    Assoc(front, TrailerBytes(g.ty), post);
  }

  /** The bytes of a record, by position. */
  lemma GlobalParts(buf: bytes, i: nat, g: Global, post: bytes)
    requires GlobalOk(g) && i <= |buf| && buf[i..] == GlobalBytes(g) + post
    ensures var sub := i + 2 + |g.name|; var w := sub + 3 + |TypeField(g.ty)|;
            && w + 4 <= |buf| && buf[i] == 0x20 && buf[i + 1] == |g.name| && buf[i + 2..sub] == g.name
            && buf[sub] == 0x66 && buf[sub + 1] == 0 && buf[sub + 2] == 0 && buf[sub + 3..w] == TypeField(g.ty)
            && FromLe(buf[w..w + 4]) / 16 == g.address && buf[w + 4..] == TrailerBytes(g.ty) + post
  {
    hide *;
    var head, tag := GlobalShape(g, post);
    PartsSeen(buf, i, head, g.name, tag, TypeField(g.ty), 16 * g.address + g.nibble, TrailerBytes(g.ty) + post);
    NibbleDropped(g.address, g.nibble);
  }

  lemma PartsSeen(buf: bytes, i: nat, head: bytes, name: bytes, tag: bytes, ty: bytes, v: nat, rest: bytes)
    requires |head| == 2 && |tag| == 3 && v < 0x1_0000_0000
    requires i <= |buf| && buf[i..] == head + name + tag + ty + Le(v, 4) + rest
    ensures var sub := i + 2 + |name|; var w := sub + 3 + |ty|;
            && w + 4 <= |buf| && buf[i] == head[0] && buf[i + 1] == head[1] && buf[i + 2..sub] == name
            && buf[sub] == tag[0] && buf[sub + 1] == tag[1] && buf[sub + 2] == tag[2] && buf[sub + 3..w] == ty
            && FromLe(buf[w..w + 4]) == v && buf[w + 4..] == rest
  {
    hide *;
    Parts(buf, i, head + name, tag, ty, Le(v, 4), rest);
    FrontParts(buf, i, head, name);
    ThreeParts(buf, i + 2 + |name|, tag);
    WordReads(v);
  }

  lemma FrontParts(buf: bytes, i: nat, head: bytes, name: bytes)
    requires |head| == 2 && i + 2 + |name| <= |buf| && buf[i..i + 2 + |name|] == head + name
    ensures buf[i] == head[0] && buf[i + 1] == head[1] && buf[i + 2..i + 2 + |name|] == name
  {
    var front := buf[i..i + 2 + |name|];
    assert buf[i] == front[0] && buf[i + 1] == front[1] && front[2..] == name;
  }

  lemma ThreeParts(buf: bytes, at: nat, d: bytes)
    requires |d| == 3 && at + 3 <= |buf| && buf[at..at + 3] == d
    ensures buf[at] == d[0] && buf[at + 1] == d[1] && buf[at + 2] == d[2]
  {
    assert buf[at] == buf[at..at + 3][0];
  }

  /** The scan on a record whose head is in place, and whose type is at `at`. */
  lemma HeadSeen(buf: bytes, i: nat, name: bytes, at: nat)
    requires 1 <= |name| <= 64 && IsName(name) && at == i + 2 + |name| + 3 && at < |buf| && i + 8 < |buf|
    requires buf[i] == 0x20 && buf[i + 1] == |name| && buf[i + 2..at - 3] == name
    requires buf[at - 3] == 0x66 && buf[at - 2] == 0 && buf[at - 1] == 0
    ensures VarAt(buf, i)
         == if at + 6 > |buf| then None
            else if !LooksLikeMarker(buf[at]) then
              Some(Found(Variable(name, FromLe(buf[at + 2..at + 6]) / 16, 0, Word(buf[at], buf[at + 1]), 0, 0, false, false, i),
                         at + 6))
            else if HasTrailer(buf, at) then
              Some(Found(Variable(name, FromLe(buf[at + 1..at + 5]) / 16, 0, 0, Word(buf[at + 9], buf[at + 10]), buf[at], true,
                                  true, i), at + 12))
            else
              Some(Found(Variable(name, FromLe(buf[at + 1..at + 5]) / 16, 0, 0, 0, buf[at], true, false, i), at + 5))
  {
    hide FromLe, IsName, HasTrailer, Word, LooksLikeMarker;
    MarkerByte(buf[at]);
  }

  /** A written global is read back, with its end, exactly if the first byte of its type tells the form, and what
      follows a record without a trailer does not look like one. */
  lemma GlobalRoundTrip(pre: bytes, g: Global, post: bytes)
    requires GlobalOk(g)
    ensures |pre| + 8 < |pre + GlobalBytes(g) + post|
    ensures VarAt(pre + GlobalBytes(g) + post, |pre|)
            == Some(Found(VariableFor(g, |pre|), |pre| + |GlobalBytes(g)|))
            <==> FormTold(g.ty) && MayFollow(g.ty, post)
  {
    hide *;
    var buf := pre + GlobalBytes(g) + post;
    assert buf[|pre|..] == GlobalBytes(g) + post;
    match g.ty
    case Marked(_) => MarkedReads(buf, |pre|, g, post);
    case WithTrailer(_, _, _) => TrailerFormReads(buf, |pre|, g, post);
    case ById(_) => IdReads(buf, |pre|, g, post);
  }

  lemma MarkedReads(buf: bytes, i: nat, g: Global, post: bytes)
    requires GlobalOk(g) && g.ty.Marked? && i <= |buf| && buf[i..] == GlobalBytes(g) + post
    ensures i + 8 < |buf|
    ensures VarAt(buf, i) == Some(Found(VariableFor(g, i), i + |GlobalBytes(g)|))
            <==> FormTold(g.ty) && MayFollow(g.ty, post)
  {
    hide FromLe, IsName, LooksLikeMarker, VarAt, GlobalBytes, HasTrailer, LooksLikeTrailer, Word;
    GlobalParts(buf, i, g, post);
    GlobalLength(g);
    var at := i + 2 + |g.name| + 3;
    assert buf[at] == TypeField(g.ty)[0];
    HeadSeen(buf, i, g.name, at);
    TrailerSeen(buf, at, post);
  }

  lemma TrailerFormReads(buf: bytes, i: nat, g: Global, post: bytes)
    requires GlobalOk(g) && g.ty.WithTrailer? && i <= |buf| && buf[i..] == GlobalBytes(g) + post
    ensures i + 8 < |buf|
    ensures VarAt(buf, i) == Some(Found(VariableFor(g, i), i + |GlobalBytes(g)|))
            <==> FormTold(g.ty) && MayFollow(g.ty, post)
  {
    hide FromLe, IsName, LooksLikeMarker, VarAt, GlobalBytes, HasTrailer, LooksLikeTrailer, Word;
    GlobalParts(buf, i, g, post);
    GlobalLength(g);
    var at := i + 2 + |g.name| + 3;
    assert buf[at] == TypeField(g.ty)[0];
    HeadSeen(buf, i, g.name, at);
    TrailerSeen(buf, at, TrailerBytes(g.ty) + post);
    TrailerReads(buf, at, g.ty.hash, g.ty.trailerId, post);
  }

  lemma IdReads(buf: bytes, i: nat, g: Global, post: bytes)
    requires GlobalOk(g) && g.ty.ById? && i <= |buf| && buf[i..] == GlobalBytes(g) + post
    ensures i + 8 < |buf|
    ensures VarAt(buf, i) == Some(Found(VariableFor(g, i), i + |GlobalBytes(g)|))
            <==> FormTold(g.ty) && MayFollow(g.ty, post)
  {
    hide FromLe, IsName, LooksLikeMarker, VarAt, GlobalBytes, HasTrailer, LooksLikeTrailer, Word;
    GlobalParts(buf, i, g, post);
    GlobalLength(g);
    var at := i + 2 + |g.name| + 3;
    assert buf[at] == TypeField(g.ty)[0] && buf[at + 1] == TypeField(g.ty)[1];
    HeadSeen(buf, i, g.name, at);
    WordOf(g.ty.id);
  }

  lemma GlobalLength(g: Global)
    requires GlobalOk(g)
    ensures |GlobalBytes(g)| == 9 + |g.name| + |TypeField(g.ty)| + |TrailerBytes(g.ty)|
  {
    hide Le, IsName;
  }

  lemma WordOf(v: u16)
    ensures Word(v % 0x100, v / 0x100) == v
  {
  }

  lemma TrailerSeen(buf: bytes, at: nat, rest: bytes)
    requires at + 5 <= |buf| && buf[at + 5..] == rest
    ensures HasTrailer(buf, at) <==> LooksLikeTrailer(rest)
  {
    if |rest| >= 7 {
      assert rest[0] == buf[at + 5] && rest[1] == buf[at + 6] && rest[6] == buf[at + 11];
    }
  }

  lemma TrailerReads(buf: bytes, at: nat, hash: u16, id: u16, post: bytes)
    requires at + 5 <= |buf| && buf[at + 5..] == [0x9C, 0x09] + Word16(hash) + Word16(id) + [0xFF] + post
    ensures LooksLikeTrailer(buf[at + 5..]) && Word(buf[at + 9], buf[at + 10]) == id
  {
    var rest := buf[at + 5..];
    assert rest[4] == buf[at + 9] && rest[5] == buf[at + 10];
  }

  // ----- Nothing else is read ------------------------------------------------------------------------------

  /** The parts of a record that the scan finds in the buffer. */
  lemma HeadFound(buf: bytes, i: nat) returns (at: nat)
    requires i + 8 < |buf| && VarAt(buf, i).Some?
    ensures at == i + 2 + buf[i + 1] + 3 && at + 6 <= |buf| && buf[i] == 0x20 && 1 <= buf[i + 1] <= 64
    ensures IsName(buf[i + 2..at - 3]) && buf[at - 3] == 0x66 && buf[at - 2] == 0 && buf[at - 1] == 0
  {
    hide FromLe, IsName, HasTrailer, Word;
    at := i + 2 + buf[i + 1] + 3;
  }

  lemma GlobalPieces(buf: bytes, i: nat, at: nat, w: nat, end: nat)
    requires i + 5 <= at <= w && w + 4 <= end <= |buf|
    ensures buf[i..end] == [buf[i], buf[i + 1]] + buf[i + 2..at - 3] + [buf[at - 3], buf[at - 2], buf[at - 1]] + buf[at..w]
                           + buf[w..w + 4] + buf[w + 4..end]
  {
  }

  /** A record with its type at `at` and its address at `w`. */
  lemma GlobalMade(buf: bytes, i: nat, at: nat, w: nat, end: nat, ty: GlobalType) returns (g: Global)
    requires i + 5 <= at <= w && w + 4 <= end <= |buf| && at == i + 2 + buf[i + 1] + 3
    requires buf[i] == 0x20 && 1 <= buf[i + 1] <= 64
    requires IsName(buf[i + 2..at - 3]) && buf[at - 3] == 0x66 && buf[at - 2] == 0 && buf[at - 1] == 0
    requires buf[at..w] == TypeField(ty) && buf[w + 4..end] == TrailerBytes(ty)
    ensures g.name == buf[i + 2..at - 3] && g.ty == ty && g.address == FromLe(buf[w..w + 4]) / 16
    ensures GlobalOk(g) && buf[i..end] == GlobalBytes(g)
  {
    hide FromLe, Le, IsName, TypeField, TrailerBytes;
    var v := FromLe(buf[w..w + 4]);
    WordWritten(buf[w..w + 4]);
    g := Global(buf[i + 2..at - 3], ty, v / 16, v % 16);
    GlobalPieces(buf, i, at, w, end);
  }

  lemma BytesOf(buf: bytes, at: nat)
    requires at + 2 <= |buf|
    ensures buf[at..at + 2] == Word16(Word(buf[at], buf[at + 1]))
  {
  }

  lemma TrailerFound(buf: bytes, at: nat, marker: u8)
    requires HasTrailer(buf, at)
    ensures at + 12 <= |buf|
    ensures buf[at + 5..at + 12]
            == TrailerBytes(WithTrailer(marker, Word(buf[at + 7], buf[at + 8]), Word(buf[at + 9], buf[at + 10])))
  {
    BytesOf(buf, at + 7);
    BytesOf(buf, at + 9);
    assert buf[at + 5..at + 12] == [buf[at + 5], buf[at + 6]] + buf[at + 7..at + 9] + buf[at + 9..at + 11] + [buf[at + 11]];
  }

  /** Whatever is read as a global was written as one: the bytes up to its end are those of the record it is read as. */
  lemma GlobalWritten(buf: bytes, i: nat) returns (g: Global)
    requires i + 8 < |buf| && VarAt(buf, i).Some?
    ensures GlobalOk(g) && FormTold(g.ty)
    ensures var f := VarAt(buf, i).value; f.variable == VariableFor(g, i) && buf[i..f.next] == GlobalBytes(g)
  {
    hide FromLe, IsName, HasTrailer, Word, VarAt, LooksLikeMarker, GlobalOk, GlobalBytes;
    var at := HeadFound(buf, i);
    HeadSeen(buf, i, buf[i + 2..at - 3], at);
    if !LooksLikeMarker(buf[at]) {
      var id := Word(buf[at], buf[at + 1]);
      BytesOf(buf, at);
      assert buf[at + 6..at + 6] == [];
      g := GlobalMade(buf, i, at, at + 2, at + 6, ById(id));
      LowByte(buf[at], buf[at + 1]);
    } else if HasTrailer(buf, at) {
      TrailerFound(buf, at, buf[at]);
      var ty := WithTrailer(buf[at], Word(buf[at + 7], buf[at + 8]), Word(buf[at + 9], buf[at + 10]));
      assert buf[at..at + 1] == TypeField(ty);
      g := GlobalMade(buf, i, at, at + 1, at + 12, ty);
    } else {
      assert buf[at..at + 1] == TypeField(Marked(buf[at]));
      assert buf[at + 5..at + 5] == [];
      g := GlobalMade(buf, i, at, at + 1, at + 5, Marked(buf[at]));
    }
  }

  lemma LowByte(lo: u8, hi: u8)
    ensures Word(lo, hi) % 0x100 == lo
  {
  }

  /** An id whose low byte is a small even number reads as that marker, with an address made of the id's high byte and
      three bytes of the written one, and ends a byte early. */
  lemma IdMisread(pre: bytes, post: bytes)
    ensures var g := Global([0x41], ById(0x0602), 0x401000, 0);
            && GlobalOk(g) && GlobalBytes(g) == [0x20, 1, 0x41, 0x66, 0, 0, 0x02, 0x06, 0x00, 0x00, 0x01, 0x04]
            && !FormTold(g.ty)
            && (!LooksLikeTrailer([0x04] + post) ==>
                  var f := VarAt(pre + GlobalBytes(g) + post, |pre|);
                  f.Some? && f.value.variable == Variable([0x41], 0x100000, 0, 0, 0, 0x02, true, false, |pre|)
                  && f.value.next == |pre| + 11)
  {
    var d: bytes := [0x20, 1, 0x41, 0x66, 0, 0, 0x02, 0x06, 0x00, 0x00, 0x01, 0x04];
    WrittenId(d);
    hide Le, FromLe, GlobalBytes, VarAt, HasTrailer, LooksLikeTrailer, FormTold;
    var buf, at := pre + d + post, |pre| + 6;
    IdParts(pre, d, post);
    HeadSeen(buf, |pre|, [0x41], at);
    TrailerSeen(buf, at, [0x04] + post);
    FourBytes(0x06, 0x00, 0x00, 0x01);
  }

  lemma IdParts(pre: bytes, d: bytes, post: bytes)
    requires d == [0x20, 1, 0x41, 0x66, 0, 0, 0x02, 0x06, 0x00, 0x00, 0x01, 0x04]
    ensures var buf, i := pre + d + post, |pre|;
            && buf[i] == 0x20 && buf[i + 1] == 1 && buf[i + 2..i + 3] == [0x41] && buf[i + 3] == 0x66
            && buf[i + 4] == buf[i + 5] == 0 && buf[i + 6] == 0x02 && buf[i + 7..i + 11] == [0x06, 0x00, 0x00, 0x01]
            && buf[i + 11..] == [0x04] + post
  {
    var buf, i := pre + d + post, |pre|;
    assert buf[i..i + 12] == d;
    assert buf[i + 2..i + 3] == d[2..3] && buf[i + 7..i + 11] == d[7..11];
    assert buf[i + 11..] == d[11..] + post;
    assert buf[i + 3] == d[3] && buf[i + 4] == d[4] && buf[i + 5] == d[5] && buf[i + 6] == d[6];
  }

  lemma WrittenId(d: bytes)
    requires d == [0x20, 1, 0x41, 0x66, 0, 0, 0x02, 0x06, 0x00, 0x00, 0x01, 0x04]
    ensures var g := Global([0x41], ById(0x0602), 0x401000, 0); GlobalOk(g) && GlobalBytes(g) == d
  {
    AddressBytes();
    hide Le;
    assert TypeField(ById(0x0602)) == [0x02, 0x06];
  }

  lemma AddressBytes()
    ensures Le(0x0401_0000, 4) == [0x00, 0x00, 0x01, 0x04]
  {
    assert Le(0x04, 1) == [0x04] + Le(0, 0);
    assert Le(0x0401, 2) == [0x01] + Le(0x04, 1);
    assert Le(0x04_0100, 3) == [0x00] + Le(0x0401, 2);
    assert Le(0x0401_0000, 4) == [0x00] + Le(0x04_0100, 3);
  }

  lemma FourBytes(a: u8, b: u8, c: u8, d: u8)
    ensures FromLe([a, b, c, d]) == a + 0x100 * b + 0x1_0000 * c + 0x100_0000 * d
  {
    assert FromLe([d]) == d && FromLe([c, d]) == c + 256 * FromLe([d]);
    assert FromLe([b, c, d]) == b + 256 * FromLe([c, d]);
    assert FromLe([a, b, c, d]) == a + 256 * FromLe([b, c, d]);
  }

  // ----- Streams of globals ----------------------------------------------------------------------------------

  predicate AllGlobalsOk(gs: seq<Global>) {
    forall k | 0 <= k < |gs| :: GlobalOk(gs[k])
  }

  function GlobalsBytes(gs: seq<Global>): bytes
    requires AllGlobalsOk(gs)
  {
    if gs == [] then [] else GlobalBytes(gs[0]) + GlobalsBytes(gs[1..])
  }

  function VariablesFor(gs: seq<Global>, at: nat): seq<Variable>
    requires AllGlobalsOk(gs)
    decreases |gs|
  {
    if gs == [] then [] else [VariableFor(gs[0], at)] + VariablesFor(gs[1..], at + |GlobalBytes(gs[0])|)
  }

  /** No record starts inside a procedure. */
  predicate StartOutside(procs: seq<ProcedureRecord>, gs: seq<Global>, at: nat)
    requires AllGlobalsOk(gs)
    decreases |gs|
  {
    gs != [] ==> !Inside(procs, at) && StartOutside(procs, gs[1..], at + |GlobalBytes(gs[0])|)
  }

  /** Any number of globals one behind the other, outside procedures, are found, exactly and in order, and the scan
      goes on behind them. */
  lemma {:induction false} GlobalsRoundTrip(pre: bytes, gs: seq<Global>, post: bytes, procs: seq<ProcedureRecord>)
    requires AllGlobalsOk(gs) && StartOutside(procs, gs, |pre|) && forall k | 0 <= k < |gs| :: FormTold(gs[k].ty)
    requires gs != [] ==> MayFollow(gs[|gs| - 1].ty, post)
    ensures var buf := pre + GlobalsBytes(gs) + post;
            Vars(buf, procs, |pre|) == VariablesFor(gs, |pre|) + Vars(buf, procs, |pre| + |GlobalsBytes(gs)|)
    decreases |gs|
  {
    hide VarAt, GlobalBytes, VariableFor, GlobalOk, Vars, Inside, FormTold, MayFollow, GlobalsBytes;
    GlobalsStep(gs);
    if gs == [] {
      assert VariablesFor(gs, |pre|) == [];
    } else {
      var rest := GlobalsBytes(gs[1..]);
      var buf := pre + GlobalsBytes(gs) + post;
      var here := pre + GlobalBytes(gs[0]);
      Rebracket(pre, GlobalBytes(gs[0]), rest, post);
      NextFollows(gs, post);
      GlobalRoundTrip(pre, gs[0], rest + post);
      VarsStep(buf, procs, |pre|);
      GlobalsRoundTrip(here, gs[1..], post, procs);
    }
  }

  lemma Rebracket(a: bytes, b: bytes, c: bytes, d: bytes)
    ensures a + (b + c) + d == a + b + (c + d) == a + b + c + d
  {
  }

  lemma GlobalsStep(gs: seq<Global>)
    requires AllGlobalsOk(gs)
    ensures GlobalsBytes(gs) == if gs == [] then [] else GlobalBytes(gs[0]) + GlobalsBytes(gs[1..])
  {
    hide GlobalBytes;
  }

  lemma NextFollows(gs: seq<Global>, post: bytes)
    requires AllGlobalsOk(gs) && gs != [] && MayFollow(gs[|gs| - 1].ty, post)
    ensures MayFollow(gs[0].ty, GlobalsBytes(gs[1..]) + post)
  {
    hide Le, IsName;
    if |gs| == 1 {
      assert GlobalsBytes(gs[1..]) + post == post;
    } else {
      assert GlobalBytes(gs[1])[0] == 0x20;
      assert (GlobalsBytes(gs[1..]) + post)[0] == 0x20;
    }
  }
}
