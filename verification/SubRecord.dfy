/** Parameter and local-variable sub-records of an RSM procedure record: the parser, and which of the
    documented encodings it reads back. */
module SubRecord {
  import opened Bytes

  const TAG_VARIABLE: u8 := 0x20
  const TAG_PARAM: u8 := 0x21
  const TAG_VAR_PARAM: u8 := 0x22
  const TAG_FUNCTION: u8 := 0x28
  const TAG_PRIMITIVE: u8 := 0x2A
  const END_MARKER: u8 := 0x63
  const TERMINATOR: u8 := 0xFF
  const TYPE_ID_MARKER: u8 := 0x9C
  // The sub-tag of the newer records, whose form only their length tells.
  const SUBTAG_NEW: u8 := 0x66

  datatype SubRec = SubRec(
    tag: u8, nameAt: nat, nameLen: nat, subtag: u8, marker: u8, typeHash: u16, isPrimitive: bool,
    storedOff: i32, totalSize: nat)

  predicate IsSubTag(b: u8) {
    b == TAG_VARIABLE || b == TAG_PARAM || b == TAG_VAR_PARAM
  }

  predicate IsNextTag(b: u8) {
    IsSubTag(b) || b == 0x23 || b == 0x25 || b == TAG_FUNCTION || b == TAG_PRIMITIVE || b == END_MARKER
  }

  /** Letters, digits, and the four punctuation characters of Delphi symbol names. */
  predicate IsNameChar(c: u8) {
    || 0x30 <= c <= 0x39 || 0x41 <= c <= 0x5A || 0x61 <= c <= 0x7A
    || c == 0x5F || c == 0x2E || c == 0x24 || c == 0x40
  }

  predicate IsName(s: bytes) {
    forall i | 0 <= i < |s| :: IsNameChar(s[i])
  }

  // ----- The specification of the parser ------------------------------------------------------

  /** The first position in `[from, to)` with the tag of a record. */
  function NextTag(buf: bytes, from: nat, to: nat): (r: Option<nat>)
    requires to <= |buf|
    ensures r.Some? ==> from <= r.value < to && IsNextTag(buf[r.value])
    decreases if from < to then to - from else 0
  {
    if from >= to then None else if IsNextTag(buf[from]) then Some(from) else NextTag(buf, from + 1, to)
  }

  /** Where the type marker is: behind a one-byte or a two-byte sub-tag and two zeros. */
  function MarkerAt(buf: bytes, body: nat): (r: Option<nat>)
    requires body + 5 < |buf|
    ensures r.Some? ==> body + 3 <= r.value <= body + 4
  {
    if buf[body + 1] == 0 && buf[body + 2] == 0 then Some(body + 3)
    else if buf[body + 2] == 0 && buf[body + 3] == 0 then Some(body + 4)
    else None
  }

  /** Whether a new-style body refers to its type by hash, by the length of the body. */
  function IsComposite(buf: bytes, body: nat, marker: u8, bodyLen: nat): Option<bool>
    requires body + 4 < |buf|
  {
    if bodyLen == 5 then Some(false)
    else if bodyLen == 7 then Some(true)
    else if bodyLen == 6 then Some(marker % 2 == 1 || buf[body + 4] % 2 == 0)
    else None
  }

  /** The sub-record at `s`, if there is one. */
  function SubAt(buf: bytes, s: nat): (r: Option<SubRec>)
    ensures r.Some? ==> s + 8 < |buf| && r.value.tag == buf[s] && IsSubTag(buf[s])
    ensures r.Some? ==> 0 < r.value.totalSize && s + r.value.totalSize <= |buf|
    ensures r.Some? ==> r.value.nameAt == s + 2 && 1 <= r.value.nameLen <= 64 && r.value.nameAt + r.value.nameLen <= |buf|
  {
    if s + 8 >= |buf| || !IsSubTag(buf[s]) then None
    else
      var nameLen := buf[s + 1];
      var body := s + 2 + nameLen;
      if nameLen == 0 || nameLen > 64 || body + 5 >= |buf| then None
      else
        var at :- MarkerAt(buf, body);
        if at + 1 >= |buf| || !IsName(buf[s + 2..body]) then None
        else if buf[body] != SUBTAG_NEW then
          WithOffset(buf, s, SubRec(buf[s], s + 2, nameLen, buf[body], buf[at], 0, false, 0, 0), at + 1)
        else
          var end :- NextTag(buf, body + 5, if body + 16 < |buf| - 1 then body + 17 else |buf|);
          var composite :- IsComposite(buf, body, buf[at], end - body);
          if composite then
            WithOffset(buf, s, SubRec(buf[s], s + 2, nameLen, SUBTAG_NEW, 0, Word(buf[at], buf[at + 1]), false, 0, 0), at + 2)
          else
            WithOffset(buf, s, SubRec(buf[s], s + 2, nameLen, SUBTAG_NEW, buf[at], 0, true, 0, 0), at + 1)
  }

  /** An even offset byte is the offset; an odd one starts a 16-bit value. Both are normalised to one scale. */
  function WithOffset(buf: bytes, s: nat, r: SubRec, at: nat): (w: Option<SubRec>)
    requires s <= at
    ensures w.Some? ==> at < |buf| && w.value == r.(storedOff := w.value.storedOff, totalSize := w.value.totalSize)
    ensures w.Some? ==> at + 1 - s <= w.value.totalSize <= at + 2 - s && s + w.value.totalSize <= |buf|
  {
    if at >= |buf| then None
    else if buf[at] % 2 == 0 then Some(r.(storedOff := AsSigned(buf[at], 0x100), totalSize := at + 1 - s))
    else if at + 2 >= |buf| then None
    else Some(r.(storedOff := (AsSigned(Word(buf[at], buf[at + 1]), 0x1_0000) - 1) / 2, totalSize := at + 2 - s))
  }

  // ----- The parser ---------------------------------------------------------------------------------

  method IsPrintableName(buf: bytes, from: nat, to: nat) returns (ok: bool)
    requires from <= to <= |buf|
    ensures ok <==> IsName(buf[from..to])
  {
    for i := from to to
      invariant IsName(buf[from..i])
    {
      assert buf[from..to][i - from] == buf[i];
      if !IsNameChar(buf[i]) {
        return false;
      }
      assert buf[from..i + 1] == buf[from..i] + [buf[i]];
    }
    return true;
  }

  method FindNextTag(buf: bytes, from: nat, to: nat) returns (r: Option<nat>)
    requires from <= to <= |buf|
    ensures r == NextTag(buf, from, to)
  {
    hide IsNextTag;
    for k := from to to
      invariant NextTag(buf, from, to) == NextTag(buf, k, to)
    {
      if IsNextTag(buf[k]) {
        return Some(k);
      }
    }
    r := None;
  }

  method ParseSub(buf: bytes, s: nat) returns (r: Option<SubRec>)
    ensures r == SubAt(buf, s)
  {
    hide IsNextTag, IsComposite, IsName, NextTag, AsSigned, Word, WithOffset, MarkerAt, IsSubTag;
    if s + 8 >= |buf| || !IsSubTag(buf[s]) {
      return None;
    }
    var nameLen := buf[s + 1];
    var body := s + 2 + nameLen;
    if nameLen == 0 || nameLen > 64 || body + 5 >= |buf| {
      return None;
    }
    var at := MarkerAt(buf, body);
    if at.None? || at.value + 1 >= |buf| {
      return None;
    }
    var printable := IsPrintableName(buf, s + 2, body);
    if !printable {
      return None;
    }
    var sub := SubRec(buf[s], s + 2, nameLen, buf[body], 0, 0, false, 0, 0);
    var offsetAt;
    if buf[body] != SUBTAG_NEW {
      sub := sub.(marker := buf[at.value]);
      offsetAt := at.value + 1;
    } else {
      var maxBodyEnd := if body + 16 < |buf| - 1 then body + 16 else |buf| - 1;
      var bodyEnd := FindNextTag(buf, body + 5, maxBodyEnd + 1);
      if bodyEnd.None? {
        return None;
      }
      var composite := IsComposite(buf, body, buf[at.value], bodyEnd.value - body);
      if composite.None? {
        return None;
      }
      if composite.value {
        sub := sub.(typeHash := Word(buf[at.value], buf[at.value + 1]));
        offsetAt := at.value + 2;
      } else {
        sub := sub.(isPrimitive := true, marker := buf[at.value]);
        offsetAt := at.value + 1;
      }
    }
    r := WithOffset(buf, s, sub, offsetAt);
  }

  // ----- The documented encodings ----------------------------------------------------------------------

  /** The characters of names, as characters. */
  lemma NameCharacters(c: u8)
    ensures IsNameChar(c) <==> var ch := c as char;
                               || '0' <= ch <= '9' || 'A' <= ch <= 'Z' || 'a' <= ch <= 'z'
                               || ch == '_' || ch == '.' || ch == '$' || ch == '@'
  {
  }

  /** The first byte of anything that follows a sub-record. */
  predicate IsRecordTag(b: u8) {
    b in {0x20, 0x21, 0x22, 0x23, 0x25, 0x28, 0x2A, 0x63}
  }

  lemma RecordTags()
    ensures forall b: u8 :: IsRecordTag(b) <==> IsNextTag(b)
  {
  }

  /** How a sub-record names its type: in new records by unit-local marker or by hash; in old ones by
      marker behind their own sub-tag, which `out` parameters follow with a second byte. */
  datatype TypeRef =
    | ByMarker(marker: u8)
    | ByHash(hash: u16)
    | Old(subtag: u8, marker: u8)
    | OldOut(subtag: u8, second: u8, marker: u8)

  /** An offset in one byte or in two. */
  datatype Offset = Short(stored: int) | Long(stored: int)

  datatype Sub = Sub(tag: u8, name: bytes, ty: TypeRef, offset: Offset)

  predicate OffsetOk(o: Offset) {
    match o
    case Short(v) => -0x80 <= v < 0x80 && v % 2 == 0
    case Long(v) => -0x4000 <= v < 0x4000
  }

  predicate SubOk(r: Sub) {
    && r.tag in {0x20, 0x21, 0x22} && 1 <= |r.name| <= 64 && IsName(r.name) && OffsetOk(r.offset)
    && (r.ty.Old? || r.ty.OldOut? ==> r.ty.subtag != 0x66) && (r.ty.OldOut? ==> r.ty.second != 0)
  }

  function OffsetBytes(o: Offset): (r: bytes)
    requires OffsetOk(o)
    ensures |r| == if o.Short? then 1 else 2
  {
    match o
    case Short(v) => [v % 0x100]
    case Long(v) => [(2 * v + 1) % 0x100, (2 * v + 1) / 0x100 % 0x100]
  }

  function TypeBytes(ty: TypeRef): (r: bytes)
    ensures 4 <= |r| <= 5
  {
    match ty
    case ByMarker(marker) => [0x66, 0, 0, marker]
    case ByHash(hash) => [0x66, 0, 0, hash % 0x100, hash / 0x100]
    case Old(subtag, marker) => [subtag, 0, 0, marker]
    case OldOut(subtag, second, marker) => [subtag, second, 0, 0, marker]
  }

  function SubBytes(r: Sub): bytes
    requires SubOk(r)
  {
    [r.tag, |r.name|] + r.name + TypeBytes(r.ty) + OffsetBytes(r.offset)
  }

  /** What the parser should find at position `s`. */
  function Parsed(r: Sub, s: nat): SubRec
    requires SubOk(r)
  {
    SubRec(r.tag, s + 2, |r.name|, TypeBytes(r.ty)[0], if r.ty.ByHash? then 0 else r.ty.marker,
           if r.ty.ByHash? then r.ty.hash else 0, r.ty.ByMarker?, r.offset.stored, |SubBytes(r)|)
  }

  /** The new-style bodies whose length the parser gets right, or wrong without harm. The bytes of a
      sub-record must not look like the tag of the next record where that matters, and a six-byte body
      must show by its parities which of the two forms it is. */
  predicate Readable(r: Sub)
    requires SubOk(r)
  {
    var o := OffsetBytes(r.offset);
    match r.ty
    case ByMarker(marker) => r.offset.Long? ==> marker % 2 == 0 || IsRecordTag(o[1])
    case ByHash(hash) =>
      && !IsRecordTag(o[0])
      && (r.offset.Short? || IsRecordTag(o[1]) ==> hash % 2 == 1 || hash / 0x100 % 2 == 0)
    case _ => true
  }

  // ----- Which encodings are read back -----------------------------------------------------------------

  function Body(r: Sub): bytes
    requires SubOk(r)
  {
    TypeBytes(r.ty) + OffsetBytes(r.offset)
  }

  /** The buffer has the record at `s`, with the byte `next` behind it. */
  predicate HasSub(buf: bytes, s: nat, r: Sub, next: u8)
    requires SubOk(r)
  {
    var body := s + 2 + |r.name|;
    && body + |Body(r)| < |buf| && buf[s] == r.tag && buf[s + 1] == |r.name| && buf[s + 2..body] == r.name
    && (forall k | 0 <= k < |Body(r)| :: buf[body + k] == Body(r)[k]) && buf[body + |Body(r)|] == next
  }

  lemma SubPlaced(pre: bytes, r: Sub, next: u8, post: bytes)
    requires SubOk(r)
    ensures HasSub(pre + SubBytes(r) + ([next] + post), |pre|, r, next)
  {
    hide TypeBytes, OffsetBytes, IsName, OffsetOk;
    var buf := pre + SubBytes(r) + ([next] + post);
    var head := pre + [r.tag, |r.name|];
    assert buf == head + (r.name + (Body(r) + ([next] + post)));
    assert buf == (head + r.name) + (Body(r) + ([next] + post));
    assert buf[|head|..|head| + |r.name|] == r.name;
  }

  lemma OffsetReads(buf: bytes, s: nat, sub: SubRec, at: nat, o: Offset)
    requires OffsetOk(o) && s <= at && at + |OffsetBytes(o)| < |buf|
    requires forall k | 0 <= k < |OffsetBytes(o)| :: buf[at + k] == OffsetBytes(o)[k]
    ensures WithOffset(buf, s, sub, at) == Some(sub.(storedOff := o.stored, totalSize := at + |OffsetBytes(o)| - s))
  {
    hide AsSigned, Word;
    assert OffsetBytes(o)[0] == buf[at + 0];
    if o.Long? {
      assert OffsetBytes(o)[1] == buf[at + 1];
      LongReads(o.stored);
    } else {
      ShortReads(o.stored);
    }
  }

  lemma ShortReads(v: int)
    requires OffsetOk(Short(v))
    ensures v % 0x100 % 2 == 0 && AsSigned(v % 0x100, 0x100) == v
  {
  }

  lemma LongReads(v: int)
    requires OffsetOk(Long(v))
    ensures (2 * v + 1) % 0x100 % 2 == 1
    ensures (AsSigned(Word((2 * v + 1) % 0x100, (2 * v + 1) / 0x100 % 0x100), 0x1_0000) - 1) / 2 == v
  {
    var w := 2 * v + 1;
    assert Word(w % 0x100, w / 0x100 % 0x100) == w % 0x1_0000;
  }

  lemma TagWithin(buf: bytes, from: nat, to: nat, k: nat)
    requires from <= k < to <= |buf| && IsNextTag(buf[k]) && (forall i | from <= i < k :: !IsNextTag(buf[i]))
    ensures NextTag(buf, from, to) == Some(k)
    decreases k - from
  {
    hide IsNextTag;
    if from < k {
      TagWithin(buf, from + 1, to, k);
    }
  }

  lemma TypeByteAt(buf: bytes, s: nat, r: Sub, next: u8, k: nat)
    requires SubOk(r) && HasSub(buf, s, r, next) && k < |TypeBytes(r.ty)|
    ensures s + 2 + |r.name| + k < |buf| && buf[s + 2 + |r.name| + k] == TypeBytes(r.ty)[k]
  {
    hide IsName, OffsetBytes, OffsetOk, TypeBytes;
    assert Body(r)[k] == TypeBytes(r.ty)[k];
  }

  lemma OldReads(buf: bytes, s: nat, r: Sub, next: u8)
    requires SubOk(r) && HasSub(buf, s, r, next) && (r.ty.Old? || r.ty.OldOut?)
    ensures SubAt(buf, s) == Some(Parsed(r, s))
  {
    hide IsName, OffsetBytes, OffsetOk, WithOffset;
    var body := s + 2 + |r.name|;
    TypeByteAt(buf, s, r, next, 0);
    TypeByteAt(buf, s, r, next, 1);
    TypeByteAt(buf, s, r, next, 2);
    TypeByteAt(buf, s, r, next, 3);
    TypeByteAt(buf, s, r, next, |TypeBytes(r.ty)| - 1);
    var at := body + |TypeBytes(r.ty)|;
    forall k | 0 <= k < |OffsetBytes(r.offset)| ensures buf[at + k] == OffsetBytes(r.offset)[k] {
      assert buf[body + (|TypeBytes(r.ty)| + k)] == Body(r)[|TypeBytes(r.ty)| + k];
    }
    OffsetReads(buf, s, SubRec(r.tag, s + 2, |r.name|, r.ty.subtag, r.ty.marker, 0, false, 0, 0), at, r.offset);
  }

  /** The bytes of a new-style body, by position. */
  lemma NewBody(buf: bytes, s: nat, r: Sub, next: u8)
    requires SubOk(r) && HasSub(buf, s, r, next) && (r.ty.ByMarker? || r.ty.ByHash?)
    ensures var body, n := s + 2 + |r.name|, |TypeBytes(r.ty)|;
            && body + n + |OffsetBytes(r.offset)| < |buf|
            && buf[body] == SUBTAG_NEW && buf[body + 1] == 0 && buf[body + 2] == 0
            && buf[body + 3] == TypeBytes(r.ty)[3]
            && (r.ty.ByHash? ==> n == 5 && buf[body + 4] == r.ty.hash / 0x100)
            && (forall k | 0 <= k < |OffsetBytes(r.offset)| :: buf[body + n + k] == OffsetBytes(r.offset)[k])
            && buf[body + n + |OffsetBytes(r.offset)|] == next
  {
    hide IsName, OffsetBytes, OffsetOk;
    var body, n := s + 2 + |r.name|, |TypeBytes(r.ty)|;
    TypeByteAt(buf, s, r, next, 0);
    TypeByteAt(buf, s, r, next, 1);
    TypeByteAt(buf, s, r, next, 2);
    TypeByteAt(buf, s, r, next, 3);
    TypeByteAt(buf, s, r, next, n - 1);
    forall k | 0 <= k < |OffsetBytes(r.offset)| ensures buf[body + n + k] == OffsetBytes(r.offset)[k] {
      assert buf[body + (n + k)] == Body(r)[n + k];
    }
  }

  /** The parser on a new-style body that ends at `end`. */
  lemma NewSubAt(buf: bytes, s: nat, r: Sub, next: u8, end: nat)
    requires SubOk(r) && HasSub(buf, s, r, next) && (r.ty.ByMarker? || r.ty.ByHash?)
    requires var body := s + 2 + |r.name|;
             NextTag(buf, body + 5, if body + 16 < |buf| - 1 then body + 17 else |buf|) == Some(end)
    ensures var body := s + 2 + |r.name|;
            && body + 4 < |buf|
            && var c := IsComposite(buf, body, buf[body + 3], end - body);
               SubAt(buf, s)
               == if c.None? then None
                  else if c.value then
                    WithOffset(buf, s, SubRec(r.tag, s + 2, |r.name|, SUBTAG_NEW, 0, Word(buf[body + 3], buf[body + 4]),
                                              false, 0, 0), body + 5)
                  else
                    WithOffset(buf, s, SubRec(r.tag, s + 2, |r.name|, SUBTAG_NEW, buf[body + 3], 0, true, 0, 0), body + 4)
  {
    hide IsName, OffsetOk, OffsetBytes, WithOffset, NextTag, IsNextTag, IsComposite, Word;
    NewBody(buf, s, r, next);
  }

  lemma MarkerReads(buf: bytes, s: nat, r: Sub, next: u8)
    requires SubOk(r) && HasSub(buf, s, r, next) && r.ty.ByMarker? && IsRecordTag(next)
    ensures Readable(r) <==> SubAt(buf, s) == Some(Parsed(r, s))
  {
    hide IsName, OffsetOk, WithOffset, NextTag, IsNextTag, IsRecordTag, SubAt, OffsetBytes, HasSub;
    RecordTags();
    NewBody(buf, s, r, next);
    var body := s + 2 + |r.name|;
    var o := OffsetBytes(r.offset);
    OffsetParity(r.offset);
    OffsetReads(buf, s, SubRec(r.tag, s + 2, |r.name|, SUBTAG_NEW, r.ty.marker, 0, true, 0, 0), body + 4, r.offset);
    var to := if body + 16 < |buf| - 1 then body + 17 else |buf|;
    assert buf[body + 4 + 0] == o[0];
    if r.offset.Short? || IsRecordTag(o[1]) {
      if r.offset.Long? {
        assert buf[body + 4 + 1] == o[1];
      }
      TagWithin(buf, body + 5, to, body + 5);
      NewSubAt(buf, s, r, next, body + 5);
    } else {
      assert buf[body + 4 + 1] == o[1];
      TagWithin(buf, body + 5, to, body + 6);
      NewSubAt(buf, s, r, next, body + 6);
    }
  }

  lemma OffsetParity(o: Offset)
    requires OffsetOk(o)
    ensures OffsetBytes(o)[0] % 2 == if o.Short? then 0 else 1
  {
    hide AsSigned, Word;
    if o.Long? {
      LongReads(o.stored);
    } else {
      ShortReads(o.stored);
    }
  }

  lemma HashBytes(hash: u16)
    ensures hash % 0x100 + 256 * (hash / 0x100) == hash && hash % 0x100 % 2 == hash % 2
  {
  }

  lemma HashReads(buf: bytes, s: nat, r: Sub, next: u8)
    requires SubOk(r) && HasSub(buf, s, r, next) && r.ty.ByHash? && IsRecordTag(next)
    ensures Readable(r) <==> SubAt(buf, s) == Some(Parsed(r, s))
  {
    hide IsName, OffsetOk, WithOffset, NextTag, IsNextTag, IsRecordTag, SubAt, OffsetBytes, HasSub;
    RecordTags();
    NewBody(buf, s, r, next);
    HashBytes(r.ty.hash);
    var body := s + 2 + |r.name|;
    var o := OffsetBytes(r.offset);
    OffsetReads(buf, s, SubRec(r.tag, s + 2, |r.name|, SUBTAG_NEW, 0, r.ty.hash, false, 0, 0), body + 5, r.offset);
    var to := if body + 16 < |buf| - 1 then body + 17 else |buf|;
    assert buf[body + 5 + 0] == o[0];
    if IsRecordTag(o[0]) {
      TagWithin(buf, body + 5, to, body + 5);
      NewSubAt(buf, s, r, next, body + 5);
    } else if r.offset.Short? || IsRecordTag(o[1]) {
      if r.offset.Long? {
        assert buf[body + 5 + 1] == o[1];
      }
      TagWithin(buf, body + 5, to, body + 6);
      NewSubAt(buf, s, r, next, body + 6);
    } else {
      assert buf[body + 5 + 1] == o[1];
      TagWithin(buf, body + 5, to, body + 7);
      NewSubAt(buf, s, r, next, body + 7);
    }
  }

  /** A sub-record in front of the tag of another record is read back exactly when it is readable. */
  lemma SubRoundTrip(pre: bytes, r: Sub, next: u8, post: bytes)
    requires SubOk(r) && IsRecordTag(next)
    ensures Readable(r) <==> SubAt(pre + SubBytes(r) + ([next] + post), |pre|) == Some(Parsed(r, |pre|))
  {
    hide SubAt, HasSub, Parsed, SubBytes, IsRecordTag;
    SubPlaced(pre, r, next, post);
    var buf := pre + SubBytes(r) + ([next] + post);
    match r.ty
    case ByMarker(_) => MarkerReads(buf, |pre|, r, next);
    case ByHash(_) => HashReads(buf, |pre|, r, next);
    case _ => OldReads(buf, |pre|, r, next);
  }

  // ----- Nothing else is read ----------------------------------------------------------------------------

  lemma OffsetWritten(buf: bytes, s: nat, sub: SubRec, at: nat) returns (o: Offset)
    requires s <= at && WithOffset(buf, s, sub, at).Some?
    ensures OffsetOk(o) && at + |OffsetBytes(o)| <= |buf| && buf[at..at + |OffsetBytes(o)|] == OffsetBytes(o)
    ensures WithOffset(buf, s, sub, at).value == sub.(storedOff := o.stored, totalSize := at + |OffsetBytes(o)| - s)
  {
    hide AsSigned, Word;
    if buf[at] % 2 == 0 {
      o := Short(AsSigned(buf[at], 0x100));
      ShortBack(buf[at]);
    } else {
      var w := Word(buf[at], buf[at + 1]);
      o := Long((AsSigned(w, 0x1_0000) - 1) / 2);
      LongBack(buf[at], buf[at + 1]);
    }
  }

  lemma ShortBack(b: u8)
    requires b % 2 == 0
    ensures OffsetOk(Short(AsSigned(b, 0x100))) && AsSigned(b, 0x100) % 0x100 == b
  {
  }

  lemma LongBack(lo: u8, hi: u8)
    requires lo % 2 == 1
    ensures var v := (AsSigned(Word(lo, hi), 0x1_0000) - 1) / 2;
            OffsetOk(Long(v)) && (2 * v + 1) % 0x100 == lo && (2 * v + 1) / 0x100 % 0x100 == hi
  {
    var x := AsSigned(Word(lo, hi), 0x1_0000);
    var high: int := hi;
    var h := if x >= 0 then high else high - 0x100;
    assert x == 256 * h + lo;
    hide Word, AsSigned, OffsetOk;
    OddBack(x);
    Digits(h, lo);
    assert OffsetOk(Long((x - 1) / 2)) by { LongFits(x); }
  }

  lemma OddBack(x: int)
    requires x % 2 == 1
    ensures 2 * ((x - 1) / 2) + 1 == x
  {
  }

  lemma LongFits(x: int)
    requires -0x8000 <= x < 0x8000 && x % 2 == 1
    ensures OffsetOk(Long((x - 1) / 2))
  {
  }

  lemma Digits(h: int, lo: u8)
    requires -0x100 <= h < 0x100
    ensures (256 * h + lo) % 0x100 == lo && (256 * h + lo) / 0x100 == h && h % 0x100 == if h < 0 then h + 0x100 else h
    ensures lo % 2 == 1 ==> (256 * h + lo) % 2 == 1
  {
  }

  /** The type reference at the start of a body, and the record to which the parser adds an offset. */
  ghost predicate HasType(buf: bytes, s: nat, ty: TypeRef, sub: SubRec)
    requires s + 1 < |buf|
  {
    var body := s + 2 + buf[s + 1];
    && body + |TypeBytes(ty)| <= |buf| && buf[body..body + |TypeBytes(ty)|] == TypeBytes(ty)
    && (ty.Old? || ty.OldOut? ==> ty.subtag != 0x66) && (ty.OldOut? ==> ty.second != 0)
    && SubAt(buf, s) == WithOffset(buf, s, sub, body + |TypeBytes(ty)|)
    && sub == SubRec(buf[s], s + 2, buf[s + 1], TypeBytes(ty)[0], if ty.ByHash? then 0 else ty.marker,
                     if ty.ByHash? then ty.hash else 0, ty.ByMarker?, 0, 0)
  }

  /** A body with a sub-tag of the older records, or with a new sub-tag and two zeros. */
  predicate KnownBody(buf: bytes, s: nat)
    requires SubAt(buf, s).Some?
  {
    var body := s + 2 + buf[s + 1];
    buf[body] == 0x66 ==> buf[body + 1] == 0 && buf[body + 2] == 0
  }

  lemma OldTypeWritten(buf: bytes, s: nat) returns (ty: TypeRef, sub: SubRec)
    requires SubAt(buf, s).Some? && buf[s + 2 + buf[s + 1]] != 0x66
    ensures HasType(buf, s, ty, sub)
  {
    hide IsName, WithOffset;
    var body := s + 2 + buf[s + 1];
    var at := MarkerAt(buf, body).value;
    ty := if at == body + 3 then Old(buf[body], buf[at]) else OldOut(buf[body], buf[body + 1], buf[at]);
    sub := SubRec(buf[s], s + 2, buf[s + 1], buf[body], buf[at], 0, false, 0, 0);
    hide SubAt;
    assert buf[body..at + 1] == TypeBytes(ty);
  }

  lemma NewTypeWritten(buf: bytes, s: nat) returns (ty: TypeRef, sub: SubRec)
    requires SubAt(buf, s).Some? && KnownBody(buf, s) && buf[s + 2 + buf[s + 1]] == 0x66
    ensures HasType(buf, s, ty, sub)
  {
    hide TypeBytes, Word;
    var body := s + 2 + buf[s + 1];
    sub := NewSubRead(buf, s);
    hide SubAt, WithOffset;
    if sub.isPrimitive {
      ty := ByMarker(buf[body + 3]);
      MarkerWritten(buf, body);
    } else {
      ty := ByHash(Word(buf[body + 3], buf[body + 4]));
      HashWritten(buf, body);
    }
  }

  lemma NewSubRead(buf: bytes, s: nat) returns (sub: SubRec)
    requires SubAt(buf, s).Some? && KnownBody(buf, s) && buf[s + 2 + buf[s + 1]] == 0x66
    ensures var body := s + 2 + buf[s + 1];
            && body + 5 < |buf| && buf[body + 1] == 0 && buf[body + 2] == 0
            && sub == (if sub.isPrimitive then SubRec(buf[s], s + 2, buf[s + 1], 0x66, buf[body + 3], 0, true, 0, 0)
                       else SubRec(buf[s], s + 2, buf[s + 1], 0x66, 0, Word(buf[body + 3], buf[body + 4]), false, 0, 0))
            && SubAt(buf, s) == WithOffset(buf, s, sub, if sub.isPrimitive then body + 4 else body + 5)
  {
    hide IsName, WithOffset, IsNextTag, NextTag, IsComposite, Word;
    var body := s + 2 + buf[s + 1];
    sub := if SubAt(buf, s).value.isPrimitive then SubRec(buf[s], s + 2, buf[s + 1], 0x66, buf[body + 3], 0, true, 0, 0)
           else SubRec(buf[s], s + 2, buf[s + 1], 0x66, 0, Word(buf[body + 3], buf[body + 4]), false, 0, 0);
  }

  lemma MarkerWritten(buf: bytes, body: nat)
    requires body + 4 <= |buf| && buf[body] == 0x66 && buf[body + 1] == 0 && buf[body + 2] == 0
    ensures var ty := TypeBytes(ByMarker(buf[body + 3])); |ty| == 4 && ty[0] == 0x66 && buf[body..body + 4] == ty
  {
  }

  lemma HashWritten(buf: bytes, body: nat)
    requires body + 5 <= |buf| && buf[body] == 0x66 && buf[body + 1] == 0 && buf[body + 2] == 0
    ensures var ty := TypeBytes(ByHash(Word(buf[body + 3], buf[body + 4])));
            |ty| == 5 && ty[0] == 0x66 && buf[body..body + 5] == ty
  {
  }

  /** What is read as a sub-record was written as one, save for a new sub-tag with a second byte. */
  lemma SubWritten(buf: bytes, s: nat) returns (r: Sub)
    requires SubAt(buf, s).Some? && KnownBody(buf, s)
    ensures SubOk(r) && SubAt(buf, s) == Some(Parsed(r, s))
    ensures s + |SubBytes(r)| <= |buf| && buf[s..s + |SubBytes(r)|] == SubBytes(r)
  {
    hide SubAt, HasType;
    HeadOfSub(buf, s);
    var body := s + 2 + buf[s + 1];
    var ty, sub;
    if buf[body] == 0x66 {
      ty, sub := NewTypeWritten(buf, s);
    } else {
      ty, sub := OldTypeWritten(buf, s);
    }
    r := SubOf(buf, s, ty, sub);
  }

  lemma SubOf(buf: bytes, s: nat, ty: TypeRef, sub: SubRec) returns (r: Sub)
    requires SubAt(buf, s).Some? && HasType(buf, s, ty, sub)
    requires buf[s] in {0x20, 0x21, 0x22} && 1 <= buf[s + 1] <= 64 && IsName(buf[s + 2..s + 2 + buf[s + 1]])
    ensures SubOk(r) && SubAt(buf, s) == Some(Parsed(r, s))
    ensures s + |SubBytes(r)| <= |buf| && buf[s..s + |SubBytes(r)|] == SubBytes(r)
  {
    hide SubAt, WithOffset, TypeBytes, OffsetBytes, OffsetOk, IsName;
    var body := s + 2 + buf[s + 1];
    var o := OffsetWritten(buf, s, sub, body + |TypeBytes(ty)|);
    r := Sub(buf[s], buf[s + 2..body], ty, o);
    SubMade(buf, s, r);
  }

  lemma SubMade(buf: bytes, s: nat, r: Sub)
    requires SubOk(r) && s + 2 + |r.name| + |TypeBytes(r.ty)| + |OffsetBytes(r.offset)| <= |buf|
    requires var body := s + 2 + |r.name|; var at := body + |TypeBytes(r.ty)|;
             && buf[s] == r.tag && buf[s + 1] == |r.name| && buf[s + 2..body] == r.name
             && buf[body..at] == TypeBytes(r.ty) && buf[at..at + |OffsetBytes(r.offset)|] == OffsetBytes(r.offset)
    ensures |SubBytes(r)| == 2 + |r.name| + |TypeBytes(r.ty)| + |OffsetBytes(r.offset)|
    ensures buf[s..s + |SubBytes(r)|] == SubBytes(r)
  {
    hide IsName, TypeBytes, OffsetBytes, OffsetOk;
    var body := s + 2 + |r.name|;
    var at := body + |TypeBytes(r.ty)|;
    SubPieces(buf, s, body, at, at + |OffsetBytes(r.offset)|);
  }

  lemma HeadOfSub(buf: bytes, s: nat)
    requires SubAt(buf, s).Some?
    ensures s + 7 + buf[s + 1] < |buf|
    ensures buf[s] in {0x20, 0x21, 0x22} && 1 <= buf[s + 1] <= 64 && IsName(buf[s + 2..s + 2 + buf[s + 1]])
  {
    hide IsName, WithOffset, NextTag, IsComposite, MarkerAt;
  }

  lemma SubPieces(buf: bytes, s: nat, body: nat, at: nat, end: nat)
    requires s + 2 <= body <= at <= end <= |buf|
    ensures buf[s..end] == [buf[s], buf[s + 1]] + buf[s + 2..body] + buf[body..at] + buf[at..end]
  {
  }

  /** An older record is read back whatever is behind it, a new one in front of the tag of another record. */
  lemma SubReads(pre: bytes, r: Sub, next: u8, post: bytes)
    requires SubOk(r) && Readable(r) && (r.ty.ByMarker? || r.ty.ByHash? ==> IsRecordTag(next))
    ensures SubAt(pre + SubBytes(r) + ([next] + post), |pre|) == Some(Parsed(r, |pre|))
  {
    hide SubAt, HasSub, Parsed, SubBytes, IsRecordTag;
    if r.ty.ByMarker? || r.ty.ByHash? {
      SubRoundTrip(pre, r, next, post);
    } else {
      SubPlaced(pre, r, next, post);
      OldReads(pre + SubBytes(r) + ([next] + post), |pre|, r, next);
    }
  }

  /** An even hash with an odd high byte and an offset of one byte: six bytes that read as a marker, whose offset
      starts with the high byte. */
  lemma HashMisread(pre: bytes, next: u8, post: bytes)
    requires IsRecordTag(next)
    ensures var r := Sub(0x20, [0x41], ByHash(0x0102), Short(0));
            && SubOk(r) && !Readable(r)
            && SubBytes(r) == [0x20, 1, 0x41, 0x66, 0, 0, 0x02, 0x01, 0]
            && SubAt(pre + SubBytes(r) + ([next] + post), |pre|)
               == Some(SubRec(0x20, |pre| + 2, 1, 0x66, 0x02, 0, true, 0, 9))
  {
    var s, d := |pre|, [0x20, 1, 0x41, 0x66, 0, 0, 0x02, 0x01, 0];
    assert SubBytes(Sub(0x20, [0x41], ByHash(0x0102), Short(0))) == d;
    var buf := pre + d + ([next] + post);
    assert forall k | 0 <= k < 9 :: buf[s + k] == d[k];
    SixByteBody(buf, s, next);
  }

  lemma SixByteBody(buf: bytes, s: nat, next: u8)
    requires s + 9 < |buf| && buf[s..s + 9] == [0x20, 1, 0x41, 0x66, 0, 0, 0x02, 0x01, 0]
    requires IsRecordTag(next) && buf[s + 9] == next
    ensures SubAt(buf, s) == Some(SubRec(0x20, s + 2, 1, 0x66, 0x02, 0, true, 0, 9))
  {
    hide NextTag;
    var d := buf[s..s + 9];
    assert buf[s] == d[0] && buf[s + 1] == d[1] && buf[s + 2] == d[2] && buf[s + 3] == d[3] && buf[s + 4] == d[4];
    assert buf[s + 5] == d[5] && buf[s + 6] == d[6] && buf[s + 7] == d[7] && buf[s + 8] == d[8];
    assert buf[s + 2..s + 3] == [0x41];
    TagWithin(buf, s + 8, if s + 19 < |buf| - 1 then s + 20 else |buf|, s + 9);
  }
}
