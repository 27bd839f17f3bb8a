/** Long section names: `/N` fields, and the COFF string table extended with new names. */
module PeNames {
  import opened Bytes
  import opened PeImage
  import opened PeView

  // ----- Decimal ----------------------------------------------------------------------------

  function Pow10(n: nat): nat {
    if n == 0 then 1 else 10 * Pow10(n - 1)
  }

  /** `%u`. */
  function Decimal(n: nat): (r: bytes)
    ensures r != [] && forall i | 0 <= i < |r| :: IsDigit(r[i])
  {
    if n < 10 then [DIGIT_0 + n] else Decimal(n / 10) + [DIGIT_0 + n % 10]
  }

  lemma {:induction false} DecimalLength(n: nat, k: nat)
    requires k > 0 && n < Pow10(k)
    ensures |Decimal(n)| <= k
  {
    if n >= 10 {
      DecimalLength(n / 10, k - 1);
    }
  }

  lemma {:induction false} DecValueAppend(a: bytes, d: u8, acc: nat)
    requires (forall i | 0 <= i < |a| :: IsDigit(a[i])) && IsDigit(d)
    ensures DecValue(a + [d], acc) == 10 * DecValue(a, acc) + (d - DIGIT_0)
  {
    if a == [] {
      assert a + [d] == [d];
      assert DecValue([d][1..], 10 * acc + (d - DIGIT_0)) == 10 * acc + (d - DIGIT_0);
    } else {
      assert (a + [d])[1..] == a[1..] + [d];
      DecValueAppend(a[1..], d, 10 * acc + (a[0] - DIGIT_0));
    }
  }

  lemma {:induction false} DecimalRoundTrip(n: nat)
    ensures DecValue(Decimal(n), 0) == n
  {
    if n >= 10 {
      DecimalRoundTrip(n / 10);
      DecValueAppend(Decimal(n / 10), DIGIT_0 + n % 10, 0);
    } else {
      assert Decimal(n)[1..] == [];
    }
  }

  const MAX_STRTAB := 10_000_000

  /** The name field for a string-table offset: a slash, the offset in decimal, and NULs. */
  function LongName(off: nat): (r: bytes)
    requires off < MAX_STRTAB
    ensures |r| == 8
  {
    LongNameFits(off);
    [SLASH] + Decimal(off) + Zeros(7 - |Decimal(off)|)
  }

  lemma LongNameFits(off: nat)
    requires off < MAX_STRTAB
    ensures |Decimal(off)| <= 7
  {
    assert Pow10(7) == 10_000_000 by {
      assert Pow10(3) == 1000;
      assert Pow10(5) == 100 * Pow10(3);
    }
    DecimalLength(off, 7);
  }

  lemma {:induction false} TrimNulOfText(t: bytes, rest: bytes)
    requires NoNul(t) && (rest == [] || rest[0] == 0)
    ensures TrimNul(t + rest) == t
  {
    if t == [] {
      assert t + rest == rest;
    } else {
      assert (t + rest)[1..] == t[1..] + rest;
      TrimNulOfText(t[1..], rest);
    }
  }

  lemma LongNameReads(off: nat)
    requires off < MAX_STRTAB
    ensures LongName(off)[0] == SLASH
    ensures TrimNul(LongName(off)[1..]) == Decimal(off) && DecValue(Decimal(off), 0) == off
  {
    hide Decimal;
    LongNameFits(off);
    var pad := Zeros(7 - |Decimal(off)|);
    assert LongName(off)[1..] == Decimal(off) + pad;
    TrimNulOfText(Decimal(off), pad);
    DecimalRoundTrip(off);
  }

  // ----- The extended string table -----------------------------------------------------------

  /** The names, each with its terminator. */
  function NamesBytes(names: seq<bytes>): bytes {
    if names == [] then [] else names[0] + [0] + NamesBytes(names[1..])
  }

  /** The table without its size field. */
  function StrTabBody(old_: bytes, names: seq<bytes>): bytes
    requires |old_| >= 4
  {
    old_[4..] + NamesBytes(names)
  }

  /** The old table with the names appended and its size field rewritten. */
  function ExtendedStrTab(old_: bytes, names: seq<bytes>): (r: bytes)
    requires |old_| >= 4
    ensures |r| == |old_| + |NamesBytes(names)|
  {
    Le(|old_| + |NamesBytes(names)|, 4) + StrTabBody(old_, names)
  }

  lemma NamesBytesAdd(names: seq<bytes>, name: bytes)
    ensures NamesBytes(names + [name]) == NamesBytes(names) + name + [0]
  {
    if names == [] {
      assert [name][1..] == [];
    } else {
      assert (names + [name])[1..] == names[1..] + [name];
      NamesBytesAdd(names[1..], name);
    }
  }

  lemma {:induction false} NamesBytesSplit(names: seq<bytes>, j: nat)
    requires j < |names|
    ensures NamesBytes(names) == NamesBytes(names[..j]) + (names[j] + [0] + NamesBytes(names[j + 1..]))
  {
    if j > 0 {
      NamesBytesSplit(names[1..], j - 1);
      assert names[..j][1..] == names[1..][..j - 1];
      assert names[1..][j..] == names[j + 1..];
    } else {
      assert names[..0] == [];
    }
  }

  /** Each new name is at its own offset, terminated. */
  lemma NewNameReads(old_: bytes, names: seq<bytes>, j: nat)
    requires |old_| >= 4 && j < |names| && NoNul(names[j]) && names[j] != []
    requires |old_| + |NamesBytes(names)| <= MAX_STRTAB
    ensures |old_| + |NamesBytes(names[..j])| < |old_| + |NamesBytes(names)|
    ensures var off := |old_| + |NamesBytes(names[..j])|;
            var strtab := Some(ExtendedStrTab(old_, names));
            NameOk(LongName(off), strtab) && ResolveName(LongName(off), strtab) == names[j]
  {
    hide Le, Decimal, TrimNul, DecValue, NamesBytes, LongName;
    var before, after := NamesBytes(names[..j]), NamesBytes(names[j + 1..]);
    NamesBytesSplit(names, j);
    var off := |old_| + |before|;
    var table := ExtendedStrTab(old_, names);
    LongNameReads(off);
    var tail := [0] + after;
    assert table[off..] == names[j] + tail;
    assert (names[j] + tail)[|names[j]|] == 0;
    TrimNulOfText(names[j], tail);
  }

  method BuildStrTab(old_: bytes, names: seq<bytes>) returns (strtab: bytes, offsets: seq<nat>)
    requires |old_| >= 4 && InWidth(|old_| + |NamesBytes(names)|, 4)
    ensures strtab == ExtendedStrTab(old_, names)
    ensures |offsets| == |names| && forall j | 0 <= j < |names| :: offsets[j] == |old_| + |NamesBytes(names[..j])|
  {
    hide Put, Le, Zeros, NamesBytes;
    var size;
    offsets, size := NameOffsets(|old_|, names);
    ghost var z := Zeros(size);
    strtab := Put(Zeros(size), 0, old_);
    ghost var s0 := strtab;
    PutSame(z, 0, old_);
    strtab := Put(strtab, 0, Le(size, 4));
    PutSame(s0, 0, Le(size, 4));
    PutOther(s0, 0, Le(size, 4), 4, |old_|);
    assert strtab[..|old_|] == strtab[0..4] + strtab[4..|old_|];
    assert s0[4..|old_|] == s0[0..|old_|][4..];
    strtab := PlaceNames(strtab, Le(size, 4) + old_[4..], names, offsets);
    Assoc(Le(size, 4), old_[4..], NamesBytes(names));
  }

  /** Where each name goes, behind `start` bytes, and where they end. */
  method NameOffsets(start: nat, names: seq<bytes>) returns (offsets: seq<nat>, size: nat)
    ensures size == start + |NamesBytes(names)|
    ensures |offsets| == |names| && forall j | 0 <= j < |names| :: offsets[j] == start + |NamesBytes(names[..j])|
  {
    hide NamesBytes;
    size := start;
    offsets := [];
    assert NamesBytes(names[..0]) == [] by { NoNames(names[..0]); }
    for i := 0 to |names|
      invariant size == start + |NamesBytes(names[..i])|
      invariant |offsets| == i && forall j | 0 <= j < i :: offsets[j] == start + |NamesBytes(names[..j])|
    {
      offsets := offsets + [size];
      size := size + |names[i]| + 1;
      assert names[..i + 1] == names[..i] + [names[i]];
      NamesBytesAdd(names[..i], names[i]);
    }
    assert names[..|names|] == names;
  }

  /** Copies the names behind `head`, each to its offset. */
  method PlaceNames(table: bytes, ghost head: bytes, names: seq<bytes>, offsets: seq<nat>) returns (strtab: bytes)
    requires |table| == |head| + |NamesBytes(names)| && table[..|head|] == head
    requires |offsets| == |names| && forall j | 0 <= j < |names| :: offsets[j] == |head| + |NamesBytes(names[..j])|
    ensures strtab == head + NamesBytes(names)
  {
    hide Put, NamesBytes;
    strtab := table;
    assert NamesBytes(names[..0]) == [] by { NoNames(names[..0]); }
    for i := 0 to |names|
      invariant |strtab| == |table| && |head| + |NamesBytes(names[..i])| <= |strtab|
      invariant strtab[..|head| + |NamesBytes(names[..i])|] == head + NamesBytes(names[..i])
    {
      NamesBytesSplit(names, i);
      assert names[..i + 1] == names[..i] + [names[i]];
      NamesBytesAdd(names[..i], names[i]);
      PutNext(strtab, head + NamesBytes(names[..i]), names[i] + [0]);
      strtab := Put(strtab, offsets[i], names[i] + [0]);
    }
    assert names[..|names|] == names && strtab[..|strtab|] == strtab;
  }

  lemma PutNext(s: bytes, done: bytes, d: bytes)
    requires |done| + |d| <= |s| && s[..|done|] == done
    ensures Put(s, |done|, d)[..|done| + |d|] == done + d
  {
    hide Put;
    var t := Put(s, |done|, d);
    PutOther(s, |done|, d, 0, |done|);
    PutSame(s, |done|, d);
    assert t[..|done| + |d|] == t[0..|done|] + t[|done|..|done| + |d|];
    assert s[0..|done|] == s[..|done|];
  }

  lemma NoNames(names: seq<bytes>)
    requires names == []
    ensures NamesBytes(names) == []
  {
  }
}
