/** Byte strings, little-endian integers and LEB128 (section 7.6 of the DWARF v5 standard):
    the encodings the emitter writes, and the decodings a reader applies. */
module Bytes {

  type u8 = x: int | 0 <= x < 0x100
  type u16 = x: int | 0 <= x < 0x1_0000
  type u32 = x: int | 0 <= x < 0x1_0000_0000
  type u64 = x: int | 0 <= x < 0x1_0000_0000_0000_0000
  type i32 = x: int | -0x8000_0000 <= x < 0x8000_0000
  type i64 = x: int | -0x8000_0000_0000_0000 <= x < 0x8000_0000_0000_0000
  type bytes = seq<u8>

  datatype Option<+T> = None | Some(value: T) {
    predicate IsFailure() { None? }
    function PropagateFailure<U>(): Option<U> requires None? { None }
    function Extract(): T requires Some? { value }
  }

  /** The outcome of reading one item from the front of a byte string. */
  datatype Read<+T> = Bad | Got(item: T, rest: bytes) {
    predicate IsFailure() { Bad? }
    function PropagateFailure<U>(): Read<U> requires Bad? { Bad }
    function Extract(): (T, bytes) requires Got? { (item, rest) }
  }

  // ----- Sequences ------------------------------------------------------------

  lemma Assoc(a: bytes, b: bytes, c: bytes)
    ensures a + b + c == a + (b + c)
  {
  }

  lemma After(a: bytes, b: bytes)
    ensures (a + b)[|a|..] == b && (a + b)[..|a|] == a
  {
  }

  lemma SubRange(s: bytes, x: nat, y: nat, p: nat, q: nat)
    requires x <= y <= |s| && p <= q <= y - x
    ensures s[x..y][p..q] == s[x + p..x + q]
  {
    var l, r := s[x..y][p..q], s[x + p..x + q];
    assert |l| == |r|;
    forall i | 0 <= i < |l| ensures l[i] == r[i] {
      assert l[i] == s[x..y][p + i] == s[x + (p + i)];
      assert r[i] == s[(x + p) + i];
    }
  }

  lemma Regrouped(a: bytes, b: bytes, c: bytes, d: bytes)
    ensures a + b + c + d == a + (b + (c + d))
  {
  }

  lemma Patched(a: bytes, b: bytes, c: bytes)
    ensures (a + b + c)[..|a|] == a && (a + b + c)[|a| + |b|..] == c
  {
  }

  // ----- Fixed-width little-endian integers ---------------------------------

  function Pow256(n: nat): (p: nat)
    ensures p > 0
  {
    if n == 0 then 1 else 256 * Pow256(n - 1)
  }

  /** The low `n` bytes of `v`, least significant first. */
  function Le(v: nat, n: nat): (r: bytes)
    ensures |r| == n
  {
    if n == 0 then [] else [v % 256] + Le(v / 256, n - 1)
  }

  function FromLe(s: bytes): (v: nat)
  {
    if s == [] then 0 else s[0] + 256 * FromLe(s[1..])
  }

  lemma {:induction false} ModPow(v: nat, p: nat)
    requires p > 0
    ensures v % (256 * p) == v % 256 + 256 * ((v / 256) % p)
  {
    var q, r := v / 256, v % 256;
    var a, b := q / p, q % p;
    assert v == 256 * q + r;
    assert q == p * a + b;
    assert v == (256 * p) * a + (256 * b + r);
    assert 256 * b + r < 256 * p;
    ModUnique(v, 256 * p, a, 256 * b + r);
  }

  lemma ModUnique(v: nat, d: nat, k: nat, r: nat)
    requires d > 0 && v == d * k + r && r < d
    ensures v % d == r && v / d == k
  {
    assert v == d * (v / d) + v % d;
    var e := k - v / d;
    assert d * e == v % d - r by { assert d * e == d * k - d * (v / d); }
    MulSign(d, e);
  }

  lemma MulSign(d: int, e: int)
    requires d > 0
    ensures e > 0 ==> d * e >= d
    ensures e < 0 ==> d * e <= -d
  {
  }

  /** Reading back an `n`-byte little-endian integer gives the value the `n`-byte cast keeps. */
  lemma {:induction false} LeRoundTrip(v: nat, n: nat)
    ensures FromLe(Le(v, n)) == v % Pow256(n)
  {
    if n > 0 {
      LeRoundTrip(v / 256, n - 1);
      ModPow(v, Pow256(n - 1));
      assert Le(v, n)[1..] == Le(v / 256, n - 1);
    } else {
      assert v % 1 == 0;
    }
  }

  /** Byte `i` of the encoding is `v >> 8 * i`, truncated. */
  lemma {:induction false} LeByte(v: nat, n: nat, i: nat)
    requires i < n
    ensures Le(v, n)[i] == v / Pow256(i) % 256
  {
    if i > 0 {
      LeByte(v / 256, n - 1, i - 1);
      DivDiv(v, Pow256(i - 1));
    }
  }

  lemma DivDiv(v: nat, p: nat)
    requires p > 0
    ensures v / 256 / p == v / (256 * p)
  {
    var q, r := v / 256, v % 256;
    var a, b := q / p, q % p;
    assert q == p * a + b;
    assert v == (256 * p) * a + (256 * b + r);
    ModUnique(v, 256 * p, a, 256 * b + r);
  }

  lemma {:induction false} FromLeBound(s: bytes)
    ensures FromLe(s) < Pow256(|s|)
  {
    if s != [] {
      FromLeBound(s[1..]);
    }
  }

  lemma Pow256Values()
    ensures Pow256(1) == 0x100 && Pow256(2) == 0x1_0000 && Pow256(4) == 0x1_0000_0000
    ensures Pow256(8) == 0x1_0000_0000_0000_0000
  {
    assert Pow256(1) == 256 * Pow256(0);
    assert Pow256(2) == 256 * Pow256(1);
    assert Pow256(3) == 256 * Pow256(2);
    assert Pow256(4) == 256 * Pow256(3);
    assert Pow256(5) == 256 * Pow256(4);
    assert Pow256(6) == 256 * Pow256(5);
    assert Pow256(7) == 256 * Pow256(6);
  }

  function ReadLe(n: nat, s: bytes): (r: Read<nat>)
    ensures r.Got? ==> |r.rest| == |s| - n
  {
    if |s| < n then Bad else Got(FromLe(s[..n]), s[n..])
  }

  lemma ReadLeEncoded(v: nat, n: nat, rest: bytes)
    ensures ReadLe(n, Le(v, n) + rest) == Got(v % Pow256(n), rest)
  {
    LeRoundTrip(v, n);
    assert (Le(v, n) + rest)[..n] == Le(v, n);
    assert (Le(v, n) + rest)[n..] == rest;
  }

  /** The widths in use: one, two, four and eight bytes. */
  predicate InWidth(v: nat, n: nat) {
    || (n == 1 && v < 0x100) || (n == 2 && v < 0x1_0000)
    || (n == 4 && v < 0x1_0000_0000) || (n == 8 && v < 0x1_0000_0000_0000_0000)
  }

  lemma ReadLeFits(v: nat, n: nat, rest: bytes)
    requires InWidth(v, n)
    ensures ReadLe(n, Le(v, n) + rest) == Got(v, rest)
  {
    Pow256Values();
    ReadLeEncoded(v, n, rest);
    SmallMod(v, Pow256(n));
  }

  lemma SmallMod(v: nat, d: nat)
    requires v < d
    ensures v % d == v
  {
    ModUnique(v, d, 0, v);
  }

  lemma ReadOneByte(v: u8, rest: bytes)
    ensures ReadLe(1, [v] + rest) == Got(v as nat, rest)
  {
    assert ([v] + rest)[..1] == [v] && ([v] + rest)[1..] == rest;
    assert FromLe([v]) == v + 256 * FromLe([]);
  }

  // ----- Two's complement ------------------------------------------------------

  function Word(lo: u8, hi: u8): u16 {
    var high: int := hi;
    256 * high + lo
  }

  /** The value in `[-n/2, n/2)` that is `v` modulo `n`. */
  function AsSigned(v: nat, n: nat): (r: int)
    requires v < n && n % 2 == 0
    ensures -(n / 2) <= r < n / 2 && (r == v || r == v - n)
  {
    if v < n / 2 then v else v - n
  }

  function SignedLe(s: bytes): i32
    requires |s| == 4
  {
    FromLeBound(s);
    Pow256Values();
    AsSigned(FromLe(s), 0x1_0000_0000)
  }

  function Unsigned32(v: int): u32
    requires -0x8000_0000 <= v < 0x8000_0000
  {
    if v < 0 then v + 0x1_0000_0000 else v
  }

  lemma SignedLeReads(v: int)
    requires -0x8000_0000 <= v < 0x8000_0000
    ensures SignedLe(Le(Unsigned32(v), 4)) == v
  {
    hide Le, FromLe;
    LeRoundTrip(Unsigned32(v), 4);
    Pow256Values();
    SmallMod(Unsigned32(v), Pow256(4));
  }

  // ----- LEB128 --------------------------------------------------------------

  function Uleb(v: nat): (r: bytes)
    ensures |r| > 0
  {
    if v < 128 then [v] else [v % 128 + 128] + Uleb(v / 128)
  }

  function ReadUleb(s: bytes): (r: Read<nat>)
    ensures r.Got? ==> |r.rest| < |s|
  {
    if s == [] then Bad
    else if s[0] < 128 then Got(s[0], s[1..])
    else
      var (hi, rest) :- ReadUleb(s[1..]);
      Got(s[0] - 128 + 128 * hi, rest)
  }

  /** Arithmetic shift right by seven and `& 0x7F` on two's complement are floor division
      and remainder by 128, which Dafny's operators are for a positive divisor. */
  function Sleb(v: int): (r: bytes)
    ensures |r| > 0
    decreases if v >= 0 then v else -v - 1
  {
    var b, w := v % 128, v / 128;
    if (w == 0 && b < 64) || (w == -1 && b >= 64) then [b] else [b + 128] + Sleb(w)
  }

  function ReadSleb(s: bytes): (r: Read<int>)
    ensures r.Got? ==> |r.rest| < |s|
  {
    if s == [] then Bad
    else
      var b: int := s[0];
      if b < 64 then Got(b, s[1..])
      else if b < 128 then Got(b - 128, s[1..])
      else
        var (hi, rest) :- ReadSleb(s[1..]);
        Got(b - 128 + 128 * hi, rest)
  }

  lemma {:induction false} UlebRoundTrip(v: nat, rest: bytes)
    ensures ReadUleb(Uleb(v) + rest) == Got(v, rest)
  {
    var s := Uleb(v) + rest;
    if v < 128 {
      assert s[1..] == rest;
    } else {
      UlebRoundTrip(v / 128, rest);
      assert s[1..] == Uleb(v / 128) + rest;
    }
  }

  lemma {:induction false} SlebRoundTrip(v: int, rest: bytes)
    ensures ReadSleb(Sleb(v) + rest) == Got(v, rest)
    decreases if v >= 0 then v else -v - 1
  {
    var s := Sleb(v) + rest;
    var b, w := v % 128, v / 128;
    if (w == 0 && b < 64) || (w == -1 && b >= 64) {
      assert s[1..] == rest;
    } else {
      SlebRoundTrip(w, rest);
      assert s[1..] == Sleb(w) + rest;
    }
  }

  /** No byte string that reads as `v` is shorter than `Uleb(v)`. */
  lemma {:induction false} UlebMinimal(s: bytes)
    requires ReadUleb(s).Got?
    ensures |Uleb(ReadUleb(s).item)| <= |s| - |ReadUleb(s).rest|
  {
    if s[0] >= 128 {
      UlebMinimal(s[1..]);
      var hi := ReadUleb(s[1..]).item;
      assert (s[0] - 128 + 128 * hi) / 128 == hi;
    }
  }

  /** No byte string that reads as `v` is shorter than `Sleb(v)`. */
  lemma {:induction false} SlebMinimal(s: bytes)
    requires ReadSleb(s).Got?
    ensures |Sleb(ReadSleb(s).item)| <= |s| - |ReadSleb(s).rest|
  {
    if s[0] >= 128 {
      SlebMinimal(s[1..]);
      var hi := ReadSleb(s[1..]).item;
      assert (s[0] - 128 + 128 * hi) / 128 == hi;
    }
  }

  lemma SmallUlebs()
    ensures forall v: u8 | v < 128 :: Uleb(v) == [v]
  {
  }

  lemma ReadSmallUleb(v: u8, rest: bytes)
    requires v < 128
    ensures ReadUleb([v] + rest) == Got(v as nat, rest)
  {
    assert ([v] + rest)[1..] == rest;
  }

  // ----- NUL-terminated strings ------------------------------------------------

  predicate NoNul(s: bytes) { 0 !in s }

  function ReadCStr(s: bytes): (r: Read<bytes>)
    ensures r.Got? ==> |r.rest| < |s|
  {
    if s == [] then Bad
    else if s[0] == 0 then Got([], s[1..])
    else
      var (tail, rest) :- ReadCStr(s[1..]);
      Got([s[0]] + tail, rest)
  }

  /** The bytes of an ASCII name. */
  function Ascii(s: string): (r: bytes)
    ensures NoNul(r)
  {
    seq(|s|, i requires 0 <= i < |s| => if 0 as char < s[i] < 128 as char then s[i] as int else 0x3F)
  }

  lemma {:induction false} CStrRoundTrip(t: bytes, rest: bytes)
    requires NoNul(t)
    ensures ReadCStr(t + [0] + rest) == Got(t, rest)
  {
    var s := t + [0] + rest;
    if t == [] {
      assert s[1..] == rest;
    } else {
      assert s[1..] == t[1..] + [0] + rest;
      CStrRoundTrip(t[1..], rest);
      assert [t[0]] + t[1..] == t;
    }
  }

  /** A mutable buffer of bytes, written at the end and patched in place. */
  class BytesBuf {
    var data: bytes

    constructor ()
      ensures data == []
    {
      data := [];
    }

    method U8(v: u8)
      modifies this
      ensures data == old(data) + [v]
    {
      data := data + [v];
    }

    /** The `u16`, `u32` and `u64` writers: `n` bytes, each `v >> 8 * i` truncated. */
    method Fixed(v: nat, n: nat)
      modifies this
      ensures data == old(data) + Le(v, n)
    {
      for i := 0 to n
        invariant data == old(data) + Le(v, n)[..i]
      {
        LeByte(v, n, i);
        data := data + [v / Pow256(i) % 256];
      }
    }

    method Uleb128(value: nat)
      modifies this
      ensures data == old(data) + Uleb(value)
    {
      var v := value;
      while true
        invariant data + Uleb(v) == old(data) + Uleb(value)
        decreases v
      {
        var b := v % 128;
        var w := v / 128;
        ghost var before := data;
        data := data + [if w != 0 then b + 128 else b];
        if w == 0 {
          assert Uleb(v) == [b];
          break;
        }
        assert Uleb(v) == [b + 128] + Uleb(w);
        assert before + Uleb(v) == data + Uleb(w);
        v := w;
      }
    }

    method Sleb128(value: int)
      modifies this
      ensures data == old(data) + Sleb(value)
    {
      var v := value;
      var more := true;
      while more
        invariant more ==> data + Sleb(v) == old(data) + Sleb(value)
        invariant !more ==> data == old(data) + Sleb(value)
        decreases more, if v >= 0 then v else -v - 1
      {
        var b := v % 128;
        ghost var u, before := v, data;
        v := v / 128;
        var sign := b >= 64;
        if (v == 0 && !sign) || (v == -1 && sign) {
          more := false;
        } else {
          b := b + 128;
        }
        data := data + [b];
        assert more ==> before + Sleb(u) == data + Sleb(v);
      }
    }

    method CStr(s: bytes)
      modifies this
      ensures data == old(data) + s + [0]
    {
      data := data + s;
      data := data + [0];
    }

    method Raw(s: bytes)
      modifies this
      ensures data == old(data) + s
    {
      data := data + s;
    }

    method ReservedU32() returns (off: nat)
      modifies this
      ensures off == |old(data)| && data == old(data) + [0, 0, 0, 0]
    {
      off := |data|;
      data := data + [0, 0, 0, 0];
    }

    method PatchU32(off: nat, v: nat)
      requires off + 4 <= |data|
      modifies this
      ensures data == old(data)[..off] + Le(v, 4) + old(data)[off + 4..]
    {
      for i := 0 to 4
        invariant |data| == |old(data)|
        invariant data == old(data)[..off] + Le(v, 4)[..i] + old(data)[off + i..]
      {
        LeByte(v, 4, i);
        data := data[off + i := v / Pow256(i) % 256];
      }
    }
  }
}
