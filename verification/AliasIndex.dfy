/** The hash indexes over the aggregates of an RSM file: every aggregate under its own hash, and under
    aliases that never take the place of an own hash. */
module AliasIndex {
  import opened Bytes
  import opened RsmModel
  import opened Search

  // ----- What an index holds, for any kind of key ------------------------------------------------

  /** The keys one aggregate can be found by: its own, its linked one, and derived ones. */
  datatype Names<K> = Names(own: Option<K>, linked: Option<K>, derived: seq<K>)

  /** The last of the first `n` with the key as its own. */
  function LastOwn<K(==)>(names: seq<Names<K>>, n: nat, key: K): (r: Option<nat>)
    requires n <= |names|
    ensures r.Some? ==> r.value < n && names[r.value].own == Some(key)
    ensures r.Some? ==> forall k | r.value < k < n :: names[k].own != Some(key)
    ensures r.None? ==> forall k | 0 <= k < n :: names[k].own != Some(key)
  {
    if n == 0 then None else if names[n - 1].own == Some(key) then Some(n - 1) else LastOwn(names, n - 1, key)
  }

  /** The first of the first `n` with the key as its linked one. */
  function FirstLinked<K(==)>(names: seq<Names<K>>, n: nat, key: K): (r: Option<nat>)
    requires n <= |names|
    ensures r.Some? ==> r.value < n && names[r.value].linked == Some(key)
    ensures r.Some? ==> forall k | 0 <= k < r.value :: names[k].linked != Some(key)
    ensures r.None? ==> forall k | 0 <= k < n :: names[k].linked != Some(key)
  {
    if n == 0 then None
    else
      var r := FirstLinked(names, n - 1, key);
      if r.Some? then r else if names[n - 1].linked == Some(key) then Some(n - 1) else None
  }

  function FirstDerived<K(==)>(names: seq<Names<K>>, n: nat, key: K): (r: Option<nat>)
    requires n <= |names|
    ensures r.Some? ==> r.value < n && key in names[r.value].derived
    ensures r.Some? ==> forall k | 0 <= k < r.value :: key !in names[k].derived
    ensures r.None? ==> forall k | 0 <= k < n :: key !in names[k].derived
  {
    if n == 0 then None
    else
      var r := FirstDerived(names, n - 1, key);
      if r.Some? then r else if key in names[n - 1].derived then Some(n - 1) else None
  }

  /** The last owner of a key, or else the first aggregate linked to it. */
  function Direct<K(==)>(names: seq<Names<K>>, n: nat, key: K): Option<nat>
    requires n <= |names|
  {
    var own := LastOwn(names, n, key);
    if own.Some? then own else FirstLinked(names, n, key)
  }

  /** What the finished index has for a key when the first `n` have added their derived keys. */
  function Final<K(==)>(names: seq<Names<K>>, n: nat, key: K): Option<nat>
    requires n <= |names|
  {
    var direct := Direct(names, |names|, key);
    if direct.Some? then direct else FirstDerived(names, n, key)
  }

  function Get<K(==)>(index: map<K, nat>, key: K): Option<nat> {
    if key in index then Some(index[key]) else None
  }

  ghost predicate HoldsDirect<K(!new)>(index: map<K, nat>, names: seq<Names<K>>, n: nat)
    requires n <= |names|
  {
    forall key: K :: Get(index, key) == Direct(names, n, key)
  }

  ghost predicate HoldsFinal<K(!new)>(index: map<K, nat>, names: seq<Names<K>>, n: nat)
    requires n <= |names|
  {
    forall key: K :: Get(index, key) == Final(names, n, key)
  }

  /** Adds the index under an alias that nothing has yet. */
  function WithAlias<K(==)>(index: map<K, nat>, key: K, k: nat): map<K, nat> {
    if key in index then index else index[key := k]
  }

  lemma DirectStep<K(!new)>(index: map<K, nat>, names: seq<Names<K>>, n: nat)
    requires n < |names| && HoldsDirect(index, names, n)
    requires names[n].own.Some? && names[n].linked.Some? ==> names[n].own != names[n].linked
    ensures var one := if names[n].own.Some? then index[names[n].own.value := n] else index;
            HoldsDirect(if names[n].linked.Some? then WithAlias(one, names[n].linked.value, n) else one, names, n + 1)
  {
    var one := if names[n].own.Some? then index[names[n].own.value := n] else index;
    var two := if names[n].linked.Some? then WithAlias(one, names[n].linked.value, n) else one;
    forall key: K ensures Get(two, key) == Direct(names, n + 1, key) {
      assert Get(index, key) == Direct(names, n, key);
    }
  }

  lemma NoNames<K(!new)>(names: seq<Names<K>>)
    ensures HoldsDirect(map[], names, 0)
  {
  }

  lemma FinalStarts<K(!new)>(index: map<K, nat>, names: seq<Names<K>>)
    requires HoldsDirect(index, names, |names|)
    ensures HoldsFinal(index, names, 0)
  {
  }

  function WithAliases<K(==)>(index: map<K, nat>, keys: seq<K>, k: nat): map<K, nat>
    decreases |keys|
  {
    if keys == [] then index else WithAliases(WithAlias(index, keys[0], k), keys[1..], k)
  }

  lemma {:induction false} AliasesGet<K>(index: map<K, nat>, keys: seq<K>, k: nat, key: K)
    ensures Get(WithAliases(index, keys, k), key)
            == if key in index then Some(index[key]) else if key in keys then Some(k) else None
    decreases |keys|
  {
    if keys != [] {
      AliasesGet(WithAlias(index, keys[0], k), keys[1..], k, key);
      assert keys == [keys[0]] + keys[1..];
    }
  }

  lemma FinalStep<K(!new)>(index: map<K, nat>, names: seq<Names<K>>, n: nat)
    requires n < |names| && HoldsFinal(index, names, n)
    ensures HoldsFinal(WithAliases(index, names[n].derived, n), names, n + 1)
  {
    hide Direct;
    forall key: K ensures Get(WithAliases(index, names[n].derived, n), key) == Final(names, n + 1, key) {
      assert Get(index, key) == Final(names, n, key);
      AliasesGet(index, names[n].derived, n, key);
    }
  }

  // ----- The keys of an aggregate -------------------------------------------------------------------

  datatype ClassHeader = ClassHeader(ownHash: u16, baseHash: u16)

  type Aggregates = seq<AggregateType>

  predicate IsLinked(a: AggregateType) {
    a.linkedHash != 0 && a.linkedHash != a.ownHash
  }

  /** The parent hash that the fields of an aggregate carry, from its linked hash. */
  function FieldParent(linked: u16): u16 {
    linked % 0x100 * 0x100 + 0x08
  }

  predicate HasHeader(headers: seq<ClassHeader>, hash: u16) {
    exists i | 0 <= i < |headers| :: headers[i].ownHash == hash
  }

  /** Scans the class headers with the low byte; 0 once two differ. */
  function HeaderByLow(headers: seq<ClassHeader>, low: nat, found: u16): u16
    decreases |headers|
  {
    if headers == [] then found
    else
      var h := headers[0].ownHash;
      if h % 0x100 != low then HeaderByLow(headers[1..], low, found)
      else if found == 0 then HeaderByLow(headers[1..], low, h)
      else if found != h then 0
      else HeaderByLow(headers[1..], low, found)
  }

  /** The class header an aggregate belongs to by its linked hash, other than directly; 0 for none. */
  function HeaderFor(headers: seq<ClassHeader>, a: AggregateType): u16 {
    if HasHeader(headers, a.linkedHash) then 0 else HeaderByLow(headers, a.linkedHash % 0x100, 0)
  }

  /** Aliases beyond the linked hash, for aggregates of a known unit. */
  function DerivedHashes(headers: seq<ClassHeader>, a: AggregateType): seq<u16> {
    if a.linkedHash == 0 || a.anchor == 0 then []
    else [FieldParent(a.linkedHash)] + if HeaderFor(headers, a) != 0 then [HeaderFor(headers, a)] else []
  }

  predicate IsClassByHeader(headers: seq<ClassHeader>, a: AggregateType) {
    a.linkedHash != 0 && a.anchor != 0 && (HasHeader(headers, a.linkedHash) || HeaderFor(headers, a) != 0)
  }

  function GlobalNames(headers: seq<ClassHeader>, a: AggregateType): Names<u16> {
    Names(Some(a.ownHash), if IsLinked(a) then Some(a.linkedHash) else None, DerivedHashes(headers, a))
  }

  function InUnit(anchor: u64, hashes: seq<u16>): (r: seq<Key>)
    ensures |r| == |hashes| && forall i | 0 <= i < |r| :: r[i] == Key(anchor, hashes[i])
  {
    seq(|hashes|, i requires 0 <= i < |hashes| => Key(anchor, hashes[i]))
  }

  function UnitNames(headers: seq<ClassHeader>, a: AggregateType): Names<Key> {
    if a.anchor == 0 then Names(None, None, [])
    else Names(Some(a.OwnKey()), if IsLinked(a) then Some(Key(a.anchor, a.linkedHash)) else None,
               InUnit(a.anchor, DerivedHashes(headers, a)))
  }

  function AllGlobal(headers: seq<ClassHeader>, aggs: Aggregates): (r: seq<Names<u16>>)
    ensures |r| == |aggs| && forall k | 0 <= k < |r| :: r[k] == GlobalNames(headers, aggs[k])
  {
    seq(|aggs|, k requires 0 <= k < |aggs| => GlobalNames(headers, aggs[k]))
  }

  function AllInUnit(headers: seq<ClassHeader>, aggs: Aggregates): (r: seq<Names<Key>>)
    ensures |r| == |aggs| && forall k | 0 <= k < |r| :: r[k] == UnitNames(headers, aggs[k])
  {
    seq(|aggs|, k requires 0 <= k < |aggs| => UnitNames(headers, aggs[k]))
  }

  // ----- Building the indexes ------------------------------------------------------------------------

  class Reader {
    var aggregates: Aggregates
    var byHash: map<u16, nat>
    var byUnitHash: map<Key, nat>

    constructor (aggregates: Aggregates)
      ensures this.aggregates == aggregates && byHash == map[] && byUnitHash == map[]
    {
      this.aggregates, byHash, byUnitHash := aggregates, map[], map[];
    }

    /** Both indexes, with every alias, and the classes that their headers reveal. */
    method BuildIndexes(headers: seq<ClassHeader>)
      requires byHash == map[] && byUnitHash == map[]
      modifies this
      ensures var names := AllGlobal(headers, old(aggregates)); HoldsFinal(byHash, names, |names|)
      ensures var names := AllInUnit(headers, old(aggregates)); HoldsFinal(byUnitHash, names, |names|)
      ensures aggregates == Classified(headers, old(aggregates), |old(aggregates)|)
    {
      hide HoldsDirect, HoldsFinal;
      IndexHashes(headers);
      FinalStarts(byHash, AllGlobal(headers, aggregates));
      FinalStarts(byUnitHash, AllInUnit(headers, aggregates));
      ChainHashes(headers);
    }

    /** Every aggregate under its own hash, and under its linked hash where nothing is yet. */
    method IndexHashes(ghost headers: seq<ClassHeader>)
      requires byHash == map[] && byUnitHash == map[]
      modifies this`byHash, this`byUnitHash
      ensures HoldsDirect(byHash, AllGlobal(headers, aggregates), |aggregates|)
      ensures HoldsDirect(byUnitHash, AllInUnit(headers, aggregates), |aggregates|)
    {
      hide HoldsDirect, DerivedHashes, InUnit, AllGlobal, AllInUnit;
      ghost var global, local := AllGlobal(headers, aggregates), AllInUnit(headers, aggregates);
      NoNames(global);
      NoNames(local);
      for k := 0 to |aggregates|
        invariant HoldsDirect(byHash, global, k) && HoldsDirect(byUnitHash, local, k)
      {
        var a := aggregates[k];
        DirectStep(byHash, global, k);
        DirectStep(byUnitHash, local, k);
        byHash := byHash[a.ownHash := k];
        if a.anchor != 0 {
          byUnitHash := byUnitHash[Key(a.anchor, a.ownHash) := k];
        }
        if a.linkedHash != 0 && a.linkedHash != a.ownHash {
          if a.linkedHash !in byHash {
            byHash := byHash[a.linkedHash := k];
          }
          if a.anchor != 0 {
            var key := Key(a.anchor, a.linkedHash);
            if key !in byUnitHash {
              byUnitHash := byUnitHash[key := k];
            }
          }
        }
      }
    }

    /** Aliases by field parent and by class header, where nothing is yet. */
    method ChainHashes(headers: seq<ClassHeader>)
      requires HoldsFinal(byHash, AllGlobal(headers, aggregates), 0)
               && HoldsFinal(byUnitHash, AllInUnit(headers, aggregates), 0)
      modifies this
      ensures HoldsFinal(byHash, AllGlobal(headers, old(aggregates)), |old(aggregates)|)
      ensures HoldsFinal(byUnitHash, AllInUnit(headers, old(aggregates)), |old(aggregates)|)
      ensures aggregates == Classified(headers, old(aggregates), |old(aggregates)|)
    {
      hide HoldsFinal, AllGlobal, AllInUnit, HeaderByLow, HasHeader;
      ghost var orig := aggregates;
      ghost var global, local := AllGlobal(headers, orig), AllInUnit(headers, orig);
      var hashes := ClassHashes(headers);
      for k := 0 to |aggregates|
        invariant |aggregates| == |orig| && aggregates == Classified(headers, orig, k)
        invariant HoldsFinal(byHash, global, k) && HoldsFinal(byUnitHash, local, k)
      {
        FinalStep(byHash, global, k);
        FinalStep(byUnitHash, local, k);
        ChainOne(headers, hashes, k);
      }
    }

    method ChainOne(headers: seq<ClassHeader>, hashes: set<u16>, k: nat)
      requires k < |aggregates| && forall h :: h in hashes <==> HasHeader(headers, h)
      modifies this
      ensures byHash == WithAliases(old(byHash), GlobalNames(headers, old(aggregates)[k]).derived, k)
      ensures byUnitHash == WithAliases(old(byUnitHash), UnitNames(headers, old(aggregates)[k]).derived, k)
      ensures var a := old(aggregates)[k];
              aggregates == if IsClassByHeader(headers, a) then old(aggregates)[k := a.(kind := ClassKind)] else old(aggregates)
    {
      hide HeaderByLow, HasHeader;
      var a := aggregates[k];
      if a.linkedHash == 0 || a.anchor == 0 {
        return;
      }
      var parent := FieldParent(a.linkedHash);
      OneAlias(byUnitHash, Key(a.anchor, parent), k);
      OneAlias(byHash, parent, k);
      ghost var fields, units := byHash, byUnitHash;
      byUnitHash := WithAlias(byUnitHash, Key(a.anchor, parent), k);
      byHash := WithAlias(byHash, parent, k);
      if a.linkedHash in hashes {
        aggregates := aggregates[k := a.(kind := ClassKind)];
        assert InUnit(a.anchor, [parent]) == [Key(a.anchor, parent)];
      } else {
        var own := FindHeader(headers, a.linkedHash % 0x100);
        if own != 0 {
          assert InUnit(a.anchor, [parent] + [own]) == [Key(a.anchor, parent)] + [Key(a.anchor, own)];
          TwoAliases(fields, parent, own, k);
          TwoAliases(units, Key(a.anchor, parent), Key(a.anchor, own), k);
          byUnitHash := WithAlias(byUnitHash, Key(a.anchor, own), k);
          byHash := WithAlias(byHash, own, k);
          aggregates := aggregates[k := a.(kind := ClassKind)];
        } else {
          assert InUnit(a.anchor, [parent]) == [Key(a.anchor, parent)];
        }
      }
    }
  }

  lemma OneAlias<K>(index: map<K, nat>, a: K, k: nat)
    ensures WithAliases(index, [a], k) == WithAlias(index, a, k)
  {
    assert [a][1..] == [];
  }

  lemma TwoAliases<K>(index: map<K, nat>, a: K, b: K, k: nat)
    ensures WithAliases(index, [a] + [b], k) == WithAlias(WithAlias(index, a, k), b, k)
  {
    assert ([a] + [b])[1..] == [b];
    OneAlias(WithAlias(index, a, k), b, k);
  }

  /** The first `n` aggregates with the classes among them recognised. */
  function Classified(headers: seq<ClassHeader>, aggs: Aggregates, n: nat): (r: Aggregates)
    requires n <= |aggs|
    ensures |r| == |aggs| && forall k | n <= k < |r| :: r[k] == aggs[k]
    ensures forall k | 0 <= k < n ::
              r[k] == if IsClassByHeader(headers, aggs[k]) then aggs[k].(kind := ClassKind) else aggs[k]
  {
    if n == 0 then aggs
    else
      var r := Classified(headers, aggs, n - 1);
      if IsClassByHeader(headers, aggs[n - 1]) then r[n - 1 := aggs[n - 1].(kind := ClassKind)] else r
  }

  method ClassHashes(headers: seq<ClassHeader>) returns (hashes: set<u16>)
    ensures forall h :: h in hashes <==> HasHeader(headers, h)
  {
    hashes := {};
    for i := 0 to |headers|
      invariant forall h :: h in hashes <==> exists k | 0 <= k < i :: headers[k].ownHash == h
    {
      hashes := hashes + {headers[i].ownHash};
    }
  }

  /** The one header with the low byte. */
  method FindHeader(headers: seq<ClassHeader>, low: nat) returns (own: u16)
    ensures own == HeaderByLow(headers, low, 0)
  {
    own := 0;
    for i := 0 to |headers|
      invariant HeaderByLow(headers, low, 0) == HeaderByLow(headers[i..], low, own)
    {
      if headers[i].ownHash % 0x100 != low {
        continue;
      }
      if own == 0 {
        own := headers[i].ownHash;
      } else if own != headers[i].ownHash {
        return 0;
      }
    }
  }

  predicate AllAre(headers: seq<ClassHeader>, low: nat, h: u16) {
    forall i | 0 <= i < |headers| && headers[i].ownHash % 0x100 == low :: headers[i].ownHash == h
  }

  /** Unless a header has the hash 0, the scan finds the hash that all headers of the low byte share. */
  lemma {:induction false} HeaderByLowUnique(headers: seq<ClassHeader>, low: nat, found: u16, h: u16)
    requires h != 0 && h % 0x100 == low && (found != 0 ==> found % 0x100 == low) && !HasHeader(headers, 0)
    ensures HeaderByLow(headers, low, found) == h
            <==> AllAre(headers, low, h) && (if found != 0 then found == h else HasHeader(headers, h))
    decreases |headers|
  {
    if headers != [] {
      var rest := headers[1..];
      var f := headers[0].ownHash;
      assert forall x :: HasHeader(headers, x) <==> f == x || HasHeader(rest, x) by {
        forall x ensures HasHeader(headers, x) <==> f == x || HasHeader(rest, x) {
          HeaderStep(headers, x);
        }
      }
      AllStep(headers, low, h);
      HeaderByLowUnique(rest, low, if f % 0x100 == low && found == 0 then f else found, h);
    }
  }

  lemma HeaderStep(headers: seq<ClassHeader>, x: u16)
    requires headers != []
    ensures HasHeader(headers, x) <==> headers[0].ownHash == x || HasHeader(headers[1..], x)
  {
    assert headers == [headers[0]] + headers[1..];
    if HasHeader(headers[1..], x) {
      var i :| 0 <= i < |headers[1..]| && headers[1..][i].ownHash == x;
      assert headers[i + 1].ownHash == x;
    }
  }

  lemma AllStep(headers: seq<ClassHeader>, low: nat, h: u16)
    requires headers != []
    ensures AllAre(headers, low, h)
            <==> (headers[0].ownHash % 0x100 == low ==> headers[0].ownHash == h) && AllAre(headers[1..], low, h)
  {
    assert forall i | 0 < i < |headers| :: headers[i] == headers[1..][i - 1];
  }

  // ----- What lookups find ----------------------------------------------------------------------------

  /** Aggregate `k` is the last with the hash, anywhere or in its unit. */
  predicate LastWith(aggs: Aggregates, k: nat, hash: u16) {
    k < |aggs| && aggs[k].ownHash == hash && forall j | k < j < |aggs| :: aggs[j].ownHash != hash
  }

  predicate LastInUnit(aggs: Aggregates, k: nat, key: Key) {
    k < |aggs| && aggs[k].OwnKey() == key && forall j | k < j < |aggs| :: aggs[j].OwnKey() != key
  }

  /** An own hash is never shadowed: whatever aliases there are, it finds the last aggregate that has it. */
  lemma OwnHashWins(headers: seq<ClassHeader>, aggs: Aggregates, byHash: map<u16, nat>, byUnitHash: map<Key, nat>,
                    k: nat)
    requires HoldsFinal(byHash, AllGlobal(headers, aggs), |aggs|)
             && HoldsFinal(byUnitHash, AllInUnit(headers, aggs), |aggs|)
    ensures k < |aggs| && LastWith(aggs, k, aggs[k].ownHash) ==> Get(byHash, aggs[k].ownHash) == Some(k)
    ensures k < |aggs| && aggs[k].anchor != 0 && LastInUnit(aggs, k, aggs[k].OwnKey()) ==>
              Get(byUnitHash, aggs[k].OwnKey()) == Some(k)
  {
    hide DerivedHashes, AllGlobal, AllInUnit, InUnit;
    if k < |aggs| {
      var h, key := aggs[k].ownHash, aggs[k].OwnKey();
      var global, local := AllGlobal(headers, aggs), AllInUnit(headers, aggs);
      assert Get(byHash, h) == Final(global, |aggs|, h);
      assert Get(byUnitHash, key) == Final(local, |aggs|, key);
      assert global[k].own == Some(h);
      assert aggs[k].anchor != 0 ==> local[k].own == Some(key);
    }
  }

  /** The aggregate has the hash as its own, as its linked one, or as one derived from that. */
  predicate Answers(headers: seq<ClassHeader>, a: AggregateType, hash: u16) {
    a.ownHash == hash || (IsLinked(a) && a.linkedHash == hash) || hash in DerivedHashes(headers, a)
  }

  /** The other way round: something is found exactly if some aggregate answers to the hash. What is found is the
      last owner of the hash, or it has the hash as an alias and nobody owns it. */
  lemma FoundByName(headers: seq<ClassHeader>, aggs: Aggregates, byHash: map<u16, nat>, hash: u16)
    requires HoldsFinal(byHash, AllGlobal(headers, aggs), |aggs|)
    ensures hash in byHash <==> exists k | 0 <= k < |aggs| :: Answers(headers, aggs[k], hash)
    ensures hash in byHash ==> byHash[hash] < |aggs|
    ensures hash in byHash ==>
              var k := byHash[hash];
              || LastWith(aggs, k, hash)
              || (Answers(headers, aggs[k], hash) && forall j | 0 <= j < |aggs| :: aggs[j].ownHash != hash)
  {
    hide DerivedHashes, AllGlobal, IsLinked;
    var global := AllGlobal(headers, aggs);
    assert Get(byHash, hash) == Final(global, |aggs|, hash);
    forall k | 0 <= k < |aggs|
      ensures Answers(headers, aggs[k], hash)
              <==> global[k].own == Some(hash) || global[k].linked == Some(hash) || hash in global[k].derived
      ensures global[k].own == Some(aggs[k].ownHash)
    {
      assert global[k] == GlobalNames(headers, aggs[k]);
    }
  }

  /** The derived hashes, for an aggregate of a known unit that has a linked hash: the low byte of that in front of a
      byte 8, and the hash of the class header with the low byte, if all such headers share it and none is linked to
      directly. */
  lemma DerivedAre(headers: seq<ClassHeader>, a: AggregateType, hash: u16)
    requires !HasHeader(headers, 0)
    ensures var low := a.linkedHash % 0x100;
            hash in DerivedHashes(headers, a)
            <==> a.linkedHash != 0 && a.anchor != 0
                 && (hash == 256 * low + 8
                     || (HasHeader(headers, hash) && hash % 0x100 == low && !HasHeader(headers, a.linkedHash)
                         && AllAre(headers, low, hash)))
  {
    hide HasHeader, AllAre, HeaderByLow;
    var low := a.linkedHash % 0x100;
    if hash != 0 && hash % 0x100 == low {
      HeaderByLowUnique(headers, low, 0, hash);
    }
    HeaderFits(headers, low, 0);
  }

  lemma {:induction false} HeaderFits(headers: seq<ClassHeader>, low: nat, found: u16)
    requires found != 0 ==> found % 0x100 == low
    ensures var h := HeaderByLow(headers, low, found); h != 0 ==> h % 0x100 == low
    decreases |headers|
  {
    if headers != [] {
      var f := headers[0].ownHash;
      HeaderFits(headers[1..], low, if f % 0x100 == low && found == 0 then f else found);
    }
  }

  /** The headers of the low byte all have one hash. */
  predicate OneHeader(headers: seq<ClassHeader>, low: nat) {
    exists h: u16 :: HasHeader(headers, h) && h % 0x100 == low && AllAre(headers, low, h)
  }

  /** An aggregate of a known unit becomes a class if there is a header for its linked hash or just one hash that
      shares the low byte. */
  lemma ClassifiedAre(headers: seq<ClassHeader>, aggs: Aggregates, k: nat)
    requires !HasHeader(headers, 0) && k < |aggs|
    ensures var a := aggs[k];
            Classified(headers, aggs, |aggs|)[k].kind
            == if a.linkedHash != 0 && a.anchor != 0
                  && (HasHeader(headers, a.linkedHash) || OneHeader(headers, a.linkedHash % 0x100)) then ClassKind
               else a.kind
  {
    hide HasHeader, AllAre, HeaderByLow, OneHeader;
    OneHeaderFound(headers, aggs[k].linkedHash % 0x100);
  }

  lemma OneHeaderFound(headers: seq<ClassHeader>, low: nat)
    requires !HasHeader(headers, 0)
    ensures HeaderByLow(headers, low, 0) != 0 <==> OneHeader(headers, low)
  {
    hide HasHeader, AllAre, HeaderByLow;
    var h := HeaderByLow(headers, low, 0);
    HeaderFits(headers, low, 0);
    if h != 0 {
      HeaderByLowUnique(headers, low, 0, h);
    }
    if OneHeader(headers, low) {
      var g: u16 :| HasHeader(headers, g) && g % 0x100 == low && AllAre(headers, low, g);
      HeaderByLowUnique(headers, low, 0, g);
    }
  }

  /** A hash that nobody owns finds the first aggregate linked to it; only without one, the first that has it as a
      derived hash. */
  lemma AliasOrder(headers: seq<ClassHeader>, aggs: Aggregates, byHash: map<u16, nat>, hash: u16)
    requires HoldsFinal(byHash, AllGlobal(headers, aggs), |aggs|) && hash in byHash
    requires forall j | 0 <= j < |aggs| :: aggs[j].ownHash != hash
    ensures var k := byHash[hash];
            && k < |aggs|
            && if exists j :: 0 <= j < |aggs| && IsLinked(aggs[j]) && aggs[j].linkedHash == hash then
                 && IsLinked(aggs[k]) && aggs[k].linkedHash == hash
                 && forall j | 0 <= j < k :: IsLinked(aggs[j]) ==> aggs[j].linkedHash != hash
               else
                 && hash in DerivedHashes(headers, aggs[k])
                 && forall j | 0 <= j < k :: hash !in DerivedHashes(headers, aggs[j])
  {
    hide DerivedHashes, AllGlobal, IsLinked;
    var global := AllGlobal(headers, aggs);
    assert Get(byHash, hash) == Final(global, |aggs|, hash);
    forall k | 0 <= k < |aggs|
      ensures global[k].own != Some(hash) && global[k].derived == DerivedHashes(headers, aggs[k])
      ensures global[k].linked == Some(hash) <==> IsLinked(aggs[k]) && aggs[k].linkedHash == hash
    {
      assert global[k] == GlobalNames(headers, aggs[k]);
    }
  }

  /** The same within a unit: only aggregates of the unit are found, and only its owners come before aliases. */
  lemma FoundInUnit(headers: seq<ClassHeader>, aggs: Aggregates, byUnitHash: map<Key, nat>, key: Key)
    requires HoldsFinal(byUnitHash, AllInUnit(headers, aggs), |aggs|)
    ensures key in byUnitHash
            <==> key.anchor != 0
                 && exists k | 0 <= k < |aggs| :: aggs[k].anchor == key.anchor && Answers(headers, aggs[k], key.hash)
    ensures key in byUnitHash ==> byUnitHash[key] < |aggs| && aggs[byUnitHash[key]].anchor == key.anchor
    ensures key in byUnitHash ==>
              var k := byUnitHash[key];
              || LastInUnit(aggs, k, key)
              || (Answers(headers, aggs[k], key.hash) && forall j | 0 <= j < |aggs| :: aggs[j].OwnKey() != key)
  {
    hide DerivedHashes, AllInUnit, IsLinked, Answers, InUnit;
    var local := AllInUnit(headers, aggs);
    assert Get(byUnitHash, key) == Final(local, |aggs|, key);
    forall k | 0 <= k < |aggs|
      ensures aggs[k].anchor == key.anchor != 0 && Answers(headers, aggs[k], key.hash)
              <==> local[k].own == Some(key) || local[k].linked == Some(key) || key in local[k].derived
      ensures local[k].own == if aggs[k].anchor == 0 then None else Some(aggs[k].OwnKey())
    {
      UnitAnswers(headers, aggs[k], key);
      assert local[k] == UnitNames(headers, aggs[k]);
    }
  }

  lemma UnitAnswers(headers: seq<ClassHeader>, a: AggregateType, key: Key)
    ensures var names := UnitNames(headers, a);
            names.own == Some(key) || names.linked == Some(key) || key in names.derived
            <==> a.anchor == key.anchor != 0 && Answers(headers, a, key.hash)
  {
    hide DerivedHashes, IsLinked;
  }

  /** An index that was built never points outside the aggregates. */
  lemma IndexesValid(headers: seq<ClassHeader>, aggs: Aggregates, byHash: map<u16, nat>, byUnitHash: map<Key, nat>)
    requires HoldsFinal(byHash, AllGlobal(headers, aggs), |aggs|)
             && HoldsFinal(byUnitHash, AllInUnit(headers, aggs), |aggs|)
    ensures Rsm(Classified(headers, aggs, |aggs|), byHash, byUnitHash, map[], map[], map[]).Valid()
  {
    hide AllGlobal, AllInUnit, Classified;
    var global, local := AllGlobal(headers, aggs), AllInUnit(headers, aggs);
    forall h <- byHash ensures byHash[h] < |aggs| {
      assert Get(byHash, h) == Final(global, |aggs|, h);
    }
    forall key <- byUnitHash ensures byUnitHash[key] < |aggs| {
      assert Get(byUnitHash, key) == Final(local, |aggs|, key);
    }
  }

  /** The anchor of the unit that a file offset lies in: the last anchor not behind it, or 0. */
  method UnitAnchorFor(anchors: seq<nat>, offset: nat) returns (anchor: nat)
    requires Ascending(anchors)
    ensures (forall i | 0 <= i < |anchors| :: offset < anchors[i]) ==> anchor == 0
    ensures (exists i | 0 <= i < |anchors| :: anchors[i] <= offset) ==>
              anchor in anchors && anchor <= offset && forall i | 0 <= i < |anchors|
              && anchors[i] <= offset :: anchors[i] <= anchor
  {
    var k := UpperBound(anchors, offset);
    anchor := if k == 0 then 0 else anchors[k - 1];
  }
}
