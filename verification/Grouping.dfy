/** Sorting keyed items into one group per key loses nothing and doubles nothing. */
module Grouping {
  import opened Bytes

  /** Items that belong together under a key, or under none. */
  datatype Keyed<T> = Keyed(key: Option<bytes>, items: seq<T>)

  /** The items of one key, in order. */
  function GroupOf<T>(ks: seq<Keyed<T>>, key: bytes): seq<T> {
    if ks == [] then []
    else
      var last := ks[|ks| - 1];
      GroupOf(ks[..|ks| - 1], key) + if last.key == Some(key) then last.items else []
  }

  /** All items that have a key. */
  function KeyedItems<T>(ks: seq<Keyed<T>>): seq<T> {
    if ks == [] then []
    else
      var last := ks[|ks| - 1];
      KeyedItems(ks[..|ks| - 1]) + if last.key.Some? then last.items else []
  }

  /** The groups of several keys, one behind the other. */
  function Groups<T>(ks: seq<Keyed<T>>, keys: seq<bytes>): seq<T> {
    if keys == [] then [] else Groups(ks, keys[..|keys| - 1]) + GroupOf(ks, keys[|keys| - 1])
  }

  predicate Distinct<T(==)>(s: seq<T>) {
    forall i, j | 0 <= i < j < |s| :: s[i] != s[j]
  }

  lemma GroupAdd<T>(ks: seq<Keyed<T>>, k: Keyed<T>, key: bytes)
    ensures GroupOf(ks + [k], key) == GroupOf(ks, key) + if k.key == Some(key) then k.items else []
  {
    assert (ks + [k])[..|ks|] == ks;
  }

  /** Items of other keys stay out of these groups, and items of one of the keys go into one group once. */
  lemma {:induction false} GroupsAdd<T>(ks: seq<Keyed<T>>, k: Keyed<T>, keys: seq<bytes>)
    requires Distinct(keys)
    ensures multiset(Groups(ks + [k], keys))
            == multiset(Groups(ks, keys)) + if k.key.Some? && k.key.value in keys then multiset(k.items) else multiset{}
    decreases |keys|
  {
    hide GroupOf;
    if keys != [] {
      var n := |keys| - 1;
      assert keys == keys[..n] + [keys[n]];
      GroupsAdd(ks, k, keys[..n]);
      GroupAdd(ks, k, keys[n]);
    }
  }

  lemma {:induction false} NoGroups<T>(keys: seq<bytes>)
    ensures Groups<T>([], keys) == []
    decreases |keys|
  {
    if keys != [] {
      NoGroups<T>(keys[..|keys| - 1]);
    }
  }

  /** The groups of all keys hold each keyed item exactly once. */
  lemma {:induction false} Conservation<T>(ks: seq<Keyed<T>>, keys: seq<bytes>)
    requires Distinct(keys) && forall i | 0 <= i < |ks| && ks[i].key.Some? :: ks[i].key.value in keys
    ensures multiset(Groups(ks, keys)) == multiset(KeyedItems(ks))
    decreases |ks|
  {
    if ks == [] {
      NoGroups<T>(keys);
    } else {
      var n := |ks| - 1;
      assert ks == ks[..n] + [ks[n]];
      Conservation(ks[..n], keys);
      GroupsAdd(ks[..n], ks[n], keys);
    }
  }
}
