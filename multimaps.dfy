/** MultiValueDictionary: a dictionary from a key to the list of values added under
    it. Its keys are enumerated in the order they were first added, which is the
    order the canonicaliser sees them in. */
module Multimaps {
  import opened Sequences

  /** The value of a MultiValueDictionary: the keys in insertion order and each
      key's list of values. */
  datatype Multimap<K(==,!new), V> = Multimap(keys: seq<K>, entries: map<K, seq<V>>) {

    /** Each key listed once, the listed keys are the keys of the map, and no
        list is empty (a key is only created together with its first value). */
    ghost predicate Valid() {
      && NoDuplicates(keys)
      && (forall k :: k in entries <==> k in keys)
      && (forall k :: k in entries ==> entries[k] != [])
    }

    /** Add(key, value): append to the key's list, creating it (and listing the key
        last) when the key is new. */
    function Add(key: K, value: V): (r: Multimap<K, V>)
      ensures Valid() ==> r.Valid()
      ensures key in r.entries && r.entries[key] == (if key in entries then entries[key] else []) + [value]
      ensures forall k :: k != key ==> (k in r.entries <==> k in entries)
      ensures forall k :: k != key && k in entries ==> r.entries[k] == entries[k]
      ensures key in entries ==> r.keys == keys
      ensures key !in entries ==> r.keys == keys + [key]
    {
      if key in entries then Multimap(keys, entries[key := entries[key] + [value]])
      else Multimap(keys + [key], entries[key := [value]])
    }

    /** Remove(key): forget the key and its list; an absent key changes nothing. */
    function Remove(key: K): (r: Multimap<K, V>)
      ensures Valid() ==> r.Valid()
      ensures r.entries == entries - {key}
      ensures key !in entries && Valid() ==> r == this
    {
      RemoveFirstDistinct(keys, key);
      Multimap(RemoveFirst(keys, key), entries - {key})
    }
  }

  /** The multimap after Remove of each of `ks` in turn. */
  function RemoveKeys<K(==,!new), V>(m: Multimap<K, V>, ks: seq<K>): (r: Multimap<K, V>)
    ensures m.Valid() ==> r.Valid()
    ensures forall k :: k in r.entries <==> k in m.entries && k !in ks
    ensures forall k :: k in r.entries ==> r.entries[k] == m.entries[k]
  {
    if ks == [] then m
    else
      assert forall k :: k in ks <==> k in ks[..|ks| - 1] || k == ks[|ks| - 1];
      RemoveKeys(m, ks[..|ks| - 1]).Remove(ks[|ks| - 1])
  }

  function EmptyMultimap<K(==,!new), V>(): (r: Multimap<K, V>)
    ensures r.Valid()
  {
    Multimap([], map[])
  }

  /** The multimap obtained by adding the pairs one after another. */
  function FromPairs<K(==,!new), V>(pairs: seq<(K, V)>): (r: Multimap<K, V>)
    ensures r.Valid()
  {
    if pairs == [] then EmptyMultimap()
    else FromPairs(pairs[..|pairs| - 1]).Add(pairs[|pairs| - 1].0, pairs[|pairs| - 1].1)
  }

  /** One more pair adds its value under its key. */
  lemma FromPairsStep<K(!new), V>(pairs: seq<(K, V)>, i: nat)
    requires i < |pairs|
    ensures FromPairs(pairs[..i + 1]) == FromPairs(pairs[..i]).Add(pairs[i].0, pairs[i].1)
  {
    assert pairs[..i + 1][..i] == pairs[..i];
  }

  /** The values paired with `key`, in order. */
  function ValuesFor<K(==), V>(pairs: seq<(K, V)>, key: K): seq<V> {
    if pairs == [] then []
    else ValuesFor(pairs[..|pairs| - 1], key) + (if pairs[|pairs| - 1].0 == key then [pairs[|pairs| - 1].1] else [])
  }

  /** Grouping pairs by key: a key is present exactly when some pair has it, and
      its list holds the values paired with it in their original order. */
  lemma {:induction false} FromPairsGroups<K(!new), V>(pairs: seq<(K, V)>, key: K)
    ensures key in FromPairs(pairs).entries <==> exists i :: 0 <= i < |pairs| && pairs[i].0 == key
    ensures key in FromPairs(pairs).entries ==> FromPairs(pairs).entries[key] == ValuesFor(pairs, key)
    ensures key !in FromPairs(pairs).entries ==> ValuesFor(pairs, key) == []
  {
    if pairs != [] {
      var init := pairs[..|pairs| - 1];
      FromPairsGroups(init, key);
      if key in FromPairs(init).entries {
        var i :| 0 <= i < |init| && init[i].0 == key;
        assert pairs[i].0 == key;
      }
      forall i | 0 <= i < |init| && init[i].0 == key ensures pairs[i].0 == key { }
      if exists i :: 0 <= i < |pairs| && pairs[i].0 == key {
        var i :| 0 <= i < |pairs| && pairs[i].0 == key;
        if i < |init| { assert init[i].0 == key; }
      }
    }
  }

  /** A value is listed under a key exactly when it was paired with that key. */
  lemma {:induction false} ValuesForMembers<K, V>(pairs: seq<(K, V)>, key: K)
    ensures forall v :: v in ValuesFor(pairs, key) <==> (key, v) in pairs
  {
    if pairs != [] {
      ValuesForMembers(pairs[..|pairs| - 1], key);
      assert forall p :: p in pairs <==> p in pairs[..|pairs| - 1] || p == pairs[|pairs| - 1];
    }
  }

  /** A value is listed under a key once for each time it was paired with it. */
  lemma {:induction false} ValuesForCount<K, V>(pairs: seq<(K, V)>, key: K, v: V)
    ensures multiset(ValuesFor(pairs, key))[v] == multiset(pairs)[(key, v)]
  {
    if pairs != [] {
      var n := |pairs| - 1;
      ValuesForCount(pairs[..n], key, v);
      assert pairs == pairs[..n] + [pairs[n]];
    }
  }

  /** Distinct pairs give each key a list without repetitions. */
  lemma {:induction false} ValuesForDistinct<K, V>(pairs: seq<(K, V)>, key: K)
    requires NoDuplicates(pairs)
    ensures NoDuplicates(ValuesFor(pairs, key))
  {
    if pairs != [] {
      var init := pairs[..|pairs| - 1];
      assert NoDuplicates(init) by {
        forall i, j | 0 <= i < j < |init| ensures init[i] != init[j] {
          assert init[i] == pairs[i] && init[j] == pairs[j];
        }
      }
      ValuesForDistinct(init, key);
      ValuesForMembers(init, key);
      var last := pairs[|pairs| - 1];
      if last.0 == key {
        assert last !in init by {
          forall i | 0 <= i < |init| ensures init[i] != last {
            assert init[i] == pairs[i];
          }
        }
        NoDuplicatesConcat(ValuesFor(init, key), [last.1]);
      }
    }
  }

  /** The canonicaliser's MultiValueDictionary, updated in place. */
  class MultiValueDictionary<K(==,!new), V> {
    var keys: seq<K>
    var entries: map<K, seq<V>>

    function Model(): Multimap<K, V>
      reads this
    {
      Multimap(keys, entries)
    }

    ghost predicate Valid()
      reads this
    {
      Model().Valid()
    }

    constructor ()
      ensures Valid() && Model() == EmptyMultimap()
    {
      keys := [];
      entries := map[];
    }

    method Add(key: K, value: V)
      requires Valid()
      modifies this
      ensures Valid() && Model() == old(Model()).Add(key, value)
    {
      if key in entries {
        entries := entries[key := entries[key] + [value]];
      } else {
        keys := keys + [key];
        entries := entries[key := [value]];
      }
    }

    method Remove(key: K)
      requires Valid()
      modifies this
      ensures Valid() && Model() == old(Model()).Remove(key)
    {
      ghost var r := Model().Remove(key);
      keys := RemoveFirst(keys, key);
      entries := entries - {key};
      assert Model() == r;
    }

    method Clear()
      modifies this
      ensures Valid() && Model() == EmptyMultimap()
    {
      keys := [];
      entries := map[];
    }

    /** The indexer `this[key]`; the canonicaliser only asks for keys it holds. */
    function Get(key: K): (values: seq<V>)
      reads this
      requires Valid() && key in entries
      ensures values != [] && values == Model().entries[key]
    {
      entries[key]
    }
  }
}
