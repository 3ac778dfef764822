/**
 * Properties of whole sequences of operations: insertion order, the
 * stability of a re-Set, renaming in place, multimap accumulation, and the
 * separate store and key order of a copy.
 */
module OrderedMapScenarios {
  import opened OrderedMapSpec
  import opened OrderedMaps

  /** Setting a key that is not yet stored adds one pair at the end of the front traversal. */
  lemma EntriesAfterNewKey<K, V>(s: Snapshot<K, V>, key: K, value: V)
    requires Consistent(s) && key !in s.kv
    ensures Consistent(Put(s, key, value))
    ensures Entries(Put(s, key, value)) == Entries(s) + [Element(key, value)]
  {
  }

  /** Inserting pairs with distinct keys into an empty map lists their keys in insertion order. */
  lemma {:induction false} InsertionOrderKeys<K, V>(els: seq<Element<K, V>>)
    requires NoDuplicates(KeysOf(els))
    ensures PutAll(Empty(), els).ll == KeysOf(els)
  {
    if els != [] {
      var n := |els| - 1;
      DistinctPrefix(els);
      InsertionOrderKeys(els[..n]);
      LastKeyIsNew(KeysOf(els), KeysOf(els[..n]));
      PutAllLast(els);
      KeysOfSplit(els);
    }
  }

  /**
   * ... and traversing it front to back gives back exactly those pairs in
   * that order.
   */
  lemma {:induction false} InsertionOrder<K, V>(els: seq<Element<K, V>>)
    requires NoDuplicates(KeysOf(els))
    ensures Entries(PutAll(Empty(), els)) == els
  {
    if els != [] {
      var n := |els| - 1;
      DistinctPrefix(els);
      InsertionOrder(els[..n]);
      LastPairIsNew(els);
      PutAllLast(els);
      EntriesAfterNewKey(PutAll(Empty(), els[..n]), els[n].key, els[n].value);
      KeysOfSplit(els);
    }
  }

  /** The pairs before the last one have the keys before the last key, which are distinct too. */
  lemma DistinctPrefix<K, V>(els: seq<Element<K, V>>)
    requires NoDuplicates(KeysOf(els)) && els != []
    ensures KeysOf(els[..|els| - 1]) == KeysOf(els)[..|els| - 1]
    ensures NoDuplicates(KeysOf(els[..|els| - 1]))
  {
    assert KeysOf(els[..|els| - 1]) == KeysOf(els)[..|els| - 1];
  }

  /** In a list without duplicates the last key is not among those before it. */
  lemma LastKeyIsNew<K>(keys: seq<K>, front: seq<K>)
    requires NoDuplicates(keys) && keys != [] && front == keys[..|keys| - 1]
    ensures keys[|keys| - 1] !in front
  {
  }

  /** The last pair splits off the end of the pairs, and its key off the end of their keys. */
  lemma KeysOfSplit<K, V>(els: seq<Element<K, V>>)
    requires els != []
    ensures els == els[..|els| - 1] + [els[|els| - 1]]
    ensures KeysOf(els) == KeysOf(els[..|els| - 1]) + [els[|els| - 1].key]
  {
  }

  /** Inserting the pairs before the last one leaves the last key unstored. */
  lemma LastPairIsNew<K, V>(els: seq<Element<K, V>>)
    requires NoDuplicates(KeysOf(els)) && els != []
    ensures els[|els| - 1].key !in PutAll(Empty(), els[..|els| - 1]).kv
  {
    DistinctPrefix(els);
    InsertionOrderKeys(els[..|els| - 1]);
    LastKeyIsNew(KeysOf(els), KeysOf(els[..|els| - 1]));
  }

  /** Inserting all pairs is inserting all but the last, then the last. */
  lemma PutAllLast<K, V>(els: seq<Element<K, V>>)
    requires els != []
    ensures PutAll(Empty(), els) == Put(PutAll(Empty(), els[..|els| - 1]), els[|els| - 1].key, els[|els| - 1].value)
  {
  }

  /** ... and back to front gives them in the reverse order. */
  lemma BackTraversalAfterInserts<K, V>(els: seq<Element<K, V>>)
    requires NoDuplicates(KeysOf(els))
    ensures Reversed(Entries(PutAll(Empty(), els))) == Reversed(els)
  {
    InsertionOrder(els);
  }

  /**
   * A map built from three pairs with distinct keys, all holding v: a consumer
   * that breaks after its second value receives exactly two of the three
   * equal values.
   */
  lemma ValuesBreakAfterTwo<K, V>(a: K, b: K, c: K, v: V)
    requires a != b && b != c && a != c
    ensures Yielded(ValuesOf(PutAll(Empty(), [Element(a, v), Element(b, v), Element(c, v)])), BreakAfter(2)) == [v, v]
  {
    ThreeEqualValues(a, b, c, v);
    BreakAfterCount([v, v, v], 2);
  }

  /** Inserting three distinct keys, all holding v, gives the value order [v, v, v]. */
  lemma ThreeEqualValues<K, V>(a: K, b: K, c: K, v: V)
    requires a != b && b != c && a != c
    ensures ValuesOf(PutAll(Empty(), [Element(a, v), Element(b, v), Element(c, v)])) == [v, v, v]
  {
    var els := [Element(a, v), Element(b, v), Element(c, v)];
    assert KeysOf(els) == [a, b, c];
    InsertionOrder(els);
    var m := PutAll(Empty(), els);
    ProjectionsOfEntries(m);
    var values := ValuesOf(m);
    assert |values| == 3 && values[0] == v && values[1] == v && values[2] == v;
  }

  /** Set(k1, v1); Set(k2, v2); Set(k1, w): k1 keeps its place in front of k2 and now holds w. */
  lemma ResetKeepsPosition<K, V>(k1: K, k2: K, v1: V, v2: V, w: V)
    requires k1 != k2
    ensures Put(Put(Put(Empty(), k1, v1), k2, v2), k1, w).ll == [k1, k2]
    ensures Put(Put(Put(Empty(), k1, v1), k2, v2), k1, w).kv == map[k1 := w, k2 := v2]
    ensures k1 in Put(Put(Empty(), k1, v1), k2, v2).kv
  {
  }

  /** Set(a, va); Set(b, vb); Delete(a); Set(a, w): a no longer keeps its old place, it goes to the end. */
  lemma DeleteThenSetGoesToBack<K, V>(a: K, b: K, va: V, vb: V, w: V)
    requires a != b
    ensures Put(Remove(Put(Put(Empty(), a, va), b, vb), a), a, w).ll == [b, a]
  {
    var m := Put(Put(Empty(), a, va), b, vb);
    assert m.ll == [a, b];
    assert Without(m.ll, a) == [b] by {
      assert Without([b], a) == [b];
    }
  }

  /** Set(a, va); Set(b, vb); Set(c, vc); ReplaceKey(b, x): the order reads a, x, c and x holds vb. */
  lemma RenameKeepsPosition<K, V>(a: K, b: K, c: K, x: K, va: V, vb: V, vc: V)
    requires a != b && b != c && a != c
    requires x != a && x != b && x != c
    ensures Rename(Put(Put(Put(Empty(), a, va), b, vb), c, vc), b, x).ll == [a, x, c]
    ensures Rename(Put(Put(Put(Empty(), a, va), b, vb), c, vc), b, x).kv == map[a := va, x := vb, c := vc]
  {
  }

  /** Renaming onto a key that is already stored is refused and changes nothing. */
  lemma RenameOntoStoredKeyFails<K, V>(a: K, b: K, va: V, vb: V)
    requires a != b
    ensures Rename(Put(Put(Empty(), a, va), b, vb), a, b) == Put(Put(Empty(), a, va), b, vb)
    ensures Put(Put(Empty(), a, va), b, vb).kv == map[a := va, b := vb]
  {
  }

  /** Appending 1 and then 2 under one key of an empty multimap leaves the list [1, 2]. */
  lemma MultiMapAccumulates<K, W>(key: K, first: W, second: W)
    ensures AppendMulti(AppendMulti(Empty(), key, first), key, second).kv[key] == [first, second]
    ensures AppendMulti(AppendMulti(Empty(), key, first), key, second).ll == [key]
  {
  }

  /** Setting and deleting in a copy leaves the original's store and key order as they were. */
  method MutateCopy<K(==), V>(m: OrderedMap<K, V>, key: K, value: V, gone: K) returns (c: OrderedMap<K, V>)
    requires m.Valid()
    ensures fresh(c) && c.Valid() && m.Valid()
    ensures c.Model() == Remove(Put(m.Model(), key, value), gone)
    ensures m.Model() == old(m.Model())
  {
    c := m.Copy();
    var _ := c.Set(key, value);
    var _ := c.Delete(gone);
  }

  /** Setting and deleting in the original leaves an earlier copy's store and key order as they were. */
  method MutateOriginal<K(==), V>(m: OrderedMap<K, V>, key: K, value: V, gone: K) returns (c: OrderedMap<K, V>)
    requires m.Valid()
    modifies m
    ensures fresh(c) && c.Valid() && m.Valid()
    ensures c.Model() == old(m.Model())
    ensures m.Model() == Remove(Put(old(m.Model()), key, value), gone)
  {
    c := m.Copy();
    var _ := m.Set(key, value);
    var _ := m.Delete(gone);
  }

  /**
   * GetOrDefault on an absent key returns the default. GetOrDefault is a
   * function, so it cannot store anything: the map, and with it Has and
   * Len, is the same afterwards.
   */
  method DefaultIsNotStored<K(==), V>(m: OrderedMap<K, V>, key: K, fallback: V) returns (r: V)
    requires m.Valid() && !m.Has(key)
    ensures r == fallback
    ensures m.Model() == old(m.Model()) && m.Len() == old(m.Len())
  {
    r := m.GetOrDefault(key, fallback);
  }
}
