/**
 * The insertion-ordered map itself: a class holding the store `kv` and the
 * key order `ll`, updated in place. Every method requires and keeps Valid(),
 * and states its effect as a function of OrderedMapSpec on the old state.
 */
module OrderedMaps {
  import opened OrderedMapSpec

  /**
   * Linear search for `key`, as the standard slice search does: the first
   * index holding it, or -1 when it is not there.
   */
  method IndexOf<K(==)>(s: seq<K>, key: K) returns (i: int)
    ensures -1 <= i < |s|
    ensures i == -1 <==> key !in s
    ensures 0 <= i ==> s[i] == key && key !in s[..i]
  {
    i := 0;
    while i < |s|
      invariant 0 <= i <= |s|
      invariant key !in s[..i]
    {
      if s[i] == key {
        return;
      }
      i := i + 1;
    }
    assert s[..i] == s;
    i := -1;
  }

  class OrderedMap<K(==), V> {
    var kv: map<K, V>
    var ll: seq<K>

    function Model(): Snapshot<K, V>
      reads this
    {
      Snapshot(kv, ll)
    }

    ghost predicate Valid()
      reads this
    {
      Consistent(Model())
    }

    /** An empty map (both the value and the pointer form of the source's constructors). */
    constructor ()
      ensures Valid() && Model() == Empty()
    {
      kv := map[];
      ll := [];
    }

    /** An empty map; the capacity only reserves room for the key order. */
    constructor WithCapacity(capacity: nat)
      ensures Valid() && Model() == Empty()
    {
      kv := map[];
      ll := [];
    }

    /** A map built by setting each pair in turn. */
    constructor WithElements(els: seq<Element<K, V>>)
      ensures Valid() && Model() == PutAll(Empty(), els)
    {
      kv := map[];
      ll := [];
      new;
      var i := 0;
      while i < |els|
        invariant 0 <= i <= |els|
        invariant Valid() && Model() == PutAll(Empty(), els[..i])
      {
        PutAllStep(Empty(), els, i);
        var _ := Set(els[i].key, els[i].value);
        i := i + 1;
      }
      assert els[..i] == els;
    }

    function Get(key: K): (r: Option<V>)
      reads this
      requires Valid()
      ensures r.Some? <==> key in ll
      ensures r.Some? ==> key in kv && r.value == kv[key]
    {
      if key in kv then Some(kv[key]) else None
    }

    /**
     * Set stores `value` under `key`; the result says whether the key was new,
     * and is false on an overwrite even when the value is the same.
     */
    method Set(key: K, value: V) returns (inserted: bool)
      requires Valid()
      modifies this
      ensures Valid()
      ensures inserted <==> key !in old(kv)
      ensures Model() == Put(old(Model()), key, value)
    {
      PutProperties(Model(), key, value);
      var alreadyExist := key in kv;
      kv := kv[key := value];
      if alreadyExist {
        return false;
      }
      ll := ll + [key];
      return true;
    }

    /**
     * ReplaceKey renames `originalKey` to `newKey` in place; it fails, and
     * changes nothing, unless `originalKey` is stored and `newKey` is not.
     */
    method ReplaceKey(originalKey: K, newKey: K) returns (ok: bool)
      requires Valid()
      modifies this
      ensures Valid()
      ensures ok <==> originalKey in old(kv) && newKey !in old(kv)
      ensures Model() == Rename(old(Model()), originalKey, newKey)
    {
      RenameProperties(Model(), originalKey, newKey);
      var originalExists := originalKey in kv;
      var newKeyExists := newKey in kv;
      if originalExists && !newKeyExists {
        var element := kv[originalKey];
        kv := kv - {originalKey};
        kv := kv[newKey := element];
        var lli := IndexOf(ll, originalKey);
        // originalKey is stored, so by Valid() it is listed: the search cannot fail.
        OverwriteIsSubstitute(ll, lli, originalKey, newKey);
        ll := ll[lli := newKey];
        return true;
      }
      return false;
    }

    function GetOrDefault(key: K, defaultValue: V): (r: V)
      reads this
      requires Valid()
      ensures key in ll ==> key in kv && r == kv[key]
      ensures key !in ll ==> r == defaultValue
    {
      if key in kv then kv[key] else defaultValue
    }

    /** The number of entries: the length of the key order, which Valid() makes the size of the store. */
    function Len(): (n: nat)
      reads this
      requires Valid()
      ensures n == |kv|
    {
      LenIsMapSize(Model());
      |ll|
    }

    /** All is the front traversal. */
    method All(consumer: (nat, Element<K, V>) -> bool) returns (yielded: seq<Element<K, V>>)
      requires Valid()
      ensures yielded == Yielded(Entries(Model()), consumer)
    {
      yielded := AllFromFront(consumer);
    }

    /**
     * Hands each (key, value) pair to `consumer`, oldest key first, and stops
     * after the first pair the consumer rejects; returns the pairs handed over.
     */
    method AllFromFront(consumer: (nat, Element<K, V>) -> bool) returns (yielded: seq<Element<K, V>>)
      requires Valid()
      ensures yielded == Yielded(Entries(Model()), consumer)
    {
      ghost var entries := Entries(Model());
      yielded := [];
      var i := 0;
      while i < |ll|
        invariant 0 <= i <= |ll|
        invariant yielded == entries[..i]
        invariant forall j :: 0 <= j < i ==> consumer(j, entries[j])
      {
        var key := ll[i];
        var element := Element(key, kv[key]);
        assert element == entries[i];
        assert entries[..i + 1] == entries[..i] + [element];
        yielded := yielded + [element];
        if !consumer(i, element) {
          YieldedStopsAt(entries, consumer, i);
          return;
        }
        i := i + 1;
      }
      assert entries[..i] == entries;
    }

    /** As AllFromFront, but starting from the most recently inserted key. */
    method AllFromBack(consumer: (nat, Element<K, V>) -> bool) returns (yielded: seq<Element<K, V>>)
      requires Valid()
      ensures yielded == Yielded(Reversed(Entries(Model())), consumer)
    {
      ghost var front := Entries(Model());
      ghost var entries := Reversed(front);
      yielded := [];
      var n := 0;
      while n < |ll|
        invariant 0 <= n <= |ll|
        invariant yielded == entries[..n]
        invariant forall j :: 0 <= j < n ==> consumer(j, entries[j])
      {
        var i := |ll| - 1 - n;
        var key := ll[i];
        var element := Element(key, kv[key]);
        assert element == entries[n] by {
          assert front[i] == element;
        }
        assert entries[..n + 1] == entries[..n] + [element];
        yielded := yielded + [element];
        if !consumer(n, element) {
          YieldedStopsAt(entries, consumer, n);
          return;
        }
        n := n + 1;
      }
      assert entries[..n] == entries;
    }

    /** The keys in front order, stopping after the first one the consumer rejects. */
    method Keys(consumer: (nat, K) -> bool) returns (yielded: seq<K>)
      requires Valid()
      ensures yielded == Yielded(ll, consumer)
    {
      yielded := [];
      var i := 0;
      while i < |ll|
        invariant 0 <= i <= |ll|
        invariant yielded == ll[..i]
        invariant forall j :: 0 <= j < i ==> consumer(j, ll[j])
      {
        var key := ll[i];
        assert ll[..i + 1] == ll[..i] + [key];
        yielded := yielded + [key];
        if !consumer(i, key) {
          YieldedStopsAt(ll, consumer, i);
          return;
        }
        i := i + 1;
      }
      assert ll[..i] == ll;
    }

    /** The values in front order, stopping after the first one the consumer rejects. */
    method Values(consumer: (nat, V) -> bool) returns (yielded: seq<V>)
      requires Valid()
      ensures yielded == Yielded(ValuesOf(Model()), consumer)
    {
      ghost var values := ValuesOf(Model());
      yielded := [];
      var i := 0;
      while i < |ll|
        invariant 0 <= i <= |ll|
        invariant yielded == values[..i]
        invariant forall j :: 0 <= j < i ==> consumer(j, values[j])
      {
        var value := kv[ll[i]];
        assert value == values[i];
        assert values[..i + 1] == values[..i] + [value];
        yielded := yielded + [value];
        if !consumer(i, value) {
          YieldedStopsAt(values, consumer, i);
          return;
        }
        i := i + 1;
      }
      assert values[..i] == values;
    }

    /** Delete removes `key` from the store and the order; the result says whether it was there. */
    method Delete(key: K) returns (didDelete: bool)
      requires Valid()
      modifies this
      ensures Valid()
      ensures didDelete <==> key in old(kv)
      ensures Model() == Remove(old(Model()), key)
    {
      RemoveProperties(Model(), key);
      var ok := key in kv;
      if ok {
        var lli := IndexOf(ll, key);
        // key is stored, so by Valid() it is listed: the search cannot fail.
        SpliceIsWithout(ll, lli, key);
        ll := ll[..lli] + ll[lli + 1..];
        kv := kv - {key};
      }
      return ok;
    }

    /** A new map, in fresh storage, with the same pairs in the same order. */
    method Copy() returns (m2: OrderedMap<K, V>)
      requires Valid()
      ensures fresh(m2) && m2.Valid() && m2.Model() == Model()
      ensures Model() == old(Model())
    {
      m2 := new OrderedMap.WithCapacity(|ll|);
      var i := 0;
      while i < |ll|
        invariant 0 <= i <= |ll|
        invariant fresh(m2) && m2.Valid()
        invariant m2.ll == ll[..i]
        invariant m2.kv == map k | k in ll[..i] :: kv[k]
      {
        var key := ll[i];
        assert key !in ll[..i];
        assert ll[..i + 1] == ll[..i] + [key];
        var _ := m2.Set(key, kv[key]);
        i := i + 1;
      }
      assert ll[..i] == ll;
    }

    function Has(key: K): (r: bool)
      reads this
      requires Valid()
      ensures r <==> key in ll
    {
      key in kv
    }
  }

  /**
   * AppendMultiMap adds `value` to the end of the list stored under `key`,
   * or stores the one-element list when the key is new; returns the same map.
   */
  method AppendMultiMap<K(==), W>(m: OrderedMap<K, seq<W>>, key: K, value: W) returns (r: OrderedMap<K, seq<W>>)
    requires m.Valid()
    modifies m
    ensures r == m && m.Valid()
    ensures m.Model() == AppendMulti(old(m.Model()), key, value)
  {
    var a := m.Get(key);
    if a.Some? {
      var _ := m.Set(key, a.value + [value]);
    } else {
      var _ := m.Set(key, [value]);
    }
    return m;
  }
}
