/**
 * The abstract state of an insertion-ordered map and the operations on it,
 * stated over values: a key/value store `kv` and the list `ll` of its keys
 * in insertion order. The class in ordered_map.dfy keeps exactly these two
 * fields and proves each of its methods against the functions here.
 */
module OrderedMapSpec {

  datatype Option<T> = None | Some(value: T)

  /** A key/value pair, as handed to the constructor and to the consumer of a traversal. */
  datatype Element<K, V> = Element(key: K, value: V)

  /** The state of an ordered map: the store and the key order. */
  datatype Snapshot<K, V> = Snapshot(kv: map<K, V>, ll: seq<K>)

  predicate NoDuplicates<K(==)>(s: seq<K>)
  {
    forall i, j :: 0 <= i < j < |s| ==> s[i] != s[j]
  }

  /** The representation invariant: every key is listed once, and the list holds exactly the stored keys. */
  predicate Consistent<K(==), V>(s: Snapshot<K, V>)
  {
    && NoDuplicates(s.ll)
    && (forall k :: k in s.ll ==> k in s.kv)
    && (forall k :: k in s.kv ==> k in s.ll)
  }

  function Empty<K(==), V>(): (r: Snapshot<K, V>)
    ensures Consistent(r) && |r.ll| == 0
  {
    Snapshot(map[], [])
  }

  /** A list without duplicates has as many elements as the set of its elements. */
  lemma {:induction false} DistinctCardinality<K>(s: seq<K>, keys: set<K>)
    requires NoDuplicates(s)
    requires forall k :: k in s <==> k in keys
    ensures |s| == |keys|
  {
    if s != [] {
      var last := s[|s| - 1];
      var front := s[..|s| - 1];
      forall k | k in front
        ensures k in keys - {last}
      {
        var i :| 0 <= i < |front| && front[i] == k;
        assert s[i] == k && i < |s| - 1;
      }
      forall k | k in keys - {last}
        ensures k in front
      {
        var i :| 0 <= i < |s| && s[i] == k;
        assert front[i] == k;
      }
      DistinctCardinality(front, keys - {last});
    }
  }

  /** The number of listed keys is the number of stored entries. */
  lemma LenIsMapSize<K, V>(s: Snapshot<K, V>)
    requires Consistent(s)
    ensures |s.ll| == |s.kv|
  {
    DistinctCardinality(s.ll, s.kv.Keys);
  }

  // ---------------------------------------------------------------------
  // Set

  /** Set: store the value; a new key goes to the end of the order, a known key stays where it is. */
  function Put<K(==), V>(s: Snapshot<K, V>, key: K, value: V): (r: Snapshot<K, V>)
    ensures key in r.kv && r.kv[key] == value
    ensures r.kv.Keys == s.kv.Keys + {key}
  {
    Snapshot(s.kv[key := value], if key in s.kv then s.ll else s.ll + [key])
  }

  lemma PutProperties<K, V>(s: Snapshot<K, V>, key: K, value: V)
    requires Consistent(s)
    ensures Consistent(Put(s, key, value))
    ensures Put(s, key, value).kv[key] == value
    ensures forall k :: k != key ==> (k in Put(s, key, value).kv <==> k in s.kv)
    ensures forall k :: k != key && k in s.kv ==> Put(s, key, value).kv[k] == s.kv[k]
    ensures key in s.kv ==> Put(s, key, value).ll == s.ll
    ensures key !in s.kv ==> Put(s, key, value).ll == s.ll + [key]
    ensures |Put(s, key, value).kv| == |s.kv| + (if key in s.kv then 0 else 1)
  {
  }

  /** Inserting a sequence of pairs in order, as the constructor with elements does. */
  function PutAll<K(==), V>(s: Snapshot<K, V>, els: seq<Element<K, V>>): (r: Snapshot<K, V>)
    requires Consistent(s)
    ensures Consistent(r)
    ensures |s.ll| <= |r.ll| && r.ll[..|s.ll|] == s.ll
  {
    if els == [] then s
    else
      var front := PutAll(s, els[..|els| - 1]);
      PutProperties(front, els[|els| - 1].key, els[|els| - 1].value);
      Put(front, els[|els| - 1].key, els[|els| - 1].value)
  }

  /** Setting one more pair of the sequence extends the fold by one Put. */
  lemma PutAllStep<K, V>(s: Snapshot<K, V>, els: seq<Element<K, V>>, i: nat)
    requires Consistent(s) && i < |els|
    ensures PutAll(s, els[..i + 1]) == Put(PutAll(s, els[..i]), els[i].key, els[i].value)
  {
    assert els[..i + 1][..i] == els[..i];
  }

  function KeysOf<K, V>(els: seq<Element<K, V>>): (r: seq<K>)
    ensures |r| == |els| && forall i :: 0 <= i < |els| ==> r[i] == els[i].key
  {
    seq(|els|, i requires 0 <= i < |els| => els[i].key)
  }

  // ---------------------------------------------------------------------
  // Delete

  /** The list with every occurrence of `key` filtered out, the rest in their relative order. */
  function Without<K(==)>(s: seq<K>, key: K): (r: seq<K>)
    ensures forall k :: k in r ==> k in s && k != key
    ensures forall k :: k in s && k != key ==> k in r
    ensures |r| <= |s|
    ensures NoDuplicates(s) ==> NoDuplicates(r)
  {
    if s == [] then []
    else if s[0] == key then Without(s[1..], key)
    else
      var rest := Without(s[1..], key);
      assert NoDuplicates(s) ==> s[0] !in s[1..];
      [s[0]] + rest
  }

  lemma {:induction false} WithoutAbsent<K>(s: seq<K>, key: K)
    requires key !in s
    ensures Without(s, key) == s
  {
    if s != [] {
      WithoutAbsent(s[1..], key);
    }
  }

  /** Cutting the one occurrence of a key out of a duplicate-free list is the same as filtering it out. */
  lemma {:induction false} SpliceIsWithout<K>(s: seq<K>, i: nat, key: K)
    requires NoDuplicates(s) && i < |s| && s[i] == key
    ensures s[..i] + s[i + 1..] == Without(s, key)
  {
    if i == 0 {
      assert key !in s[1..];
      WithoutAbsent(s[1..], key);
      assert s[..0] + s[1..] == s[1..];
    } else {
      SpliceIsWithout(s[1..], i - 1, key);
      assert s[1..][..i - 1] + s[1..][i..] == Without(s[1..], key);
      assert s[..i] + s[i + 1..] == [s[0]] + (s[1..][..i - 1] + s[1..][i..]);
    }
  }

  /** Delete: drop the key from the store and from the order; an absent key changes nothing. */
  function Remove<K(==), V>(s: Snapshot<K, V>, key: K): (r: Snapshot<K, V>)
    ensures key !in r.kv && r.kv.Keys == s.kv.Keys - {key}
    ensures key !in s.kv ==> r == s
  {
    if key in s.kv then Snapshot(s.kv - {key}, Without(s.ll, key)) else s
  }

  lemma RemoveProperties<K, V>(s: Snapshot<K, V>, key: K)
    requires Consistent(s)
    ensures Consistent(Remove(s, key))
    ensures key !in Remove(s, key).kv && key !in Remove(s, key).ll
    ensures forall k :: k != key ==> (k in Remove(s, key).kv <==> k in s.kv)
    ensures forall k :: k != key && k in s.kv ==> Remove(s, key).kv[k] == s.kv[k]
    ensures |Remove(s, key).ll| == |s.ll| - (if key in s.kv then 1 else 0)
  {
    var r := Remove(s, key);
    LenIsMapSize(s);
    LenIsMapSize(r);
  }

  // ---------------------------------------------------------------------
  // ReplaceKey

  /** The list with `oldKey` renamed to `newKey` wherever it stands. */
  function Substitute<K(==)>(s: seq<K>, oldKey: K, newKey: K): (r: seq<K>)
    ensures |r| == |s|
    ensures forall i :: 0 <= i < |s| && s[i] != oldKey ==> r[i] == s[i]
    ensures forall i :: 0 <= i < |s| && s[i] == oldKey ==> r[i] == newKey
  {
    seq(|s|, i requires 0 <= i < |s| => if s[i] == oldKey then newKey else s[i])
  }

  /** Overwriting the one slot that holds `oldKey` renames it everywhere. */
  lemma OverwriteIsSubstitute<K>(s: seq<K>, i: nat, oldKey: K, newKey: K)
    requires NoDuplicates(s) && i < |s| && s[i] == oldKey
    ensures s[i := newKey] == Substitute(s, oldKey, newKey)
  {
  }

  /**
   * ReplaceKey: succeeds only when `oldKey` is stored and `newKey` is not;
   * then the value moves to `newKey` and `newKey` takes `oldKey`'s place in the order.
   */
  function Rename<K(==), V>(s: Snapshot<K, V>, oldKey: K, newKey: K): (r: Snapshot<K, V>)
    ensures |r.ll| == |s.ll|
    ensures oldKey in s.kv && newKey !in s.kv ==> oldKey != newKey && newKey in r.kv && r.kv[newKey] == s.kv[oldKey]
    ensures !(oldKey in s.kv && newKey !in s.kv) ==> r == s
  {
    if oldKey in s.kv && newKey !in s.kv then
      Snapshot((s.kv - {oldKey})[newKey := s.kv[oldKey]], Substitute(s.ll, oldKey, newKey))
    else s
  }

  lemma RenameProperties<K, V>(s: Snapshot<K, V>, oldKey: K, newKey: K)
    requires Consistent(s)
    ensures Consistent(Rename(s, oldKey, newKey))
    ensures oldKey == newKey ==> Rename(s, oldKey, newKey) == s
    ensures |Rename(s, oldKey, newKey).ll| == |s.ll|
    ensures oldKey in s.kv && newKey !in s.kv ==>
      && oldKey !in Rename(s, oldKey, newKey).kv
      && newKey in Rename(s, oldKey, newKey).kv
      && Rename(s, oldKey, newKey).kv[newKey] == s.kv[oldKey]
      && (forall i :: 0 <= i < |s.ll| && s.ll[i] == oldKey ==> Rename(s, oldKey, newKey).ll[i] == newKey)
      && (forall i :: 0 <= i < |s.ll| && s.ll[i] != oldKey ==> Rename(s, oldKey, newKey).ll[i] == s.ll[i])
      && (forall k :: k != oldKey && k in s.kv ==> k in Rename(s, oldKey, newKey).kv && Rename(s, oldKey, newKey).kv[k] == s.kv[k])
  {
  }

  // ---------------------------------------------------------------------
  // Traversal

  /** The pairs in front-to-back order: the i-th key of the order with its stored value. */
  function Entries<K(==), V>(s: Snapshot<K, V>): (r: seq<Element<K, V>>)
    requires Consistent(s)
    ensures |r| == |s.ll|
    ensures forall i :: 0 <= i < |r| ==> r[i].key == s.ll[i] && r[i].value == s.kv[s.ll[i]]
  {
    seq(|s.ll|, i requires 0 <= i < |s.ll| => Element(s.ll[i], s.kv[s.ll[i]]))
  }

  /** The values in front-to-back order. */
  function ValuesOf<K(==), V>(s: Snapshot<K, V>): (r: seq<V>)
    requires Consistent(s)
    ensures |r| == |s.ll|
    ensures forall i :: 0 <= i < |r| ==> r[i] == s.kv[s.ll[i]]
  {
    seq(|s.ll|, i requires 0 <= i < |s.ll| => s.kv[s.ll[i]])
  }

  /** Front traversal lists every stored entry exactly once, and nothing else. */
  lemma EntriesAreTheMap<K, V>(s: Snapshot<K, V>)
    requires Consistent(s)
    ensures forall k :: k in s.kv ==> exists i :: 0 <= i < |Entries(s)| && Entries(s)[i].key == k
    ensures forall i :: 0 <= i < |Entries(s)| ==> Entries(s)[i].key in s.kv && Entries(s)[i].value == s.kv[Entries(s)[i].key]
    ensures forall i, j :: 0 <= i < j < |Entries(s)| ==> Entries(s)[i].key != Entries(s)[j].key
  {
    var r := Entries(s);
    forall k | k in s.kv
      ensures exists i :: 0 <= i < |r| && r[i].key == k
    {
      var i :| 0 <= i < |s.ll| && s.ll[i] == k;
      assert r[i].key == k;
    }
  }

  /** Keys and Values are the two projections of the front traversal. */
  lemma ProjectionsOfEntries<K, V>(s: Snapshot<K, V>)
    requires Consistent(s)
    ensures KeysOf(Entries(s)) == s.ll
    ensures forall i :: 0 <= i < |s.ll| ==> ValuesOf(s)[i] == Entries(s)[i].value
  {
  }

  function Reversed<T>(s: seq<T>): (r: seq<T>)
    ensures |r| == |s|
    ensures forall i :: 0 <= i < |s| ==> r[i] == s[|s| - 1 - i]
  {
    seq(|s|, i requires 0 <= i < |s| => s[|s| - 1 - i])
  }

  /**
   * The index of the first element the consumer rejects, or the length when
   * it accepts all. The consumer sees each element with its position in the
   * traversal, so it can stop after a number of elements as well as on a value.
   */
  function StopIndex<T>(s: seq<T>, consumer: (nat, T) -> bool): (n: nat)
    ensures n <= |s|
    ensures forall i :: 0 <= i < n ==> consumer(i, s[i])
    ensures n < |s| ==> !consumer(n, s[n])
  {
    StopFrom(s, consumer, 0)
  }

  /** StopIndex, searching from position `from` on. */
  function StopFrom<T>(s: seq<T>, consumer: (nat, T) -> bool, from: nat): (n: nat)
    requires from <= |s|
    ensures from <= n <= |s|
    ensures forall i :: from <= i < n ==> consumer(i, s[i])
    ensures n < |s| ==> !consumer(n, s[n])
    decreases |s| - from
  {
    if from == |s| || !consumer(from, s[from]) then from else StopFrom(s, consumer, from + 1)
  }

  /**
   * What a traversal of `s` hands to a consumer that may stop it early:
   * every element up to and including the first one the consumer rejects.
   */
  function Yielded<T>(s: seq<T>, consumer: (nat, T) -> bool): (r: seq<T>)
    ensures r <= s
    ensures forall i :: 0 <= i < |r| - 1 ==> consumer(i, r[i])
    ensures |r| < |s| ==> |r| > 0 && !consumer(|r| - 1, r[|r| - 1])
    ensures (forall i :: 0 <= i < |s| ==> consumer(i, s[i])) ==> r == s
  {
    var n := StopIndex(s, consumer);
    if n < |s| then s[..n + 1] else s
  }

  /** A loop that has handed over s[..n], all accepted, and then s[n], rejected, has yielded exactly Yielded(s). */
  lemma YieldedStopsAt<T>(s: seq<T>, consumer: (nat, T) -> bool, n: nat)
    requires n < |s| && !consumer(n, s[n])
    requires forall i :: 0 <= i < n ==> consumer(i, s[i])
    ensures Yielded(s, consumer) == s[..n + 1]
  {
  }

  /**
   * A back traversal whose consumer never stops it yields the front traversal
   * reversed, and the other way round.
   */
  lemma BackIsReversedFront<T>(s: seq<T>, consumer: (nat, T) -> bool)
    requires forall i :: 0 <= i < |s| ==> consumer(i, s[i]) && consumer(i, Reversed(s)[i])
    ensures Yielded(Reversed(s), consumer) == Reversed(Yielded(s, consumer))
    ensures Reversed(Reversed(s)) == s
  {
  }

  /** The consumer that breaks out of the traversal once it has received `count` elements. */
  function BreakAfter<T>(count: nat): (nat, T) -> bool
  {
    (i: nat, x: T) => i + 1 < count
  }

  /** A consumer that breaks after `count` elements receives exactly the first `count`, whatever their values. */
  lemma BreakAfterCount<T>(s: seq<T>, count: nat)
    requires 0 < count <= |s|
    ensures Yielded(s, BreakAfter(count)) == s[..count]
  {
    YieldedStopsAt(s, BreakAfter(count), count - 1);
  }

  // ---------------------------------------------------------------------
  // Multimap

  /** AppendMultiMap: extend the list stored under `key`, or start it with a single value. */
  function AppendMulti<K(==), W>(s: Snapshot<K, seq<W>>, key: K, value: W): (r: Snapshot<K, seq<W>>)
    requires Consistent(s)
    ensures Consistent(r)
    ensures key in r.kv
    ensures key in s.kv ==> r.kv[key] == s.kv[key] + [value] && r.ll == s.ll
    ensures key !in s.kv ==> r.kv[key] == [value] && r.ll == s.ll + [key]
    ensures forall k :: k in r.kv && k != key ==> k in s.kv
    ensures forall k :: k in s.kv && k != key ==> k in r.kv && r.kv[k] == s.kv[k]
  {
    var list := if key in s.kv then s.kv[key] + [value] else [value];
    PutProperties(s, key, list);
    Put(s, key, list)
  }
}
