# Ordered map (Go `orderedmap`, v4) in Dafny

This project models the generic insertion-ordered map `OrderedMap[K, V]` of
`v4/orderedmap.go`. The map pairs a key/value store `kv` with a key list `ll`
that records the order in which the stored keys were newly inserted. A
re-`Set` keeps a key's place. A deleted key that is set again goes to the
end. A renamed key takes the old key's place. `Set`, `Delete` and
`ReplaceKey` update both in place and keep them in lockstep. The read-only
queries `Get`, `GetOrDefault`, `Has` and `Len` sit on top, together with the
ordered traversals (`All`, `AllFromFront`, `AllFromBack`, `Keys`, `Values`,
each of which the consumer may stop early), `Copy`, which duplicates the
store and the key order but not the values themselves, and the free
function `AppendMultiMap` for maps whose values are lists.

Layout:

- `ordered_map_spec.dfy`, module `OrderedMapSpec`. The abstract state
  `Snapshot(kv, ll)` and the representation invariant `Consistent`: `ll` has
  no duplicates and holds exactly the keys of `kv`. It defines each mutation
  as a function on that state (`Put`, `Remove`, `Rename`, `AppendMulti`).
  Independent reference definitions sit beside them: `Without` filters a key
  out of the order, `Substitute` renames it in place. Traversal results are
  stated as sequences: `Entries`, `ValuesOf` and `Reversed` give the full
  traversal. `Yielded` gives what a consumer that may stop early receives.
  The lemmas prove each mutation keeps the invariant, and that
  `|ll| == |kv|`.
- `ordered_map.dfy`, module `OrderedMaps`. The class `OrderedMap` has the
  two fields `kv: map<K, V>` and `ll: seq<K>`. Each mutator is a method with
  `modifies this`. Its `ensures` ties the new state to the spec function of
  the old state and keeps `Valid()`. The queries are functions that read
  `this`. The traversals, `Copy` and the constructor that takes elements are
  loops, as in the source. `IndexOf` is the linear search that `Delete` and
  `ReplaceKey` use.
- `scenarios.dfy`, module `OrderedMapScenarios`. Properties of whole
  sequences of operations. Inserting distinct keys and traversing returns
  them in order, and in reverse from the back. A re-`Set` keeps a key's
  position. A rename keeps the key's position, and a rename onto a stored
  key is refused. Multimap values accumulate in order. Setting and deleting
  keys in a copy or in its original does not change the other's store or
  key order.

The consumer of a traversal (Go's `yield` callback) is a pure function
`consumer: (nat, T) -> bool`. It receives each element together with its
position in the traversal. A Go callback may keep state, such as a count of
the elements it has seen. Within one traversal the sequence being walked is
fixed, so the position determines everything seen so far. Any such callback
therefore answers as some function of position and element. A traversal
method returns the sequence of elements it handed to the consumer. That
sequence is every element up to and including the first one the consumer
rejects, and nothing after it.

## Model

| member | source | states |
|---|---|---|
| `OrderedMapSpec.Empty` | v4/orderedmap.go:13-25 | a new map satisfies the representation invariant and has no keys |
| `OrderedMapSpec.LenIsMapSize` | v4/orderedmap.go:92-95 | under the invariant, the length of the key list equals the number of stored entries |
| `OrderedMapSpec.Put` | v4/orderedmap.go:55-63 | Set stores the value under the key, and the key set gains exactly that key |
| `OrderedMapSpec.PutProperties` | v4/orderedmap.go:52-64 | Set keeps the invariant and stores the value. A new key is appended at the end of the order and the size grows by one. A known key leaves the order unchanged. Every other key keeps its value |
| `OrderedMapSpec.PutAll` | v4/orderedmap.go:37-43 | setting a sequence of pairs in turn keeps the invariant and only extends the existing order |
| `OrderedMapSpec.Without` | v4/orderedmap.go:153-164 | filtering a key out of the order leaves exactly the other keys and never lengthens it. A list without duplicates stays without duplicates |
| `OrderedMapSpec.SpliceIsWithout` | v4/orderedmap.go:158-159 | cutting out the one slot holding the key equals filtering it out, so the remaining keys keep their relative order |
| `OrderedMapSpec.Remove` | v4/orderedmap.go:155-163 | after Delete the key is not stored and the key set loses exactly that key. Deleting an absent key changes nothing |
| `OrderedMapSpec.RemoveProperties` | v4/orderedmap.go:153-164 | Delete keeps the invariant. Afterwards the key is in neither the store nor the order. Every other key keeps its presence and value. The length drops by one exactly when the key was stored |
| `OrderedMapSpec.Substitute` | v4/orderedmap.go:74-76 | renaming in the order keeps the length, puts the new key in every slot of the old one and leaves all other slots unchanged |
| `OrderedMapSpec.OverwriteIsSubstitute` | v4/orderedmap.go:75-76 | overwriting the slot found by the search is the same as renaming the key in the whole duplicate-free order |
| `OrderedMapSpec.Rename` | v4/orderedmap.go:69-79 | ReplaceKey keeps the length of the order. When the old key is stored and the new key is not, the two differ and the new key holds the old key's value. Otherwise the map is unchanged |
| `OrderedMapSpec.RenameProperties` | v4/orderedmap.go:66-80 | ReplaceKey keeps the invariant and the length. Renaming a key to itself changes nothing. On success the old key is gone, the new key holds the old value in the old key's position, and every other slot and value is unchanged |
| `OrderedMapSpec.Entries` | v4/orderedmap.go:103-113 | the front order pairs the i-th listed key with its stored value |
| `OrderedMapSpec.ValuesOf` | v4/orderedmap.go:140-151 | the value order is the stored value of each listed key, front to back |
| `OrderedMapSpec.EntriesAreTheMap` | v4/orderedmap.go:103-113 | the front traversal lists every stored key, each with its own value and each once |
| `OrderedMapSpec.ProjectionsOfEntries` | v4/orderedmap.go:127-151 | the key traversal and the value traversal are the key and value projections of the front traversal |
| `OrderedMapSpec.Reversed` | v4/orderedmap.go:119 | the backward order puts the last element first |
| `OrderedMapSpec.StopIndex` | v4/orderedmap.go:107-111 | the consumer accepts every element, at its position, before the stop index and rejects the one at it, if there is one |
| `OrderedMapSpec.Yielded` | v4/orderedmap.go:106-112 | a traversal yields a prefix. Every element but the last was accepted. A prefix shorter than the whole was ended by a rejection. A consumer that accepts everything receives everything |
| `OrderedMapSpec.YieldedStopsAt` | v4/orderedmap.go:108-110 | a loop that stops at the first rejected element has yielded exactly the prefix ending at it |
| `OrderedMapSpec.BackIsReversedFront` | v4/orderedmap.go:115-125 | when the consumer accepts every position in both directions, the back traversal yields exactly the reverse of the front traversal |
| `OrderedMapSpec.BreakAfterCount` | v4/orderedmap.go:145-149 | a consumer that breaks once it has received a given number of elements receives exactly that many leading elements, whatever their values |
| `OrderedMapSpec.AppendMulti` | v4/orderedmap.go:182-191 | a stored key's list gains the value at its end and the order is unchanged. A new key gets the one-element list and is appended to the order. Other keys are unchanged and the invariant is kept |
| `OrderedMaps.IndexOf` | v4/orderedmap.go:158 | the search returns -1 exactly when the key is absent. Otherwise it returns the first index that holds the key |
| `OrderedMaps.OrderedMap.constructor` | v4/orderedmap.go:13-25 | MakeOrderedMap and NewOrderedMap give a valid empty map |
| `OrderedMaps.OrderedMap.WithCapacity` | v4/orderedmap.go:27-35 | the capacity hint gives the same valid empty map |
| `OrderedMaps.OrderedMap.WithElements` | v4/orderedmap.go:37-43 | the constructor with elements equals setting each pair in turn into an empty map |
| `OrderedMaps.OrderedMap.Get` | v4/orderedmap.go:45-50 | a value is found exactly when the key is in the order, and it is the stored value |
| `OrderedMaps.OrderedMap.Set` | v4/orderedmap.go:52-64 | the result is true exactly when the key was new, and false on every overwrite, even with the same value. The new state is Put of the old state, and the invariant holds |
| `OrderedMaps.OrderedMap.ReplaceKey` | v4/orderedmap.go:66-80 | the result is true exactly when the original key was stored and the new key was not. The new state is Rename of the old state, which is unchanged on failure. The invariant holds |
| `OrderedMaps.OrderedMap.GetOrDefault` | v4/orderedmap.go:82-90 | a listed key gives its stored value and any other key gives the default. Nothing changes |
| `OrderedMaps.OrderedMap.Len` | v4/orderedmap.go:92-95 | the length of the order is the number of stored entries |
| `OrderedMaps.OrderedMap.All` | v4/orderedmap.go:97-101 | All yields what the front traversal yields |
| `OrderedMaps.OrderedMap.AllFromFront` | v4/orderedmap.go:103-113 | the pairs handed to the consumer are the front entries up to and including the first rejected one |
| `OrderedMaps.OrderedMap.AllFromBack` | v4/orderedmap.go:115-125 | the same for the reversed entries, newest key first |
| `OrderedMaps.OrderedMap.Keys` | v4/orderedmap.go:127-138 | the keys handed over are the key order up to and including the first rejected key |
| `OrderedMaps.OrderedMap.Values` | v4/orderedmap.go:140-151 | the values handed over are the value order up to and including the first rejected value |
| `OrderedMaps.OrderedMap.Delete` | v4/orderedmap.go:153-164 | the result is true exactly when the key was stored. The new state is Remove of the old state, which is unchanged for an absent key. The invariant holds |
| `OrderedMaps.OrderedMap.Copy` | v4/orderedmap.go:166-174 | the copy is a freshly allocated valid map with the same store and the same key order, and the original is unchanged |
| `OrderedMaps.OrderedMap.Has` | v4/orderedmap.go:176-180 | Has is membership of the key in the order, which is membership in the store |
| `OrderedMaps.AppendMultiMap` | v4/orderedmap.go:182-191 | returns the same map, whose new state is AppendMulti of the old one |
| `OrderedMapScenarios.EntriesAfterNewKey` | v4/orderedmap.go:55-63 | setting a new key adds exactly one pair, at the end of the front traversal |
| `OrderedMapScenarios.InsertionOrderKeys` | v4/orderedmap.go:37-43 | inserting distinct keys into an empty map lists them in insertion order |
| `OrderedMapScenarios.InsertionOrder` | v4/orderedmap.go:103-113 | after inserting pairs with distinct keys, the front traversal gives back exactly those pairs in order |
| `OrderedMapScenarios.BackTraversalAfterInserts` | v4/orderedmap.go:115-125 | after the same inserts, the back traversal gives the pairs newest first |
| `OrderedMapScenarios.ThreeEqualValues` | v4/orderedmap.go:37-43 | a map built from three pairs with distinct keys, all holding v, lists the values v, v, v |
| `OrderedMapScenarios.ValuesBreakAfterTwo` | v4/orderedmap.go:143-151 | in that map, a consumer that breaks after its second value receives exactly two of the three equal values |
| `OrderedMapScenarios.ResetKeepsPosition` | v4/orderedmap.go:52-64 | Set(k1), Set(k2), Set(k1, w) leaves the order k1, k2, with k1 holding w |
| `OrderedMapScenarios.DeleteThenSetGoesToBack` | v4/orderedmap.go:153-164 | Set(a), Set(b), Delete(a), Set(a, w) leaves the order b, a: a deleted key that is set again goes to the end |
| `OrderedMapScenarios.RenameKeepsPosition` | v4/orderedmap.go:66-80 | a, b, c renamed b to x reads a, x, c, and x holds b's value |
| `OrderedMapScenarios.RenameOntoStoredKeyFails` | v4/orderedmap.go:66-80 | renaming onto a stored key leaves the map unchanged |
| `OrderedMapScenarios.MultiMapAccumulates` | v4/orderedmap.go:182-191 | appending two values under one key of an empty multimap gives the list of both in order, with a single key |
| `OrderedMapScenarios.MutateCopy` | v4/orderedmap.go:166-174 | Set and Delete on a copy change only the copy's store and key order; the original's state is stated unchanged |
| `OrderedMapScenarios.MutateOriginal` | v4/orderedmap.go:166-174 | Set and Delete on the original leave the store and key order of an earlier copy as they were |
| `OrderedMapScenarios.DefaultIsNotStored` | v4/orderedmap.go:82-90 | GetOrDefault on an absent key returns the default and does not store it |

## Left out

- `OrderedMaps.OrderedMap.Get` returns `Option<V>` (`None` or `Some(value)`). The source returns the type's zero value together with `false`. A function such as `Get` cannot name the zero value of an arbitrary `V`. A method could declare one for an auto-initialisable `V(0)`, but `Get` is a function, so `None` stands for "zero value, false".
- Go's iterator machinery (`iter.Seq`, `iter.Seq2`, closures, laziness). A traversal is a method that returns the sequence of elements handed to the consumer. The consumer is a pure function of position and element, so a consumer that mutates the map during the traversal, or has effects outside it, is not modelled.
- Concurrency. The source's warning that `Copy` may produce a mangled result under concurrent writes (v4/orderedmap.go:167) is documentation only and has no logic to model.
- The value-receiver versus pointer-receiver handles of `MakeOrderedMap` and `NewOrderedMap`, and the sharing of `kv` and `*ll` between copies of a handle. A single Dafny object stands for the shared state, so all aliases see every mutation.
- The zero value of the `OrderedMap` struct, which has a nil `kv` and a nil `ll`. The model has no such state: objects come only from the constructors, and every operation requires `Valid()`. On that zero value, `Set` panics on the write to the nil map (v4/orderedmap.go:57). `Len` panics on the nil `ll` (:94). `AllFromFront`, `AllFromBack`, `Keys` and `Values` panic once ranged (:107, :119, :132, :145). `Copy` panics through `Len` (:169), and `AppendMultiMap` through `Set` (:185, :187). `Get`, `Has`, `GetOrDefault`, `Delete` and `ReplaceKey` behave as on an empty map.
- `OrderedMaps.OrderedMap.WithCapacity` takes a `nat`. Go's `make` panics on a negative capacity, and that panic is not modelled. The capacity itself has no observable effect, so it is not modelled either.
- `OrderedMaps.OrderedMap.WithElements` takes `Element` values. The source takes pointers to elements, and a nil pointer would panic. The definition of `Element` is not part of this model; here it is a key/value pair.
- `OrderedMaps.OrderedMap.Copy`: the copy gets its own store and key list, but each value is copied by assignment, so the copy shares its values with the original. For slice values, as in a multimap, the copy and the original share the backing arrays. An `append` through `AppendMultiMap` on one can then overwrite elements that the other sees. Dafny sequences are values, so this sharing is not modelled.
- `OrderedMaps.AppendMultiMap` works on value sequences. Go's `append` may share the backing array of the old slice with the new one, and that aliasing is not modelled.
- Keys whose equality is not reflexive or not hashable. The model's `K(==)` assumes every key equals itself. Go's `comparable` also admits a float NaN key, which never finds itself in `kv`. Each `Set(NaN, v)` then adds a new map entry and appends NaN to `ll` once more, `Get`, `Has` and `Delete` never find it, and `AllFromFront` and `Values` hand over the zero value instead of the stored one. An interface key whose dynamic type is not hashable, such as a slice, makes the lookup in `Set` panic. For such keys `Consistent` and `EntriesAreTheMap` do not describe the source, and neither behaviour is modelled.
- Integer width: `Len` returns a `nat`. Go's `int` cannot overflow for any length that fits in memory.
- The performance of the linear scans and of the capacity preallocation is not modelled.
