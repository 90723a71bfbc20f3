# MultiMap: a one-to-many collection, modelled and verified in Dafny

The student-records application keeps a secondary index from a student's major
to the students in it. That index is the generic class `MultiMap<Key, Value>`
(`src/dao/MultiMap.java`). It has a Map-like interface over one private field,
a `TreeMap` from each key to a `TreeSet` "bucket" of values:

- `put(key, value)` adds the value to the key's bucket. It creates the bucket
  `{value}` when the key is new.
- `remove(key, value)` takes the value out of the key's bucket. It never
  removes the key, even when the bucket becomes empty. On an absent key it
  dereferences `null`.
- `get`, `containsKey`, `keySet`, `size` and `sizeOfKey` only observe the map.
  `get` answers `null` for an absent key. `sizeOfKey` dereferences `null` for one.

The project has three modules:

- `Wrappers` (`wrappers.dfy`) defines `Option`. `None` stands for Java's `null`.
- `BucketMaps` (`bucket_maps.dfy`) is the abstract state, `map<K, set<V>>`.
  It holds `Insert` (put), `Delete` (remove) and `Lookup` (get) as functions,
  and lemmas stating what MultiMap.java promises about them. It also holds
  replays of call histories, and a separately named hardened variant
  (`DeletePruned`, `LookupOrEmpty`) that prunes emptied buckets.
- `Dao` (`multi_map.dfy`) holds the class `MultiMap` with the field `m`.
  `Put` and `Remove` are `modifies this` methods. Each states its new state as
  the `BucketMaps` function of the old state, and states its observable effect
  through the observers. The observers are functions that read `this`, and each
  is specified in terms of the state and of each other. `Get` and `GetOrEmpty`
  are tied to `BucketMaps.Lookup` and `BucketMaps.LookupOrEmpty`, so the lemmas
  about those apply to the class. Two extra members, `RemovePruning` and
  `GetOrEmpty`, give the hardened behaviour. They are kept distinct from the
  faithful `Remove` and `Get`.

A Java `NullPointerException` from `remove` or `sizeOfKey` on an absent key is
a precondition here (`requires ContainsKey(k)`). In the history replay,
`Replay` answers `None` for a history in which such a call occurs.

## Model

| member | source | states |
|---|---|---|
| Dao.MultiMap.constructor | src/dao/MultiMap.java:21 | a new collection holds no keys and has size 0 |
| Dao.MultiMap.Put | src/dao/MultiMap.java:29-44 | the new state is the old one with v added to k's bucket. Afterwards k is a key and v is in get(k). A present key's bucket grows by v and size() is unchanged. An absent key gets exactly {v} and size() grows by one. All other keys and buckets are unchanged |
| Dao.MultiMap.Get | src/dao/MultiMap.java:52-54 | get(k) is defined (non-null) exactly when containsKey(k), and then it is k's bucket |
| Dao.MultiMap.ContainsKey | src/dao/MultiMap.java:62-64 | containsKey(k) holds exactly when k is in keySet() |
| Dao.MultiMap.KeySet | src/dao/MultiMap.java:71-73 | keySet() is exactly the set of keys of the map |
| Dao.MultiMap.Remove | src/dao/MultiMap.java:81-83 | requires k present. Afterwards v is not in k's bucket and every other member of it remains. k stays a key, so keySet() and size() are unchanged. All other keys and buckets are unchanged |
| Dao.MultiMap.Size | src/dao/MultiMap.java:90-92 | size() is the cardinality of keySet() |
| Dao.MultiMap.SizeOfKey | src/dao/MultiMap.java:100-102 | requires k present; sizeOfKey(k) is the cardinality of get(k) |
| Dao.MultiMap.RemovePruning | src/dao/MultiMap.java:81-83 | hardened remove: v leaves k's bucket, and k stops being a key exactly when its bucket empties; other keys are untouched |
| Dao.MultiMap.GetOrEmpty | src/dao/MultiMap.java:52-54 | hardened get: k's bucket when k is present, the empty set otherwise |
| BucketMaps.Insert | src/dao/MultiMap.java:29-44 | put on the abstract state: the keys become the old keys plus k. k's bucket holds v, keeps every old member, and gains nothing else |
| BucketMaps.Delete | src/dao/MultiMap.java:81-83 | remove on the abstract state, for a present key: the key set is unchanged. k's bucket loses v and keeps every other old member |
| BucketMaps.Lookup | src/dao/MultiMap.java:52-54 | get on the abstract state: defined exactly for present keys, and then that key's bucket |
| BucketMaps.Move | src/dao/MultiMap.java:29-83 | remove(a, v) then put(b, v): the keys become the old keys plus b, and b's bucket holds v |
| BucketMaps.Step | src/dao/MultiMap.java:29-83 | one call of a history: it fails exactly when it is a remove on an absent key (the null dereference at line 82). Otherwise no key is lost and the call's key is present |
| BucketMaps.Replay | src/dao/MultiMap.java:29-83 | a history of calls, where a failing call aborts the rest: a history of puts alone never fails |
| BucketMaps.DeletePruned | src/dao/MultiMap.java:81-83 | hardened remove on the abstract state: it removes no key other than k, and afterwards v is not in k's bucket if k is still a key |
| BucketMaps.ReplayPruned | src/dao/MultiMap.java:29-83 | a history of put and pruning remove calls. On a history of puts alone it agrees with the Java replay |
| BucketMaps.InsertAdds | src/dao/MultiMap.java:29-44 | after put(k, v), k is a key and get(k) is defined and contains v |
| BucketMaps.InsertNewKey | src/dao/MultiMap.java:34-43 | put on an absent key adds exactly that key, with bucket {v}, and the key count grows by one |
| BucketMaps.InsertExistingKey | src/dao/MultiMap.java:31-33 | put on a present key keeps the key set and its size, and the bucket becomes old bucket plus v |
| BucketMaps.InsertPresentValue | src/dao/MultiMap.java:33 | putting a value already in the bucket leaves the whole map unchanged |
| BucketMaps.InsertIdempotent | src/dao/MultiMap.java:29-44 | putting the same pair twice is the same as putting it once |
| BucketMaps.InsertFrame | src/dao/MultiMap.java:29-44 | put changes neither the membership nor the bucket of any other key |
| BucketMaps.DeleteRemoves | src/dao/MultiMap.java:81-83 | after remove(k, v), k is still a key and v is not in its bucket. Every other former member remains, and nothing is added |
| BucketMaps.DeleteKeepsKeys | src/dao/MultiMap.java:82 | remove leaves the key set and its cardinality unchanged |
| BucketMaps.DeleteFrame | src/dao/MultiMap.java:81-83 | remove changes neither the membership nor the bucket of any other key |
| BucketMaps.DeleteLastValueLeavesEmptyBucket | src/dao/MultiMap.java:82 | removing a bucket's last value leaves the key present with an empty bucket, and get answers the empty set, not null |
| BucketMaps.LookupDefinedIffKey | src/dao/MultiMap.java:52-64 | get is defined exactly for the keys of the map, and then yields that key's bucket |
| BucketMaps.MoveEffect | src/dao/MultiMap.java:29-83 | covers remove(a, v) then put(b, v) with a != b. Afterwards v is in b's bucket and not in a's, and a is still a key even if its bucket is empty. The keys are the old keys plus b, and every other bucket is unchanged |
| BucketMaps.ReplayKeepsKeys | src/dao/MultiMap.java:29-83 | over any history of put and remove calls that does not fail, every key of the starting map is a key at the end, and size() at the end is at least size() at the start |
| BucketMaps.ReplayRemembersPut | src/dao/MultiMap.java:29-83 | a key that was put at any point of a history that does not fail is a key at its end |
| BucketMaps.LookupOrEmpty | src/dao/MultiMap.java:52-54 | the hardened get agrees with get where get is defined, and is empty where get is null |
| BucketMaps.InsertKeepsNoEmptyBuckets | src/dao/MultiMap.java:29-44 | put keeps the invariant that every present key owns a non-empty bucket |
| BucketMaps.DeletePrunedKeepsNoEmptyBuckets | src/dao/MultiMap.java:81-83 | the pruning remove keeps that invariant |
| BucketMaps.DeletePrunedAgrees | src/dao/MultiMap.java:81-83 | the pruning remove drops k exactly when its bucket empties. Under the hardened get, it yields the same bucket for every key as the Java remove |
| BucketMaps.LookupOrEmptyIffAbsent | src/dao/MultiMap.java:52-54 | when no bucket is empty, the hardened get is empty exactly for absent keys |
| BucketMaps.ReplayPrunedKeepsNoEmptyBuckets | src/dao/MultiMap.java:29-83 | any history of put and pruning remove calls keeps every bucket non-empty |
| BucketMaps.DeleteCanBreakNoEmptyBuckets | src/dao/MultiMap.java:82 | the Java remove can leave an empty bucket: it breaks that invariant for map[1 := {2}] |

## Left out

- The ordering of keys and values. `TreeMap` and `TreeSet` iterate in natural order, and `Value extends Comparable<Value>`. Buckets and key sets are modelled as unordered Dafny `set`s. Java's compareTo and equals are not required to agree, but the model assumes they do and uses Dafny equality.
- Aliasing of the returned collections. `get` and `keySet` return live views of the map, and a caller could mutate the map through them. The model returns value snapshots.
- Dao.MultiMap.Size: Java returns a 32-bit `int`; the model returns an unbounded `nat`. The key count does not reach `Integer.MAX_VALUE` in practice, so the width is not modelled.
- Dao.MultiMap.SizeOfKey: Java returns a 32-bit `int` (the bucket's `TreeSet.size()`); the model returns an unbounded `nat`. A bucket does not reach `Integer.MAX_VALUE` values in practice, so the width is not modelled.
- Keys that are not comparable: `Key` has no `Comparable` bound, but the `TreeMap` uses natural ordering, so `put`, `get`, `containsKey`, `remove` and `sizeOfKey` throw `ClassCastException` for a key that is not `Comparable` or not comparable with the keys already present. The model accepts any key type with equality and does not cover that exception.
- Null keys and values: with natural ordering, `TreeMap` and `TreeSet` throw `NullPointerException` for a null key in `put`, `get`, `containsKey`, `remove` and `sizeOfKey`, and for a null value in `put` and in `remove` (`TreeSet.remove(null)` compares the null value). The model does not cover that exception; if `K` or `V` is instantiated with a nullable type, the model accepts null where Java throws.
- The student record store (`StudentCollectionsDAO`, `StudentDAO`, `Student`), which `src/Main.java` constructs, is outside the scope of this model, which covers only `MultiMap`. So the id-to-record map and its consistency with the major index are not modelled.
- The GUI (`StudentDialog`, `MainMenuFrame`), the wiring in `src/Main.java` and the GUI test are left out. They are presentation code and event-thread dispatch, with no logic of the collection.
- Concurrency: MultiMap.java has none.
