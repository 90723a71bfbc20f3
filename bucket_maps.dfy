/**
 The abstract state of a one-to-many map: a finite map from each key to the
 finite set ("bucket") of values associated with it, with the operations of
 the Java MultiMap as functions on that state and the properties that
 MultiMap.java promises as lemmas.
 */
module BucketMaps {
  import opened Wrappers

  type Buckets<K, V> = map<K, set<V>>

  /** put: add v to k's bucket, creating the bucket {v} when k is new. */
  function Insert<K, V>(m: Buckets<K, V>, k: K, v: V): (r: Buckets<K, V>)
    ensures r.Keys == m.Keys + {k}
    ensures v in r[k] && (k in m ==> m[k] <= r[k]) && r[k] - {v} <= (if k in m then m[k] else {})
  {
    if k in m then m[k := m[k] + {v}] else m[k := {v}]
  }

  /** remove: take v out of k's (existing) bucket; the key always stays. */
  function Delete<K, V>(m: Buckets<K, V>, k: K, v: V): (r: Buckets<K, V>)
    requires k in m
    ensures r.Keys == m.Keys
    ensures v !in r[k] && r[k] <= m[k] && m[k] - {v} <= r[k]
  {
    m[k := m[k] - {v}]
  }

  /** get: the bucket of k, or None (Java's null) when k is absent. */
  function Lookup<K, V>(m: Buckets<K, V>, k: K): (r: Option<set<V>>)
    ensures r.Some? <==> k in m
    ensures r.Some? ==> r.value == m[k]
  {
    if k in m then Some(m[k]) else None
  }

  // ---------------------------------------------------------------------
  // put

  lemma InsertAdds<K, V>(m: Buckets<K, V>, k: K, v: V)
    ensures var r := Insert(m, k, v); k in r && v in r[k]
    ensures Lookup(Insert(m, k, v), k).Some? && v in Lookup(Insert(m, k, v), k).value
  {
  }

  lemma InsertNewKey<K, V>(m: Buckets<K, V>, k: K, v: V)
    requires k !in m
    ensures var r := Insert(m, k, v); r.Keys == m.Keys + {k} && r[k] == {v} && |r| == |m| + 1
  {
  }

  lemma InsertExistingKey<K, V>(m: Buckets<K, V>, k: K, v: V)
    requires k in m
    ensures var r := Insert(m, k, v); r.Keys == m.Keys && r[k] == m[k] + {v} && |r| == |m|
  {
  }

  /** Buckets are sets: putting a value that is already there changes nothing. */
  lemma InsertPresentValue<K, V>(m: Buckets<K, V>, k: K, v: V)
    requires k in m && v in m[k]
    ensures Insert(m, k, v) == m
  {
    assert m[k] + {v} == m[k];
  }

  lemma InsertIdempotent<K, V>(m: Buckets<K, V>, k: K, v: V)
    ensures Insert(Insert(m, k, v), k, v) == Insert(m, k, v)
  {
    InsertAdds(m, k, v);
    InsertPresentValue(Insert(m, k, v), k, v);
  }

  /** Only k's bucket is touched; every other key keeps its membership and its bucket. */
  lemma InsertFrame<K, V>(m: Buckets<K, V>, k: K, v: V, j: K)
    requires j != k
    ensures j in Insert(m, k, v) <==> j in m
    ensures j in m ==> Insert(m, k, v)[j] == m[j]
  {
  }

  // ---------------------------------------------------------------------
  // remove

  lemma DeleteRemoves<K, V>(m: Buckets<K, V>, k: K, v: V)
    requires k in m
    ensures var r := Delete(m, k, v);
      && k in r
      && v !in r[k]
      && (forall u :: u in m[k] && u != v ==> u in r[k])
      && r[k] <= m[k]
  {
  }

  /** The key survives removal, so the key set and its size are unchanged. */
  lemma DeleteKeepsKeys<K, V>(m: Buckets<K, V>, k: K, v: V)
    requires k in m
    ensures var r := Delete(m, k, v); r.Keys == m.Keys && |r| == |m|
  {
  }

  lemma DeleteFrame<K, V>(m: Buckets<K, V>, k: K, v: V, j: K)
    requires k in m && j != k
    ensures j in Delete(m, k, v) <==> j in m
    ensures j in m ==> Delete(m, k, v)[j] == m[j]
  {
  }

  /** Removing the last value of a bucket leaves the key with an empty bucket. */
  lemma DeleteLastValueLeavesEmptyBucket<K, V>(m: Buckets<K, V>, k: K, v: V)
    requires k in m && m[k] == {v}
    ensures var r := Delete(m, k, v); k in r && r[k] == {} && Lookup(r, k) == Some({})
  {
  }

  // ---------------------------------------------------------------------
  // get, containsKey, size, sizeOfKey, keySet

  lemma LookupDefinedIffKey<K, V>(m: Buckets<K, V>, k: K)
    ensures Lookup(m, k).Some? <==> k in m.Keys
    ensures Lookup(m, k).Some? ==> Lookup(m, k).value == m[k]
  {
  }

  // ---------------------------------------------------------------------
  // Moving a value from one key to another, as a caller does when the
  // indexed attribute of a value changes: remove(a, v) then put(b, v).

  function Move<K, V>(m: Buckets<K, V>, a: K, b: K, v: V): (r: Buckets<K, V>)
    requires a in m
    ensures r.Keys == m.Keys + {b} && v in r[b]
  {
    Insert(Delete(m, a, v), b, v)
  }

  lemma MoveEffect<K, V>(m: Buckets<K, V>, a: K, b: K, v: V)
    requires a in m && a != b
    ensures var r := Move(m, a, b, v);
      && a in r && b in r
      && v !in r[a] && v in r[b]
      && r[a] == m[a] - {v}
      && r[b] == (if b in m then m[b] else {}) + {v}
      && r.Keys == m.Keys + {b}
      && (forall j :: j in m && j != a && j != b ==> r[j] == m[j])
  {
  }

  // ---------------------------------------------------------------------
  // Histories of calls. A remove on an absent key dereferences null and
  // aborts the whole sequence; Replay models that abort as None.

  datatype Call<K, V> = PutCall(key: K, value: V) | RemoveCall(key: K, value: V)

  /** One call; only a remove on an absent key fails. */
  function Step<K, V>(m: Buckets<K, V>, c: Call<K, V>): (r: Option<Buckets<K, V>>)
    ensures r.None? <==> c.RemoveCall? && c.key !in m
    ensures r.Some? ==> m.Keys <= r.value.Keys && c.key in r.value
  {
    match c
    case PutCall(k, v) => Some(Insert(m, k, v))
    case RemoveCall(k, v) => if k in m then Some(Delete(m, k, v)) else None
  }

  /** A history made only of puts never fails. */
  function Replay<K, V>(m: Buckets<K, V>, calls: seq<Call<K, V>>): (r: Option<Buckets<K, V>>)
    ensures (forall c :: c in calls ==> c.PutCall?) ==> r.Some?
    decreases |calls|
  {
    if calls == [] then Some(m)
    else match Step(m, calls[0])
      case None => None
      case Some(m') => Replay(m', calls[1..])
  }

  /** Every key of the starting map is a key at the end, so size() at the end is at least size() at the start. */
  lemma {:induction false} ReplayKeepsKeys<K, V>(m: Buckets<K, V>, calls: seq<Call<K, V>>)
    requires Replay(m, calls).Some?
    ensures m.Keys <= Replay(m, calls).value.Keys
    ensures |m| <= |Replay(m, calls).value|
    decreases |calls|
  {
    if calls != [] {
      var m' := Step(m, calls[0]).value;
      ReplayKeepsKeys(m', calls[1..]);
      assert m.Keys <= m'.Keys;
      var f := Replay(m, calls).value;
      assert |m.Keys| <= |f.Keys|;
    }
  }

  /** A key that has been put is present at the end, whatever follows. */
  lemma {:induction false} ReplayRemembersPut<K, V>(m: Buckets<K, V>, calls: seq<Call<K, V>>, i: nat)
    requires i < |calls| && calls[i].PutCall?
    requires Replay(m, calls).Some?
    ensures calls[i].key in Replay(m, calls).value
    decreases |calls|
  {
    var m' := Step(m, calls[0]).value;
    if i == 0 {
      InsertAdds(m, calls[0].key, calls[0].value);
      ReplayKeepsKeys(m', calls[1..]);
    } else {
      ReplayRemembersPut(m', calls[1..], i - 1);
    }
  }

  // ---------------------------------------------------------------------
  // A hardened variant, kept apart from the operations above: removal that
  // prunes a bucket once it is empty, and a lookup that answers {} for an
  // absent key. With them, "a present key owns a non-empty bucket" holds.

  ghost predicate NoEmptyBuckets<K, V>(m: Buckets<K, V>)
  {
    forall k :: k in m ==> m[k] != {}
  }

  function DeletePruned<K, V>(m: Buckets<K, V>, k: K, v: V): (r: Buckets<K, V>)
    ensures r.Keys <= m.Keys && r.Keys >= m.Keys - {k}
    ensures k !in r || v !in r[k]
  {
    if k !in m then m
    else if m[k] - {v} == {} then m - {k}
    else m[k := m[k] - {v}]
  }

  function LookupOrEmpty<K, V>(m: Buckets<K, V>, k: K): (r: set<V>)
    ensures Lookup(m, k).Some? ==> r == Lookup(m, k).value
    ensures Lookup(m, k).None? ==> r == {}
  {
    if k in m then m[k] else {}
  }

  lemma InsertKeepsNoEmptyBuckets<K, V>(m: Buckets<K, V>, k: K, v: V)
    requires NoEmptyBuckets(m)
    ensures NoEmptyBuckets(Insert(m, k, v))
  {
  }

  lemma DeletePrunedKeepsNoEmptyBuckets<K, V>(m: Buckets<K, V>, k: K, v: V)
    requires NoEmptyBuckets(m)
    ensures NoEmptyBuckets(DeletePruned(m, k, v))
  {
  }

  /** The pruned removal agrees with the Java removal on every bucket but drops the key exactly when its bucket empties. */
  lemma DeletePrunedAgrees<K, V>(m: Buckets<K, V>, k: K, v: V)
    requires k in m
    ensures k in DeletePruned(m, k, v) <==> m[k] - {v} != {}
    ensures forall j :: LookupOrEmpty(DeletePruned(m, k, v), j) == LookupOrEmpty(Delete(m, k, v), j)
  {
  }

  /** With no empty buckets, LookupOrEmpty is empty exactly when the key is absent. */
  lemma LookupOrEmptyIffAbsent<K, V>(m: Buckets<K, V>, k: K)
    requires NoEmptyBuckets(m)
    ensures LookupOrEmpty(m, k) == {} <==> k !in m
  {
  }

  /** On a history made only of puts, the hardened replay agrees with the Java one. */
  function ReplayPruned<K, V>(m: Buckets<K, V>, calls: seq<Call<K, V>>): (r: Buckets<K, V>)
    ensures (forall c :: c in calls ==> c.PutCall?) ==> Replay(m, calls) == Some(r)
    decreases |calls|
  {
    if calls == [] then m
    else
      var m' := match calls[0]
        case PutCall(k, v) => Insert(m, k, v)
        case RemoveCall(k, v) => DeletePruned(m, k, v);
      ReplayPruned(m', calls[1..])
  }

  /** Every history of hardened calls from a map with no empty bucket keeps every bucket non-empty. */
  lemma {:induction false} ReplayPrunedKeepsNoEmptyBuckets<K, V>(m: Buckets<K, V>, calls: seq<Call<K, V>>)
    requires NoEmptyBuckets(m)
    ensures NoEmptyBuckets(ReplayPruned(m, calls))
    decreases |calls|
  {
    if calls != [] {
      match calls[0]
      case PutCall(k, v) =>
        InsertKeepsNoEmptyBuckets(m, k, v);
        ReplayPrunedKeepsNoEmptyBuckets(Insert(m, k, v), calls[1..]);
      case RemoveCall(k, v) =>
        DeletePrunedKeepsNoEmptyBuckets(m, k, v);
        ReplayPrunedKeepsNoEmptyBuckets(DeletePruned(m, k, v), calls[1..]);
    }
  }

  /** The Java removal, by contrast, can leave an empty bucket behind. */
  lemma DeleteCanBreakNoEmptyBuckets()
    ensures NoEmptyBuckets(map[1 := {2}])
    ensures !NoEmptyBuckets(Delete(map[1 := {2}], 1, 2))
  {
  }
}
