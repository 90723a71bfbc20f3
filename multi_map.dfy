/**
 The Java MultiMap: one mutable field holding a map from each key to its
 bucket of values. put and remove update that field in place; the other
 operations only observe it. Each update is specified by the matching
 function of BucketMaps on the old state.
 */
module Dao {
  import opened Wrappers
  import opened BucketMaps

  class MultiMap<K(==), V(==)> {
    var m: Buckets<K, V>

    /** A new collection holds no keys. */
    constructor ()
      ensures m == map[]
      ensures Size() == 0
    {
      m := map[];
    }

    method Put(k: K, v: V)
      modifies this
      ensures m == Insert(old(m), k, v)
      ensures ContainsKey(k) && v in Get(k).value
      ensures old(ContainsKey(k)) ==> Get(k).value == old(Get(k).value) + {v} && Size() == old(Size())
      ensures !old(ContainsKey(k)) ==> Get(k) == Some({v}) && Size() == old(Size()) + 1
      ensures m - {k} == old(m) - {k}  // every other key and bucket is unchanged
    {
      if k in m {
        m := m[k := m[k] + {v}];
      } else {
        var bucket := {v};
        m := m[k := bucket];
      }
    }

    function Get(k: K): (r: Option<set<V>>)
      reads this
      ensures r.Some? <==> ContainsKey(k)
      ensures r.Some? ==> r.value == m[k]
      ensures r == Lookup(m, k)
    {
      if k in m then Some(m[k]) else None
    }

    function ContainsKey(k: K): (b: bool)
      reads this
      ensures b <==> k in KeySet()
    {
      k in m
    }

    function KeySet(): (ks: set<K>)
      reads this
      ensures ks == m.Keys
    {
      m.Keys
    }

    /** The key is never removed, even when its bucket becomes empty. */
    method Remove(k: K, v: V)
      requires ContainsKey(k)
      modifies this
      ensures m == Delete(old(m), k, v)
      ensures ContainsKey(k) && v !in Get(k).value
      ensures Get(k).value == old(Get(k).value) - {v}
      ensures KeySet() == old(KeySet()) && Size() == old(Size())
      ensures m - {k} == old(m) - {k}  // every other key and bucket is unchanged
    {
      m := m[k := m[k] - {v}];
    }

    function Size(): (n: nat)
      reads this
      ensures n == |KeySet()|
    {
      |m|
    }

    function SizeOfKey(k: K): (n: nat)
      requires ContainsKey(k)
      reads this
      ensures n == |Get(k).value|
    {
      |m[k]|
    }

    // -------------------------------------------------------------------
    // Hardened variants, not present in MultiMap.java: a removal that prunes
    // an emptied bucket and a lookup that answers {} for an absent key.

    method RemovePruning(k: K, v: V)
      modifies this
      ensures m == DeletePruned(old(m), k, v)
      ensures !ContainsKey(k) || v !in Get(k).value
      ensures ContainsKey(k) <==> old(ContainsKey(k)) && old(Get(k).value) - {v} != {}
      ensures m - {k} == old(m) - {k}  // every other key and bucket is unchanged
    {
      if k in m {
        var rest := m[k] - {v};
        if rest == {} {
          m := m - {k};
        } else {
          m := m[k := rest];
        }
      }
    }

    function GetOrEmpty(k: K): (s: set<V>)
      reads this
      ensures ContainsKey(k) ==> s == Get(k).value
      ensures !ContainsKey(k) ==> s == {}
      ensures s == LookupOrEmpty(m, k)
    {
      if k in m then m[k] else {}
    }
  }
}
