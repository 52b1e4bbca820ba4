/** Enumerating the values of a keyed collection into a list (`Values.Where(p).ToList()`, a table
    query, a repository query). The enumeration order is left unspecified. */
module Listing {

  ghost predicate Distinct<K>(keys: seq<K>) {
    forall i, j :: 0 <= i < j < |keys| ==> keys[i] != keys[j]
  }

  /** `r` lists, through `f`, the values of `m` that `keep` accepts, once for each key in `keys`:
      every listed key is stored and accepted, and every accepted key is listed exactly once. */
  ghost predicate ListsMapped<K, V, W>(r: seq<W>, keys: seq<K>, m: map<K, V>, keep: V -> bool, f: V -> W) {
    && |r| == |keys|
    && Distinct(keys)
    && (forall i :: 0 <= i < |keys| ==> keys[i] in m && r[i] == f(m[keys[i]]) && keep(m[keys[i]]))
    && (forall k :: k in m && keep(m[k]) ==> k in keys)
  }

  /** `r` lists the values of `m` that `keep` accepts, once for each key in `keys`. */
  ghost predicate Lists<K, V>(r: seq<V>, keys: seq<K>, m: map<K, V>, keep: V -> bool) {
    ListsMapped(r, keys, m, keep, (v: V) => v)
  }

  /** A sequence without repetitions is as long as the set of its elements. */
  lemma {:induction false} DistinctCardinality<K>(keys: seq<K>)
    requires Distinct(keys)
    ensures |set k | k in keys| == |keys|
  {
    if |keys| > 0 {
      var rest := keys[..|keys| - 1];
      var last := keys[|keys| - 1];
      assert Distinct(rest);
      DistinctCardinality(rest);
      assert (set k | k in keys) == (set k | k in rest) + {last};
      assert last !in (set k | k in rest);
    }
  }

  /** Enumerates, in some order, the values of `m` that `keep` accepts. */
  method Where<K, V>(m: map<K, V>, keep: V -> bool) returns (r: seq<V>, ghost keys: seq<K>)
    ensures Lists(r, keys, m, keep)
    ensures (forall k :: k in m ==> keep(m[k])) ==> |r| == |m|
  {
    r, keys := [], [];
    var rest := m.Keys;
    while rest != {}
      invariant rest <= m.Keys
      invariant |r| == |keys|
      invariant Distinct(keys)
      invariant forall i :: 0 <= i < |keys| ==> keys[i] in m && keys[i] !in rest && r[i] == m[keys[i]] && keep(m[keys[i]])
      invariant forall k :: k in m && k !in rest && keep(m[k]) ==> k in keys
      decreases rest
    {
      var k :| k in rest;
      if keep(m[k]) {
        r, keys := r + [m[k]], keys + [k];
      }
      rest := rest - {k};
    }
    if forall k :: k in m ==> keep(m[k]) {
      DistinctCardinality(keys);
      assert (set k | k in keys) == m.Keys;
    }
  }
}
