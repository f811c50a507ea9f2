/** Sums over the values of a map. */
module MapSums {

  ghost function Total<K>(sizes: map<K, nat>, keys: set<K>): nat
    requires keys <= sizes.Keys
  {
    if keys == {} then 0
    else
      var k :| k in keys;
      sizes[k] + Total(sizes, keys - {k})
  }

  lemma {:induction false} TotalSplits<K>(sizes: map<K, nat>, keys: set<K>, k: K)
    requires keys <= sizes.Keys && k in keys
    ensures Total(sizes, keys) == sizes[k] + Total(sizes, keys - {k})
    decreases keys
  {
    var j :| j in keys && Total(sizes, keys) == sizes[j] + Total(sizes, keys - {j});
    if j != k {
      TotalSplits(sizes, keys - {j}, k);
      TotalSplits(sizes, keys - {k}, j);
      assert keys - {j} - {k} == keys - {k} - {j};
    }
  }

  lemma {:induction false} TotalAgrees<K>(a: map<K, nat>, b: map<K, nat>, keys: set<K>)
    requires keys <= a.Keys && keys <= b.Keys && forall k :: k in keys ==> a[k] == b[k]
    ensures Total(a, keys) == Total(b, keys)
    decreases keys
  {
    if keys != {} {
      var k :| k in keys;
      TotalSplits(a, keys, k);
      TotalSplits(b, keys, k);
      TotalAgrees(a, b, keys - {k});
    }
  }

  /** Changing one value changes the sum by as much. */
  lemma TotalUpdate<K>(a: map<K, nat>, b: map<K, nat>, k: K)
    requires a.Keys == b.Keys && k in a && forall j :: j in a && j != k ==> a[j] == b[j]
    ensures Total(b, b.Keys) - b[k] == Total(a, a.Keys) - a[k]
  {
    TotalSplits(a, a.Keys, k);
    TotalSplits(b, b.Keys, k);
    TotalAgrees(a, b, a.Keys - {k});
  }
}
