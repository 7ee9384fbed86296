/** The sum of the values of a map. */
module MapSums {
  ghost function Sum<K>(m: map<K, nat>): nat {
    if m == map[] then 0
    else
      var k :| k in m;
      m[k] + Sum(m - {k})
  }

  lemma {:induction false} SumRemove<K>(m: map<K, nat>, k: K)
    requires k in m
    ensures Sum(m) == m[k] + Sum(m - {k})
    decreases |m|
  {
    var j :| j in m && Sum(m) == m[j] + Sum(m - {j});
    if j != k {
      SumRemove(m - {j}, k);
      assert m - {j} - {k} == m - {k} - {j};
      SumRemove(m - {k}, j);
    }
  }

  lemma SumInsert<K>(m: map<K, nat>, k: K, n: nat)
    ensures Sum(m[k := n]) == n + Sum(m - {k}) <= n + Sum(m)
    ensures k !in m ==> Sum(m[k := n]) == n + Sum(m)
  {
    SumRemove(m[k := n], k);
    assert m[k := n] - {k} == m - {k};
    if k in m { SumRemove(m, k); } else { assert m - {k} == m; }
  }

  /** Each entry of b is bounded by an entry of m or of r at the same key. */
  ghost predicate BoundedByEither<K(!new)>(b: map<K, nat>, m: map<K, nat>, r: map<K, nat>) {
    forall k | k in b :: (k in m && b[k] <= m[k]) || (k in r && b[k] <= r[k])
  }

  lemma {:induction false} SumBoundedByEither<K(!new)>(b: map<K, nat>, m: map<K, nat>, r: map<K, nat>)
    requires BoundedByEither(b, m, r)
    ensures Sum(b) <= Sum(m) + Sum(r)
    decreases |b|
  {
    if b == map[] {
    } else {
      var k :| k in b;
      SumRemove(b, k);
      if k in m && b[k] <= m[k] {
        SumRemove(m, k);
        SumBoundedByEither(b - {k}, m - {k}, r);
      } else {
        SumRemove(r, k);
        SumBoundedByEither(b - {k}, m, r - {k});
      }
    }
  }
}
