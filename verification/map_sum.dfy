/**
 * Sums over the values of a finite map, as Java computes them with
 * `map.values().stream().mapToInt(...).sum()`. The order in which the
 * stream visits the entries is irrelevant for a sum, and the lemmas below
 * prove that the ghost definition does not depend on the key it peels off.
 */
module MapSum {

  /** The sum of all values of `m`. */
  ghost function Sum<K>(m: map<K, int>): int
    decreases |m.Keys|
  {
    if m.Keys == {} then 0
    else
      var k :| k in m.Keys;
      assert m.Keys - {k} < m.Keys;
      m[k] + Sum(m - {k})
  }

  /** Any key can be the one peeled off first. */
  lemma {:induction false} SumRemove<K>(m: map<K, int>, k: K)
    requires k in m
    ensures Sum(m) == m[k] + Sum(m - {k})
    decreases |m.Keys|
  {
    var k0 :| k0 in m.Keys && Sum(m) == m[k0] + Sum(m - {k0});
    if k0 != k {
      var m0 := m - {k0};
      var m1 := m - {k};
      assert m0.Keys < m.Keys;
      assert m1.Keys < m.Keys;
      SumRemove(m0, k);
      SumRemove(m1, k0);
      assert m0[k] == m[k] && m1[k0] == m[k0];
      assert m0 - {k} == m1 - {k0} by {
        assert (m0 - {k}).Keys == (m1 - {k0}).Keys;
      }
    }
  }

  /** Replacing (or adding) the value of one key changes the sum by the difference. */
  lemma SumUpdate<K>(m: map<K, int>, k: K, v: int)
    ensures Sum(m[k := v]) == v + Sum(m - {k})
    ensures k in m ==> Sum(m[k := v]) == Sum(m) - m[k] + v
    ensures k !in m ==> Sum(m[k := v]) == Sum(m) + v
  {
    SumRemove(m[k := v], k);
    assert m[k := v] - {k} == m - {k};
    if k in m {
      SumRemove(m, k);
    } else {
      assert m - {k} == m;
    }
  }

  /** The iteration the Java stream performs, accumulating one entry at a time. */
  method SumValues<K>(m: map<K, int>) returns (total: int)
    ensures total == Sum(m)
  {
    total := 0;
    var rest := m;
    while rest.Keys != {}
      invariant total + Sum(rest) == Sum(m)
      decreases |rest.Keys|
    {
      var k :| k in rest.Keys;
      SumRemove(rest, k);
      total := total + rest[k];
      assert (rest - {k}).Keys < rest.Keys;
      rest := rest - {k};
    }
    assert rest == map[];
  }
}
