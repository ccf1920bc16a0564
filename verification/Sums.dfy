/** Sums over finite maps of non-negative weights. */
module Sums {

  ghost function Sum<K(!new)>(m: map<K, nat>): nat
    decreases |m|
  {
    if m == map[] then 0 else
      var k := Pick(m);
      assert |m - {k}| < |m| by { Smaller(m, k); }
      m[k] + Sum(m - {k})
  }

  ghost function Pick<K(!new)>(m: map<K, nat>): (k: K)
    requires m != map[]
    ensures k in m
  {
    var k :| k in m; k
  }

  lemma Smaller<K(!new)>(m: map<K, nat>, k: K)
    requires k in m
    ensures |m - {k}| == |m| - 1
  {
    assert (m - {k}).Keys == m.Keys - {k};
    assert |m.Keys - {k}| == |m.Keys| - 1;
    assert |m - {k}| == |(m - {k}).Keys| && |m| == |m.Keys|;
  }

  /** Any element may be taken out first. */
  lemma {:induction false} Take<K(!new)>(m: map<K, nat>, k: K)
    requires k in m
    ensures Sum(m) == m[k] + Sum(m - {k})
    decreases |m|
  {
    var j := Pick(m);
    if j != k {
      Smaller(m, j);
      Smaller(m, k);
      Take(m - {j}, k);
      Take(m - {k}, j);
      assert m - {j} - {k} == m - {k} - {j};
    }
  }

  /** The effect of one assignment, whether or not the key was present. */
  lemma Assign<K(!new)>(m: map<K, nat>, k: K, v: nat)
    ensures Sum(m[k := v]) == Sum(m) - (if k in m then m[k] else 0) + v
  {
    var n := m[k := v];
    Take(n, k);
    assert n - {k} == m - {k};
    if k in m {
      Take(m, k);
    } else {
      assert m - {k} == m;
    }
  }

  /** No single weight exceeds the sum. */
  lemma Bounded<K(!new)>(m: map<K, nat>, k: K)
    requires k in m
    ensures m[k] <= Sum(m)
  {
    Take(m, k);
  }

  /** Two distinct weights together do not exceed the sum. */
  lemma BoundedTwo<K(!new)>(m: map<K, nat>, j: K, k: K)
    requires j in m && k in m && j != k
    ensures m[j] + m[k] <= Sum(m)
  {
    Take(m, j);
    Take(m - {j}, k);
  }
}
