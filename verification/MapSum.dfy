/** The sum of the values of a finite map, whatever order its keys are visited in. */
module MapSum {

  ghost function Sum<K>(m: map<K, nat>): nat
  {
    if m == map[] then 0
    else
      var k :| k in m;
      m[k] + Sum(m - {k})
  }

  /** Any key may be taken out first. */
  lemma {:induction false} SumRemove<K>(m: map<K, nat>, k: K)
    requires k in m
    ensures Sum(m) == m[k] + Sum(m - {k})
    decreases |m|
  {
    var j :| j in m && Sum(m) == m[j] + Sum(m - {j});
    if j != k {
      SumRemove(m - {j}, k);
      SumRemove(m - {k}, j);
      assert m - {j} - {k} == m - {k} - {j};
    }
  }

  lemma {:induction false} SumPut<K>(m: map<K, nat>, k: K, v: nat)
    ensures Sum(m[k := v]) == v + Sum(m - {k})
  {
    SumRemove(m[k := v], k);
    assert m[k := v] - {k} == m - {k};
  }

  lemma {:induction false} SumPart<K>(m: map<K, nat>, n: map<K, nat>)
    requires m.Keys <= n.Keys && forall k <- m :: m[k] <= n[k]
    ensures Sum(m) <= Sum(n)
    decreases |m|
  {
    if m != map[] {
      var k :| k in m;
      SumRemove(m, k);
      SumRemove(n, k);
      SumPart(m - {k}, n - {k});
    }
  }
}
