/** Sums over finite maps and over sequences, with the update laws the counters need. */
module MapSums {

  ghost function Sum<K, V>(m: map<K, V>, f: (K, V) -> int): int
    decreases |m|
  {
    if m == map[] then 0
    else
      var k :| k in m;
      f(k, m[k]) + Sum(m - {k}, f)
  }

  /** The order in which the entries are added does not matter. */
  lemma {:induction false} SumPick<K, V>(m: map<K, V>, f: (K, V) -> int, k: K)
    requires k in m
    ensures Sum(m, f) == f(k, m[k]) + Sum(m - {k}, f)
    decreases |m|
  {
    var j :| j in m && Sum(m, f) == f(j, m[j]) + Sum(m - {j}, f);
    if j != k {
      SumPick(m - {j}, f, k);
      SumPick(m - {k}, f, j);
      assert m - {j} - {k} == m - {k} - {j};
    }
  }

  lemma SumPut<K, V>(m: map<K, V>, f: (K, V) -> int, k: K, v: V)
    ensures Sum(m[k := v], f) == Sum(m, f) - (if k in m then f(k, m[k]) else 0) + f(k, v)
  {
    SumPick(m[k := v], f, k);
    assert m[k := v] - {k} == m - {k};
    if k in m {
      SumPick(m, f, k);
    } else {
      assert m - {k} == m;
    }
  }

  lemma SumDrop<K, V>(m: map<K, V>, f: (K, V) -> int, k: K)
    ensures Sum(m - {k}, f) == Sum(m, f) - (if k in m then f(k, m[k]) else 0)
  {
    if k in m {
      SumPick(m, f, k);
    } else {
      assert m - {k} == m;
    }
  }

  /** A sum of non-negative terms bounds each of them. */
  lemma {:induction false} SumBounds<K, V>(m: map<K, V>, f: (K, V) -> int, k: K)
    requires forall j :: j in m ==> f(j, m[j]) >= 0
    requires k in m
    ensures Sum(m, f) >= f(k, m[k])
  {
    SumPick(m, f, k);
    SumNonNegative(m - {k}, f);
  }

  lemma {:induction false} SumNonNegative<K, V>(m: map<K, V>, f: (K, V) -> int)
    requires forall j :: j in m ==> f(j, m[j]) >= 0
    ensures Sum(m, f) >= 0
    decreases |m|
  {
    if m != map[] {
      var k :| k in m && Sum(m, f) == f(k, m[k]) + Sum(m - {k}, f);
      SumNonNegative(m - {k}, f);
    }
  }
}
