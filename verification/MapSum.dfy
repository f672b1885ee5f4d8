/** Sums over the values of a finite map. */
module MapSum {

  ghost function Pick<V>(m: map<string, V>): (k: string)
    requires m != map[]
    ensures k in m
  {
    assert m.Keys != {};
    var k :| k in m.Keys;
    k
  }

  ghost function Sum<V>(m: map<string, V>, f: V -> int): int
    decreases |m|
  {
    if m == map[] then 0
    else
      var k := Pick(m);
      SmallerWithout(m, k);
      f(m[k]) + Sum(m - {k}, f)
  }

  lemma SmallerWithout<V>(m: map<string, V>, k: string)
    requires k in m
    ensures |m - {k}| == |m| - 1
  {
    assert (m - {k}).Keys == m.Keys - {k};
    assert |m.Keys| == |m| && |(m - {k}).Keys| == |m - {k}|;
  }

  /** Any key may be taken out first. */
  lemma {:induction false} SumWithout<V>(m: map<string, V>, f: V -> int, k: string)
    requires k in m
    ensures Sum(m, f) == f(m[k]) + Sum(m - {k}, f)
    decreases |m|
  {
    var p := Pick(m);
    if p != k {
      SmallerWithout(m, k);
      SmallerWithout(m, p);
      SumWithout(m - {p}, f, k);
      SumWithout(m - {k}, f, p);
      assert m - {p} - {k} == m - {k} - {p};
    }
  }

  lemma SumUpdate<V>(m: map<string, V>, f: V -> int, k: string, v: V)
    ensures Sum(m[k := v], f) == Sum(m, f) + f(v) - (if k in m then f(m[k]) else 0)
  {
    SumWithout(m[k := v], f, k);
    assert m[k := v] - {k} == m - {k};
    if k in m { SumWithout(m, f, k); } else { assert m - {k} == m; }
  }
}
