/** Lookups in finite maps, and sums of a weight over their entries. */
module Maps {
  import opened Options

  function Find<K, V>(m: map<K, V>, k: K): Option<V> {
    if k in m then Some(m[k]) else None
  }

  /** Taking one key off a to-do set adds exactly that key to the part of the map already done. */
  lemma TakeOne<K, V>(m: map<K, V>, todo: set<K>, k: K)
    requires todo <= m.Keys && k in todo
    ensures m - (todo - {k}) == (m - todo)[k := m[k]]
  {
  }

  ghost function Total<K, V>(m: map<K, V>, w: (K, V) -> int): int
    decreases |m|
  {
    if m == map[] then 0
    else
      var k :| k in m;
      RemoveShrinks(m, k);
      w(k, m[k]) + Total(m - {k}, w)
  }

  lemma RemoveShrinks<K, V>(m: map<K, V>, k: K)
    requires k in m
    ensures |m - {k}| == |m| - 1
  {
    assert (m - {k}).Keys == m.Keys - {k};
    assert m.Keys == (m - {k}).Keys + {k};
    assert |(m - {k}).Keys| == |m.Keys| - 1;
  }

  /** The sum does not depend on the order in which the keys are taken. */
  lemma {:induction false} TotalRemove<K, V>(m: map<K, V>, w: (K, V) -> int, k: K)
    requires k in m
    ensures Total(m, w) == w(k, m[k]) + Total(m - {k}, w)
    decreases |m|
  {
    RemoveShrinks(m, k);
    var j :| j in m && Total(m, w) == w(j, m[j]) + Total(m - {j}, w);
    if j != k {
      RemoveShrinks(m, j);
      TotalRemove(m - {j}, w, k);
      TotalRemove(m - {k}, w, j);
      assert (m - {j}) - {k} == (m - {k}) - {j};
    }
  }

  lemma TotalInsert<K, V>(m: map<K, V>, w: (K, V) -> int, k: K, v: V)
    ensures Total(m[k := v], w) == Total(m, w) + w(k, v) - (if k in m then w(k, m[k]) else 0)
  {
    TotalRemove(m[k := v], w, k);
    assert m[k := v] - {k} == m - {k};
    if k in m {
      TotalRemove(m, w, k);
    } else {
      assert m - {k} == m;
    }
  }
}
