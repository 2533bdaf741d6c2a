/** Sums over the entries of a finite map. */
module MapSums {
  ghost function Sum<K(!new), V(!new)>(m: map<K, V>, f: (K, V) -> int): int {
    if m == map[] then 0
    else
      var k :| k in m;
      f(k, m[k]) + Sum(m - {k}, f)
  }

  /** Any key may be summed first. */
  lemma {:induction false} SumTake<K(!new), V(!new)>(m: map<K, V>, f: (K, V) -> int, k: K)
    requires k in m
    ensures Sum(m, f) == f(k, m[k]) + Sum(m - {k}, f)
  {
    var x :| x in m && Sum(m, f) == f(x, m[x]) + Sum(m - {x}, f);
    if x != k {
      SumTake(m - {x}, f, k);
      SumTake(m - {k}, f, x);
      assert m - {x} - {k} == m - {k} - {x};
    }
  }

  lemma SumPut<K(!new), V(!new)>(m: map<K, V>, f: (K, V) -> int, k: K, v: V)
    ensures Sum(m[k := v], f) == Sum(m, f) + f(k, v) - if k in m then f(k, m[k]) else 0
  {
    SumTake(m[k := v], f, k);
    assert m[k := v] - {k} == m - {k};
    if k in m {
      SumTake(m, f, k);
    } else {
      assert m - {k} == m;
    }
  }

  lemma {:induction false} SumAtMost<K(!new), V(!new)>(m: map<K, V>, f: (K, V) -> int, g: (K, V) -> int)
    requires forall k :: k in m ==> f(k, m[k]) <= g(k, m[k])
    ensures Sum(m, f) <= Sum(m, g)
  {
    if k :| k in m {
      SumTake(m, f, k);
      SumTake(m, g, k);
      SumAtMost(m - {k}, f, g);
    } else {
      assert m == map[];
    }
  }

  lemma {:induction false} SumZero<K(!new), V(!new)>(m: map<K, V>, f: (K, V) -> int)
    requires forall k :: k in m ==> f(k, m[k]) == 0
    ensures Sum(m, f) == 0
  {
    if k :| k in m {
      SumTake(m, f, k);
      SumZero(m - {k}, f);
    } else {
      assert m == map[];
    }
  }

  lemma {:induction false} SumNotNegative<K(!new), V(!new)>(m: map<K, V>, f: (K, V) -> int)
    requires forall k :: k in m ==> f(k, m[k]) >= 0
    ensures Sum(m, f) >= 0
  {
    if k :| k in m {
      SumTake(m, f, k);
      SumNotNegative(m - {k}, f);
    } else {
      assert m == map[];
    }
  }
}
