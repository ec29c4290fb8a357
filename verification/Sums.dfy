/**
 Sums over finite maps.
 */
module Sums {

  ghost function Sum<K>(m: map<K, int>): int {
    if m == map[] then 0
    else
      var k :| k in m;
      m[k] + Sum(m - {k})
  }

  function Get<K>(m: map<K, int>, k: K): int {
    if k in m then m[k] else 0
  }

  ghost predicate NonNegative<K>(m: map<K, int>) {
    forall k :: k in m ==> m[k] >= 0
  }

  /** The sum does not depend on which key is taken first. */
  lemma {:induction false} SumRemove<K>(m: map<K, int>, k: K)
    requires k in m
    ensures Sum(m) == m[k] + Sum(m - {k})
    decreases |m|
  {
    var p :| p in m && Sum(m) == m[p] + Sum(m - {p});
    if p != k {
      SumRemove(m - {p}, k);
      SumRemove(m - {k}, p);
      assert m - {p} - {k} == m - {k} - {p};
    }
  }

  lemma SumUpdate<K>(m: map<K, int>, k: K, v: int)
    ensures Sum(m[k := v]) == Sum(m) - Get(m, k) + v
  {
    var u := m[k := v];
    SumRemove(u, k);
    if k in m {
      SumRemove(m, k);
      assert u - {k} == m - {k};
    } else {
      assert u - {k} == m;
    }
  }

  lemma {:induction false} SumNonNegative<K>(m: map<K, int>)
    requires NonNegative(m)
    ensures Sum(m) >= 0
    decreases |m|
  {
    if m != map[] {
      var k :| k in m;
      SumRemove(m, k);
      SumNonNegative(m - {k});
    }
  }

  /** A sum of non-negative values bounds every value. */
  lemma SumBounds<K>(m: map<K, int>, k: K)
    requires NonNegative(m)
    ensures Get(m, k) <= Sum(m)
  {
  }

  /** Two maps that agree pointwise up to absent zeros have the same sum as long as one contains the other. */
  lemma {:induction false} SumMonotone<K>(m: map<K, int>, n: map<K, int>)
    requires m.Keys <= n.Keys && NonNegative(n)
    requires forall k :: k in m ==> m[k] <= n[k]
    ensures Sum(m) <= Sum(n)
    decreases |n|
  {
    if n == map[] {
      assert m == map[];
    } else {
      var k :| k in n;
      SumRemove(n, k);
      if k in m {
        SumRemove(m, k);
      } else {
        assert m - {k} == m;
      }
      SumMonotone(m - {k}, n - {k});
    }
  }

  lemma MergeRemove<K>(m: map<K, int>, n: map<K, int>, k: K)
    requires k !in m
    ensures (m + n) - {k} == m + (n - {k})
  {
  }

  lemma SumOfNothing<K>()
    ensures Sum<K>(map[]) == 0
  {
  }

  /** Disjoint maps add up. */
  lemma {:induction false} SumDisjoint<K>(m: map<K, int>, n: map<K, int>)
    requires m.Keys !! n.Keys
    ensures Sum(m + n) == Sum(m) + Sum(n)
    decreases |n|
  {
    hide Sum;
    if n == map[] {
      assert m + n == m;
      SumOfNothing<K>();
    } else {
      var k :| k in n;
      SumRemove(n, k);
      SumRemove(m + n, k);
      MergeRemove(m, n, k);
      SumDisjoint(m, n - {k});
    }
  }

  function Restrict<K, V>(m: map<K, V>, s: set<K>): (r: map<K, V>)
    ensures r.Keys == m.Keys * s
    ensures forall k :: k in r ==> r[k] == m[k]
  {
    map k | k in m && k in s :: m[k]
  }
}
