/** The total of a finite map of amounts, and how it changes with the map. */
module Totals {

  ghost function MapTotal<K(!new)>(m: map<K, nat>): nat {
    if m == map[] then 0
    else
      var k :| k in m;
      m[k] + MapTotal(m - {k})
  }

  /** The amount of a key that may be missing. */
  function Amount<K>(m: map<K, nat>, k: K): nat {
    if k in m then m[k] else 0
  }

  lemma {:induction false} MapTotalRemove<K(!new)>(m: map<K, nat>, k: K)
    requires k in m
    ensures MapTotal(m) == m[k] + MapTotal(m - {k})
    decreases |m|
  {
    var first :| first in m && MapTotal(m) == m[first] + MapTotal(m - {first});
    if first != k {
      assert m - {first} - {k} == m - {k} - {first};
      MapTotalRemove(m - {first}, k);
      MapTotalRemove(m - {k}, first);
    }
  }

  /** Setting one amount changes the total by the difference. */
  lemma MapTotalUpdate<K(!new)>(m: map<K, nat>, k: K, v: nat)
    ensures MapTotal(m[k := v]) == MapTotal(m) - Amount(m, k) + v
  {
    var n := m[k := v];
    MapTotalRemove(n, k);
    assert n - {k} == m - {k};
    if k in m {
      MapTotalRemove(m, k);
    } else {
      assert m - {k} == m;
    }
  }

  lemma AmountAtMostTotal<K(!new)>(m: map<K, nat>, k: K)
    ensures Amount(m, k) <= MapTotal(m)
  {
    if k in m {
      MapTotalRemove(m, k);
    }
  }

  /** Amounts that are smaller everywhere have a smaller total. */
  lemma {:induction false} MapTotalMonotone<K(!new)>(m: map<K, nat>, n: map<K, nat>)
    requires forall k :: Amount(m, k) <= Amount(n, k)
    ensures MapTotal(m) <= MapTotal(n)
    decreases |m|
  {
    if m != map[] {
      var k :| k in m;
      MapTotalRemove(m, k);
      MapTotalUpdate(n, k, 0);
      forall j
        ensures Amount(m - {k}, j) <= Amount(n[k := 0], j)
      {
        assert Amount(m, j) <= Amount(n, j);
      }
      MapTotalMonotone(m - {k}, n[k := 0]);
    }
  }

  lemma MapTotalSame<K(!new)>(m: map<K, nat>, n: map<K, nat>)
    requires forall k :: Amount(m, k) == Amount(n, k)
    ensures MapTotal(m) == MapTotal(n)
  {
    MapTotalMonotone(m, n);
    MapTotalMonotone(n, m);
  }

  /** The total of pointwise sums. */
  lemma {:induction false} MapTotalSum<K(!new)>(m: map<K, nat>, n: map<K, nat>, sum: map<K, nat>)
    requires forall k :: Amount(sum, k) == Amount(m, k) + Amount(n, k)
    ensures MapTotal(sum) == MapTotal(m) + MapTotal(n)
    decreases |n|
  {
    if n == map[] {
      forall k
        ensures Amount(sum, k) == Amount(m, k)
      {
        assert Amount(sum, k) == Amount(m, k) + Amount(n, k);
      }
      MapTotalSame(sum, m);
    } else {
      var k :| k in n;
      MapTotalRemove(n, k);
      MapTotalUpdate(sum, k, Amount(m, k));
      assert Amount(sum, k) == Amount(m, k) + Amount(n, k);
      forall j
        ensures Amount(sum[k := Amount(m, k)], j) == Amount(m, j) + Amount(n - {k}, j)
      {
        assert Amount(sum, j) == Amount(m, j) + Amount(n, j);
      }
      MapTotalSum(m, n - {k}, sum[k := Amount(m, k)]);
    }
  }
}
