/** Sums over finite maps: the ground truth every usage counter is compared with. */
module Totals {

  /** The sum of all the values of a map. */
  ghost function Total<K>(m: map<K, int>): int
  {
    if m == map[] then 0
    else
      var k :| k in m;
      m[k] + Total(m - {k})
  }

  /** The total does not depend on the order in which the keys are summed. */
  lemma {:induction false} TotalRemove<K>(m: map<K, int>, k: K)
    requires k in m
    ensures Total(m) == m[k] + Total(m - {k})
    decreases |m|
  {
    assert m != map[];
    var first :| first in m && Total(m) == m[first] + Total(m - {first});
    if first != k {
      TotalRemove(m - {first}, k);
      TotalRemove(m - {k}, first);
      assert m - {first} - {k} == m - {k} - {first};
    }
  }

  lemma TotalInsert<K>(m: map<K, int>, k: K, v: int)
    requires k !in m
    ensures Total(m[k := v]) == v + Total(m)
  {
    TotalRemove(m[k := v], k);
    assert m[k := v] - {k} == m;
  }

  lemma RemoveFromUnion<K>(m: map<K, int>, n: map<K, int>, k: K)
    requires k in m && k !in n
    ensures (m + n) - {k} == (m - {k}) + n
  {
  }

  lemma CountDisjointUnion<K>(m: map<K, int>, n: map<K, int>)
    requires m.Keys !! n.Keys
    ensures |m + n| == |m| + |n|
  {
    assert (m + n).Keys == m.Keys + n.Keys;
    assert |m.Keys + n.Keys| == |m.Keys| + |n.Keys|;
  }

  lemma {:induction false} TotalDisjointUnion<K>(m: map<K, int>, n: map<K, int>)
    requires m.Keys !! n.Keys
    ensures Total(m + n) == Total(m) + Total(n)
    decreases |m|
  {
    if m == map[] {
      assert m + n == n;
    } else {
      var k :| k in m;
      RemoveFromUnion(m, n, k);
      TotalDisjointUnion(m - {k}, n);
      TotalRemove(m, k);
      var all := m + n;
      assert k in all && all[k] == m[k];
      TotalRemove(all, k);
    }
  }

  /** Renaming keys one-to-one keeps both the number of entries and their sum. */
  lemma {:induction false} TotalRekey<K(!new), L>(m: map<K, int>, n: map<L, int>, f: K -> L)
    requires forall k, k' :: k in m && k' in m && f(k) == f(k') ==> k == k'
    requires n.Keys == set k | k in m :: f(k)
    requires forall k :: k in m ==> f(k) in n && n[f(k)] == m[k]
    ensures Total(n) == Total(m)
    ensures |n| == |m|
    decreases |m|
  {
    if m == map[] {
      assert n == map[];
    } else {
      var k :| k in m;
      var m', n' := m - {k}, n - {f(k)};
      forall j | j in m'
        ensures f(j) in n' && n'[f(j)] == m'[j]
      {
        assert f(j) != f(k);
      }
      assert n'.Keys == set j | j in m' :: f(j);
      TotalRekey(m', n', f);
      TotalRemove(m, k);
      TotalRemove(n, f(k));
    }
  }

  lemma {:induction false} TotalNonNegative<K>(m: map<K, int>)
    requires forall k :: k in m ==> m[k] >= 0
    ensures Total(m) >= 0
    decreases |m|
  {
    if m != map[] {
      var k :| k in m;
      TotalNonNegative(m - {k});
      TotalRemove(m, k);
    }
  }
}
