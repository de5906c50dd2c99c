/** Removing keys from maps. */
module Maps {

  /** A map without some of its keys. */
  function Without<V>(m: map<string, V>, gone: set<string>): map<string, V>
  {
    map k | k in m && k !in gone :: m[k]
  }

  lemma WithoutKeys<V>(m: map<string, V>, gone: set<string>)
    ensures Without(m, gone).Keys == m.Keys - gone
    ensures |Without(m, gone)| <= |m|
    ensures gone <= m.Keys ==> |Without(m, gone)| == |m| - |gone|
  {
    var less := Without(m, gone);
    assert m.Keys == less.Keys + m.Keys * gone;
    assert |less| == |less.Keys| && |m| == |m.Keys|;
    if gone <= m.Keys {
      assert m.Keys * gone == gone;
    }
  }

  lemma WithoutValues<V>(m: map<string, V>, gone: set<string>)
    ensures forall k :: k in m && k !in gone ==> k in Without(m, gone) && Without(m, gone)[k] == m[k]
  {
  }

  lemma SizeWithout<V>(m: map<string, V>, gone: set<string>)
    ensures |Without(m, gone)| <= |m|
  {
    WithoutKeys(m, gone);
  }

  lemma WithoutNone<V>(m: map<string, V>, gone: set<string>)
    requires gone !! m.Keys
    ensures Without(m, gone) == m
  {
  }

  lemma WithoutMore<V>(m: map<string, V>, a: set<string>, b: set<string>)
    ensures Without(Without(m, a), b) == Without(m, a + b)
  {
  }

  lemma WithoutOne<V>(m: map<string, V>, k: string, v: V)
    ensures Without(m, {k})[k := v] == m[k := v]
  {
  }

  lemma SizeWith<V>(m: map<string, V>, k: string, v: V)
    ensures |m[k := v]| == |m| + (if k in m then 0 else 1)
  {
    assert m[k := v].Keys == m.Keys + {k};
    assert |m[k := v]| == |m.Keys + {k}|;
    if k in m {
      assert m.Keys + {k} == m.Keys;
    }
  }
}
