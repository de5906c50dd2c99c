/** Evicting the oldest entries of a bounded map, as the defender, the rate limiter and the caches do. */
module Eviction {

  datatype KV = KV(key: string, value: int)

  ghost predicate IsSorted(list: seq<KV>)
  {
    forall i, j :: 0 <= i < j < |list| ==> list[i].value <= list[j].value
  }

  /** The keys of a map, each once, by increasing value. */
  ghost predicate IsOldestFirst(values: map<string, int>, list: seq<KV>)
  {
    && IsSorted(list) && IsList(values, list)
  }

  /** The entries of a map, each once, in some order. */
  ghost predicate IsList(values: map<string, int>, list: seq<KV>)
  {
    && |list| == |values|
    && (forall e <- list :: e.key in values && values[e.key] == e.value)
    && (forall i, j :: 0 <= i < j < |list| ==> list[i].key != list[j].key)
  }

  function KeysOf(list: seq<KV>): (keys: set<string>)
  {
    set e <- list :: e.key
  }

  /** Exactly n entries are evicted, and none of them is later than a survivor. */
  ghost predicate AreOldest(values: map<string, int>, evicted: set<string>, n: int)
  {
    && evicted <= values.Keys && |evicted| == n
    && forall a, b :: a in evicted && b in values && b !in evicted ==> values[a] <= values[b]
  }

  lemma {:induction false} KeysCount(list: seq<KV>)
    requires forall i, j :: 0 <= i < j < |list| ==> list[i].key != list[j].key
    ensures |KeysOf(list)| == |list|
  {
    if list != [] {
      var init, last := list[..|list| - 1], list[|list| - 1];
      KeysCount(init);
      assert KeysOf(list) == KeysOf(init) + {last.key} by {
        assert list == init + [last];
      }
      assert last.key !in KeysOf(init);
    }
  }

  lemma SameSize(a: set<string>, b: set<string>)
    requires a <= b && |a| == |b|
    ensures a == b
  {
    assert b == a + (b - a);
    assert |b - a| == 0;
  }

  lemma AllKeys(values: map<string, int>, list: seq<KV>)
    requires IsList(values, list)
    ensures KeysOf(list) == values.Keys
  {
    KeysCount(list);
    SameSize(KeysOf(list), values.Keys);
  }

  /** The first entries of the sorted list are the oldest ones. */
  lemma PrefixIsOldest(values: map<string, int>, list: seq<KV>, n: nat)
    requires IsOldestFirst(values, list) && n <= |list|
    ensures AreOldest(values, KeysOf(list[..n]), n)
  {
    KeysCount(list[..n]);
    AllKeys(values, list);
    forall a, b | a in KeysOf(list[..n]) && b in values && b !in KeysOf(list[..n])
      ensures values[a] <= values[b]
    {
      var i :| 0 <= i < n && list[i].key == a;
      var e :| e in list && e.key == b;
      var j :| 0 <= j < |list| && list[j] == e;
      if j < n {
        assert list[..n][j] == e;
      }
    }
  }

  lemma SameCount<V>(m: map<string, V>, values: map<string, int>)
    requires values.Keys == m.Keys
    ensures |values| == |m|
  {
    assert |values| == |values.Keys| && |m| == |m.Keys|;
  }

  lemma ListLength(values: map<string, int>, list: seq<KV>)
    requires IsOldestFirst(values, list)
    ensures |list| == |values|
  {
  }

  lemma Extended(list: seq<KV>, i: nat)
    requires i < |list|
    ensures KeysOf(list[..i + 1]) == KeysOf(list[..i]) + {list[i].key}
  {
    assert list[..i + 1] == list[..i] + [list[i]];
  }

  /** Lists the entries of a map and sorts them by value. */
  method SortedByValue(values: map<string, int>) returns (list: seq<KV>)
    ensures IsOldestFirst(values, list)
  {
    list := [];
    var rest := values.Keys;
    while rest != {}
      invariant rest <= values.Keys && |list| + |rest| == |values|
      invariant forall e <- list :: e.key in values && e.key !in rest && values[e.key] == e.value
      invariant forall i, j :: 0 <= i < j < |list| ==> list[i].key != list[j].key
      decreases rest
    {
      var k :| k in rest;
      list, rest := list + [KV(k, values[k])], rest - {k};
    }
    list := Sort(values, list);
  }

  method Sort(ghost values: map<string, int>, list: seq<KV>) returns (sorted: seq<KV>)
    requires IsList(values, list)
    ensures IsOldestFirst(values, sorted)
  {
    hide IsSorted, IsList;
    sorted := [];
    ArrangedNone(list);
    for i := 0 to |list|
      invariant IsSorted(sorted) && IsArranged(list[..i], sorted)
    {
      var at := Place(sorted, list[i].value);
      InsertKeeps(list[..i], sorted, at, list[i]);
      assert list[..i + 1] == list[..i] + [list[i]];
      sorted := sorted[..at] + [list[i]] + sorted[at..];
    }
    assert list[..|list|] == list;
    ArrangedIsList(values, list, sorted);
  }

  ghost predicate IsArranged(list: seq<KV>, sorted: seq<KV>)
  {
    multiset(list) == multiset(sorted)
  }

  lemma ArrangedNone(list: seq<KV>)
    ensures IsSorted([]) && IsArranged(list[..0], [])
  {
  }

  method Place(sorted: seq<KV>, value: int) returns (at: nat)
    requires IsSorted(sorted)
    ensures at <= |sorted|
    ensures forall j :: 0 <= j < at ==> sorted[j].value <= value
    ensures forall j :: at <= j < |sorted| ==> value < sorted[j].value
  {
    at := 0;
    while at < |sorted| && sorted[at].value <= value
      invariant 0 <= at <= |sorted| && forall j :: 0 <= j < at ==> sorted[j].value <= value
    {
      at := at + 1;
    }
  }

  lemma InsertKeeps(list: seq<KV>, sorted: seq<KV>, at: nat, e: KV)
    requires IsSorted(sorted) && IsArranged(list, sorted) && at <= |sorted|
    requires forall j :: 0 <= j < at ==> sorted[j].value <= e.value
    requires forall j :: at <= j < |sorted| ==> e.value < sorted[j].value
    ensures var longer := sorted[..at] + [e] + sorted[at..];
            IsSorted(longer) && IsArranged(list + [e], longer)
  {
    assert sorted == sorted[..at] + sorted[at..];
  }

  lemma ArrangedIsList(values: map<string, int>, list: seq<KV>, sorted: seq<KV>)
    requires IsList(values, list) && IsArranged(list, sorted)
    ensures IsList(values, sorted)
  {
    assert |sorted| == |multiset(sorted)| == |list|;
    forall e | e in sorted
      ensures e in list
    {
      assert e in multiset(sorted);
    }
    forall i, j | 0 <= i < j < |sorted|
      ensures sorted[i].key != sorted[j].key
    {
      if sorted[i].key == sorted[j].key {
        assert sorted[i] == sorted[j];
        TwiceIn(sorted, i, j);
        OnceIn(list, sorted[i]);
      }
    }
  }

  lemma TwiceIn(s: seq<KV>, i: nat, j: nat)
    requires i < j < |s| && s[i] == s[j]
    ensures multiset(s)[s[i]] >= 2
  {
    assert s == s[..j] + [s[j]] + s[j + 1..];
    assert s[i] in s[..j];
  }

  lemma {:induction false} OnceIn(list: seq<KV>, e: KV)
    requires forall i, j :: 0 <= i < j < |list| ==> list[i].key != list[j].key
    ensures multiset(list)[e] <= 1
  {
    if list != [] {
      var init, last := list[..|list| - 1], list[|list| - 1];
      assert list == init + [last];
      OnceIn(init, e);
      if e == last {
        assert e !in init;
      }
    }
  }

  lemma NoKeys(list: seq<KV>)
    ensures KeysOf(list[..0]) == {}
  {
  }
}
