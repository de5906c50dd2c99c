/** Removing an element of a list by moving the last one in its place: how tables, rules and transfers are removed. */
module SwapLists {

  ghost predicate AreDistinct<T, K>(s: seq<T>, key: T -> K)
  {
    forall i, j :: 0 <= i < j < |s| ==> key(s[i]) != key(s[j])
  }

  function Shorter<T>(s: seq<T>, idx: nat): seq<T>
    requires idx < |s|
  {
    s[idx := s[|s| - 1]][..|s| - 1]
  }

  /** Every element but the removed one is still there, once. */
  lemma SwapRemoved<T(!new), K>(s: seq<T>, key: T -> K, idx: nat)
    requires AreDistinct(s, key) && idx < |s|
    ensures AreDistinct(Shorter(s, idx), key)
    ensures forall x :: x in Shorter(s, idx) <==> x in s && key(x) != key(s[idx])
  {
    var last, shorter := |s| - 1, Shorter(s, idx);
    forall x
      ensures x in shorter <==> x in s && key(x) != key(s[idx])
    {
      if x in s && key(x) != key(s[idx]) {
        var i :| 0 <= i < |s| && s[i] == x;
        assert shorter[if i == last then idx else i] == x;
      }
      if x in shorter {
        var i :| 0 <= i < |shorter| && shorter[i] == x;
        assert x == s[if i == idx then last else i];
      }
    }
  }
}
