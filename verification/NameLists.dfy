/** Lists of names, as stored inside database records. */
module NameLists {

  ghost predicate Distinct(list: seq<string>)
  {
    forall i, j :: 0 <= i < j < |list| ==> list[i] != list[j]
  }

  /** The list without every occurrence of a name, in order. */
  function Dropped(list: seq<string>, name: string): seq<string>
  {
    if list == [] then []
    else if list[|list| - 1] == name then Dropped(list[..|list| - 1], name)
    else Dropped(list[..|list| - 1], name) + [list[|list| - 1]]
  }

  lemma {:induction false} DroppedMembers(list: seq<string>, name: string)
    ensures forall x :: x in Dropped(list, name) <==> x in list && x != name
    ensures Distinct(list) ==> Distinct(Dropped(list, name))
  {
    if list != [] {
      var init, last := list[..|list| - 1], list[|list| - 1];
      DroppedMembers(init, name);
      assert list == init + [last];
      if Distinct(list) {
        assert last !in init;
      }
    }
  }

  method RemoveName(list: seq<string>, name: string) returns (r: seq<string>)
    ensures r == Dropped(list, name)
  {
    r := [];
    for i := 0 to |list|
      invariant r == Dropped(list[..i], name)
    {
      assert list[..i + 1][..i] == list[..i];
      if list[i] != name {
        r := r + [list[i]];
      }
    }
    assert list[..|list|] == list;
  }

  lemma DistinctAppend(list: seq<string>, name: string)
    requires Distinct(list) && name !in list
    ensures Distinct(list + [name])
  {
  }

  lemma {:induction false} DroppedAbsent(list: seq<string>, name: string)
    requires name !in list
    ensures Dropped(list, name) == list
  {
    if list != [] {
      var init, last := list[..|list| - 1], list[|list| - 1];
      assert list == init + [last];
      DroppedAbsent(init, name);
    }
  }
}
