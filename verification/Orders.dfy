/** Orders of identifiers. */
module Orders {
  import opened Registry

  lemma NoneIsEmpty(ids: set<int>)
    ensures (forall id :: id !in ids) ==> ids == {}
  {
    if forall id :: id !in ids {
      assert ids == {};
    }
  }

  ghost function Least(ids: set<int>): (m: int)
    requires ids != {}
    ensures m in ids && forall id :: id in ids ==> m <= id
    decreases |ids|
  {
    NoneIsEmpty(ids);
    var id :| id in ids;
    var rest := ids - {id};
    if rest == {} then
      assert ids == {id};
      id
    else
      var m := Least(rest);
      assert forall k :: k in ids ==> k == id || k in rest;
      if id < m then id else m
  }

  predicate Ascends(r: seq<int>) {
    forall i, j :: 0 <= i < j < |r| ==> r[i] < r[j]
  }

  lemma AscendsCons(m: int, rest: seq<int>)
    requires Ascends(rest) && forall id :: id in rest ==> m < id
    ensures Ascends([m] + rest)
  {
    forall i, j | 0 <= i < j < |rest| + 1 ensures ([m] + rest)[i] < ([m] + rest)[j] {
      assert rest[j - 1] in rest;
    }
  }

  /** The identifiers in ascending order, which is the one in which the registry
      lists the matches of a name and a vendor. */
  ghost function Ascending(ids: set<int>): (r: seq<int>)
    ensures forall id :: id in r <==> id in ids
    ensures Ascends(r)
    decreases |ids|
  {
    if ids == {} then []
    else
      var m := Least(ids);
      var rest := Ascending(ids - {m});
      AscendsCons(m, rest);
      [m] + rest
  }

  lemma AscendingDistinct(ids: set<int>)
    ensures Distinct(Ascending(ids))
  {
    var r := Ascending(ids);
    assert Ascends(r);
  }

  /** An order that puts one identifier first. */
  ghost function FirstOf(ids: set<int>, first: int): (r: seq<int>)
    ensures forall id :: id in r <==> id in ids
    ensures Distinct(r)
    ensures first in ids ==> r != [] && r[0] == first
  {
    AscendingDistinct(ids - {first});
    AscendingDistinct(ids);
    if first in ids then [first] + Ascending(ids - {first}) else Ascending(ids)
  }
}
