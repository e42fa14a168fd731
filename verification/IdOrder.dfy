/** Node ids in ascending order: what Python's `sorted` gives for a set of integers. */
module IdOrder {

  ghost predicate Ascending(ids: seq<int>)
  {
    forall i, j | 0 <= i < j < |ids| :: ids[i] < ids[j]
  }

  ghost predicate Lists(ids: seq<int>, members: set<int>)
  {
    forall id :: id in ids <==> id in members
  }

  lemma SomeMember<T>(members: set<T>) returns (x: T)
    requires members != {}
    ensures x in members
  {
    x :| x in members;
  }

  lemma LeastExists(members: set<int>)
    requires members != {}
    ensures exists m :: m in members && forall x | x in members :: m <= x
  {
    var m := SomeMember(members);
    var others := members - {m};
    assert members == others + {m};
    if others == {} {
      assert members == {m};
    } else {
      LeastExists(others);
      var rest :| rest in others && forall x | x in others :: rest <= x;
      var least := if m < rest then m else rest;
      assert least in members && forall x | x in members :: least <= x;
    }
  }

  function Least(members: set<int>): (m: int)
    requires members != {}
    ensures m in members && forall x | x in members :: m <= x
  {
    LeastExists(members);
    var m :| m in members && forall x | x in members :: m <= x;
    m
  }

  function Sorted(members: set<int>): (ids: seq<int>)
    ensures Ascending(ids) && Lists(ids, members)
    ensures |ids| == |members|
    ensures forall k | 0 <= k < |ids| :: ids[k] in members
  {
    if members == {} then []
    else
      var m := Least(members);
      assert m in members;
      [m] + Sorted(members - {m})
  }

  /** Order and membership fix the list, so any correct sort gives `Sorted`. */
  lemma {:induction false} AscendingUnique(a: seq<int>, b: seq<int>)
    requires Ascending(a) && Ascending(b)
    requires forall id :: id in a <==> id in b
    ensures a == b
  {
    if a == [] {
      assert forall k | 0 <= k < |b| :: b[k] in a;
      assert |b| == 0;
    } else {
      assert a[0] in a;
      assert a[0] in b;
      assert b != [];
      assert b[0] in b;
      assert b[0] in a;
      assert a[0] == b[0];
      forall id ensures id in a[1..] <==> id in b[1..] {
        assert id in a[1..] <==> id in a && id != a[0];
        assert id in b[1..] <==> id in b && id != b[0];
      }
      AscendingUnique(a[1..], b[1..]);
      assert a == [a[0]] + a[1..] && b == [b[0]] + b[1..];
    }
  }

  function IndexOf(ids: seq<int>, id: int): (k: nat)
    requires id in ids
    ensures k < |ids| && ids[k] == id
  {
    if ids[0] == id then 0 else 1 + IndexOf(ids[1..], id)
  }
}
