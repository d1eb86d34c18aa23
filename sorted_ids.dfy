/** Iterating a set of class IDs in ascending order. */
module SortedIds {

  /** A set that is not empty has an element. */
  lemma NonEmptyHasElement(keys: set<int>)
    requires keys != {}
    ensures exists k :: k in keys
  {
    if forall k :: k !in keys {
      assert false;
    }
  }

  /** A non-empty set of IDs has a least element. */
  lemma {:induction false} LeastExists(keys: set<int>)
    requires keys != {}
    ensures exists m :: m in keys && forall k :: k in keys ==> m <= k
    decreases keys
  {
    NonEmptyHasElement(keys);
    var k :| k in keys;
    var rest := keys - {k};
    var m := k;
    if rest != {} {
      LeastExists(rest);
      var r :| r in rest && forall j :: j in rest ==> r <= j;
      m := if k < r then k else r;
    }
    forall j | j in keys ensures m <= j {
      if j != k {
        assert j in rest;
      }
    }
    assert m in keys;
  }

  /** The least element of a non-empty set of IDs. */
  function Least(keys: set<int>): (m: int)
    requires keys != {}
    ensures m in keys && forall k :: k in keys ==> m <= k
  {
    LeastExists(keys);
    var m :| m in keys && forall k :: k in keys ==> m <= k;
    m
  }

  /** The IDs of a set in ascending order, each once. */
  function Ascending(keys: set<int>): (ids: seq<int>)
    ensures forall id :: id in ids <==> id in keys
    ensures forall i, j :: 0 <= i < j < |ids| ==> ids[i] < ids[j]
    decreases keys
  {
    if keys == {} then []
    else
      var m := Least(keys);
      [m] + Ascending(keys - {m})
  }

  /** A strictly ascending sequence holding exactly the IDs of a set is
      Ascending of that set: the ascending order of a set is unique. */
  lemma {:induction false} AscendingUnique(keys: set<int>, ids: seq<int>)
    requires forall id :: id in ids <==> id in keys
    requires forall i, j :: 0 <= i < j < |ids| ==> ids[i] < ids[j]
    ensures ids == Ascending(keys)
    decreases keys
  {
    if ids == [] {
      assert forall k :: k !in keys;
      assert keys == {};
    } else {
      var m := ids[0];
      assert m in keys;
      forall k | k in keys ensures m <= k {
        var j :| 0 <= j < |ids| && ids[j] == k;
      }
      assert Least(keys) == m;
      var rest := keys - {m};
      forall id ensures id in ids[1..] <==> id in rest {
        if id in ids[1..] {
          var j :| 1 <= j < |ids| && ids[j] == id;
        }
      }
      AscendingUnique(rest, ids[1..]);
      assert ids == [m] + ids[1..];
    }
  }
}
