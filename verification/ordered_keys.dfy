/** Listing a finite set of integer keys in ascending order, as an ordered map iterates them. */
module OrderedKeys {

  /** A finite set of integers that has an element has a least element. */
  lemma {:induction false} MinExists(s: set<int>)
    requires exists x :: x in s
    ensures exists x :: x in s && forall y :: y in s ==> x <= y
    decreases |s|
  {
    var pick :| pick in s;
    var rest := s - {pick};
    if exists z :: z in rest {
      MinExists(rest);
      var x :| x in rest && forall z :: z in rest ==> x <= z;
      var least := if pick < x then pick else x;
      forall z | z in s
        ensures least <= z
      {
        if z != pick {
          assert z in rest;
        }
      }
    } else {
      assert forall z :: z in s ==> z == pick;
    }
  }

  /** The least element of a set that has one. */
  function Least(s: set<int>): (x: int)
    requires exists y :: y in s
    ensures x in s && forall y :: y in s ==> x <= y
  {
    MinExists(s);
    var x :| x in s && forall y :: y in s ==> x <= y;
    x
  }

  /** The elements of `s` in ascending order, each exactly once. */
  function Ascending(s: set<int>): (r: seq<int>)
    ensures forall x :: x in r <==> x in s
    ensures forall i, j :: 0 <= i < j < |r| ==> r[i] < r[j]
    decreases |s|
  {
    if !exists x :: x in s then []
    else
      var x := Least(s);
      var rest := Ascending(s - {x});
      assert forall j :: 0 <= j < |rest| ==> x < rest[j];
      [x] + rest
  }
}
