/**
  Sorting a finite set of integers into ascending order without duplicates,
  as `sorted(series.unique())` does for the season labels, and taking the
  largest element, as `series.max()` does for the week numbers.
 */
module Ordering {

  predicate StrictlyIncreasing(s: seq<int>)
  {
    forall i, j :: 0 <= i < j < |s| ==> s[i] < s[j]
  }

  /** The least element of a non-empty finite set. */
  function SetMin(s: set<int>): (m: int)
    requires s != {}
    ensures m in s
    ensures forall x | x in s :: m <= x
  {
    MinExists(s);
    var m :| m in s && forall x | x in s :: m <= x;
    m
  }

  lemma {:induction false} MinExists(s: set<int>)
    requires s != {}
    ensures exists m :: m in s && forall x | x in s :: m <= x
  {
    var y := PickOne(s);
    if s != {y} {
      MinExists(s - {y});
      var m :| m in s - {y} && forall x | x in s - {y} :: m <= x;
      var least := if y < m then y else m;
      forall x | x in s ensures least <= x {
        if x != y { assert x in s - {y}; }
      }
      assert least in s;
    } else {
      assert forall x | x in s :: y <= x;
    }
  }

  /** Some element of a non-empty set. */
  lemma PickOne<T>(s: set<T>) returns (y: T)
    requires s != {}
    ensures y in s
  {
    y :| y in s;
  }

  /** The elements of a finite set in ascending order, each once. */
  function SortSet(s: set<int>): (r: seq<int>)
    ensures StrictlyIncreasing(r)
    ensures forall x :: x in r <==> x in s
    ensures |r| == |s|
    decreases |s|
  {
    if s == {} then []
    else
      var m := SetMin(s);
      var rest := SortSet(s - {m});
      assert forall x | x in rest :: m < x;
      [m] + rest
  }

  /** The largest element of a non-empty finite set. */
  function SetMax(s: set<int>): (m: int)
    requires s != {}
    ensures m in s
    ensures forall x | x in s :: x <= m
  {
    var sorted := SortSet(s);
    var m := sorted[|sorted| - 1];
    forall x | x in s ensures x <= m {
      var i :| 0 <= i < |sorted| && sorted[i] == x;
    }
    m
  }

  /** A strictly increasing sequence whose only value is x is [x]. */
  lemma OnlyElement(s: seq<int>, x: int)
    requires StrictlyIncreasing(s)
    requires forall y :: y in s <==> y == x
    ensures s == [x]
  {
    assert x in s;
    assert |s| >= 2 ==> s[0] < s[1];
    assert |s| >= 2 ==> s[0] == x && s[1] == x by {
      if |s| >= 2 {
        assert s[0] in s && s[1] in s;
      }
    }
    assert s[0] in s;
  }
}
