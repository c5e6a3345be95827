/**
 * Ascending lists of naturals. Python's `sorted(set)`, which the timeline uses for its
 * row times and the windowing step for its kept row indices, and the ascending list of
 * positions of a sequence's entries that satisfy a test, as a filter keeps them.
 */
module Sorting {

  /** Each element is smaller than every later one: ascending and duplicate-free. */
  predicate StrictlyAscending(s: seq<nat>) {
    forall i, j :: 0 <= i < j < |s| ==> s[i] < s[j]
  }

  /** Every non-empty set of naturals has a least element. */
  lemma MinExists(s: set<nat>)
    requires s != {}
    ensures exists m :: m in s && forall y :: y in s ==> m <= y
  {
    var x :| x in s;
    MinAtMost(s, x);
  }

  /** A set of naturals holding `x` has a least element, found by descending from `x`. */
  lemma {:induction false} MinAtMost(s: set<nat>, x: nat)
    requires x in s
    ensures exists m :: m in s && forall y :: y in s ==> m <= y
    decreases x
  {
    if forall y :: y in s ==> x <= y {
      assert x in s;
    } else {
      var y :| y in s && y < x;
      MinAtMost(s, y);
    }
  }

  /** The least element of a non-empty set. */
  function Min(s: set<nat>): (m: nat)
    requires s != {}
    ensures m in s && forall y :: y in s ==> m <= y
  {
    MinExists(s);
    var m :| m in s && forall y :: y in s ==> m <= y;
    m
  }

  /** The elements of `s` in ascending order. */
  function SetToSorted(s: set<nat>): (r: seq<nat>)
    ensures StrictlyAscending(r)
    ensures forall x :: x in r <==> x in s
    ensures |r| == |s|
    decreases |s|
  {
    if s == {} then []
    else
      var m := Min(s);
      var rest := SetToSorted(s - {m});
      assert forall x :: x in rest ==> m < x;
      [m] + rest
  }

  /** The positions of the entries of `xs` that pass `keep`, ascending, and no others. */
  function Positions<T>(xs: seq<T>, keep: T -> bool): (p: seq<nat>)
    ensures StrictlyAscending(p)
    ensures forall k :: 0 <= k < |p| ==> p[k] < |xs| && keep(xs[p[k]])
    ensures forall i :: 0 <= i < |xs| && keep(xs[i]) ==> i in p
    ensures |p| <= |xs|
  {
    if |xs| == 0 then []
    else
      var n := |xs| - 1;
      var earlier := Positions(xs[..n], keep);
      assert forall k :: 0 <= k < |earlier| ==> xs[earlier[k]] == xs[..n][earlier[k]];
      assert forall i :: 0 <= i < n ==> xs[i] == xs[..n][i];
      if keep(xs[n]) then earlier + [n] else earlier
  }

  /** Lists with the same members are both empty or both not. */
  lemma SameMembersEmpty(a: seq<nat>, b: seq<nat>)
    requires forall x :: x in a <==> x in b
    ensures |a| == 0 <==> |b| == 0
  {
    if |a| > 0 {
      assert a[0] in b;
    }
    if |b| > 0 {
      assert b[0] in a;
    }
  }

  /** A set has exactly one strictly ascending listing. */
  lemma {:induction false} AscendingUnique(a: seq<nat>, b: seq<nat>)
    requires StrictlyAscending(a) && StrictlyAscending(b)
    requires forall x :: x in a <==> x in b
    ensures a == b
    decreases |a|
  {
    SameMembersEmpty(a, b);
    if |a| > 0 {
      assert a[0] in b && b[0] in a;
      assert a[0] == b[0];
      forall x
        ensures x in a[1..] <==> x in b[1..]
      {
        if x in a[1..] { assert x in b && x != b[0]; }
        if x in b[1..] { assert x in a && x != a[0]; }
      }
      AscendingUnique(a[1..], b[1..]);
    }
  }
}
