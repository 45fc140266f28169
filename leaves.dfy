/**
 * The leaf set of the planner is a Python list of nodes, here a sequence of node
 * indices.  This module models the two list operations the planner relies on,
 * `list.remove` (drop the first occurrence) and `max(list, key=...)` (the first
 * element with the largest key).
 */
module LeafSet {

  /** No index occurs twice. */
  ghost predicate Distinct(s: seq<nat>) {
    forall j, k :: 0 <= j < k < |s| ==> s[j] != s[k]
  }

  /** Python's `list.remove(x)` on a list that holds x: the first occurrence goes. */
  function RemoveFirst(s: seq<nat>, x: nat): (r: seq<nat>)
    ensures |r| <= |s|
  {
    if s == [] then []
    else if s[0] == x then s[1..]
    else [s[0]] + RemoveFirst(s[1..], x)
  }

  /** The position of the first occurrence of x. */
  ghost function FirstIndex(s: seq<nat>, x: nat): (k: nat)
    requires x in s
    ensures k < |s| && s[k] == x && x !in s[..k]
  {
    if s[0] == x then 0
    else
      var k := FirstIndex(s[1..], x);
      assert s[..k + 1] == [s[0]] + s[1..][..k];
      k + 1
  }

  /**
   * Removing an element that is in the list drops exactly one copy of it; removing
   * one that is not there changes nothing.
   */
  lemma {:induction false} RemoveFirstCount(s: seq<nat>, x: nat)
    ensures x in s ==> |RemoveFirst(s, x)| == |s| - 1 && multiset(RemoveFirst(s, x)) == multiset(s) - multiset{x}
    ensures x !in s ==> RemoveFirst(s, x) == s
  {
    if s != [] {
      RemoveFirstCount(s[1..], x);
      assert s == [s[0]] + s[1..];
    }
  }

  /** The copy removed is the first occurrence, and the other elements keep their order. */
  lemma {:induction false} RemoveFirstAt(s: seq<nat>, x: nat)
    requires x in s
    ensures RemoveFirst(s, x) == s[..FirstIndex(s, x)] + s[FirstIndex(s, x) + 1..]
  {
    if s[0] != x {
      var t := s[1..];
      assert x in t by {
        assert s == [s[0]] + t;
      }
      RemoveFirstAt(t, x);
      var k := FirstIndex(t, x);
      assert s[..k + 1] == [s[0]] + t[..k];
      assert s[k + 2..] == t[k + 1..];
    }
  }

  /**
   * On a list without repetitions, the removed element is gone for good, the rest
   * is still without repetitions, and exactly the other elements remain.
   */
  lemma RemoveFirstDistinct(s: seq<nat>, x: nat)
    requires Distinct(s)
    ensures Distinct(RemoveFirst(s, x))
    ensures forall y :: y in RemoveFirst(s, x) <==> y in s && y != x
  {
    RemoveFirstCount(s, x);
    var r := RemoveFirst(s, x);
    DistinctMultiset(s);
    forall y
      ensures y in r <==> y in s && y != x
    {
      assert y in r <==> multiset(r)[y] > 0;
      assert y in s <==> multiset(s)[y] > 0;
    }
    forall y | y in multiset(r)
      ensures multiset(r)[y] <= 1
    {
    }
    MultisetDistinct(r);
  }

  /** A list is without repetitions exactly when every count in its multiset is at most one. */
  lemma {:induction false} DistinctMultiset(s: seq<nat>)
    requires Distinct(s)
    ensures forall y :: multiset(s)[y] <= 1
  {
    if s != [] {
      assert s == [s[0]] + s[1..];
      assert Distinct(s[1..]) by {
        forall j, k | 0 <= j < k < |s[1..]|
          ensures s[1..][j] != s[1..][k]
        {
          assert s[1..][j] == s[j + 1] && s[1..][k] == s[k + 1];
        }
      }
      DistinctMultiset(s[1..]);
      assert s[0] !in s[1..];
    }
  }

  lemma {:induction false} MultisetDistinct(s: seq<nat>)
    requires forall y :: y in multiset(s) ==> multiset(s)[y] <= 1
    ensures Distinct(s)
  {
    if s != [] {
      assert s == [s[0]] + s[1..];
      var t := s[1..];
      assert multiset(s)[s[0]] == multiset(t)[s[0]] + 1;
      assert s[0] !in t;
      forall y | y in multiset(t)
        ensures multiset(t)[y] <= 1
      {
        assert multiset(s)[y] >= multiset(t)[y];
      }
      MultisetDistinct(t);
      forall j, k | 0 <= j < k < |s|
        ensures s[j] != s[k]
      {
        if j == 0 {
          assert s[k] == t[k - 1];
        } else {
          assert s[j] == t[j - 1] && s[k] == t[k - 1];
        }
      }
    }
  }

  /**
   * Python's `max(xs)` with the built-in tie-break: the position of the first
   * element with the largest value.
   */
  function FirstMax(us: seq<real>): (k: nat)
    requires |us| > 0
    ensures k < |us|
    ensures forall j :: 0 <= j < |us| ==> us[j] <= us[k]
    ensures forall j :: 0 <= j < k ==> us[j] < us[k]
  {
    if |us| == 1 then 0
    else
      var k0 := FirstMax(us[..|us| - 1]);
      assert forall j :: 0 <= j < |us| - 1 ==> us[..|us| - 1][j] == us[j];
      if us[|us| - 1] > us[k0] then |us| - 1 else k0
  }
}
