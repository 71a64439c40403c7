/** Ordered listing of a set of primary keys, the model of an SQL
    `ORDER BY` over one integer column. Rows with equal keys may come in any
    order, as SQLite leaves their order unspecified.
 */
module Ordering {

  /** `xs` is in non-decreasing order of `key`. */
  ghost predicate SortedBy(xs: seq<int>, key: int -> int) {
    forall i, j :: 0 <= i < j < |xs| ==> key(xs[i]) <= key(xs[j])
  }

  /** No element of `xs` occurs twice. */
  ghost predicate Distinct(xs: seq<int>) {
    forall i, j :: 0 <= i < j < |xs| ==> xs[i] != xs[j]
  }

  /** Insert `x` before the first element of `xs` whose key is not below its own. */
  function InsertBy(xs: seq<int>, x: int, key: int -> int): (r: seq<int>)
    ensures multiset(r) == multiset(xs) + multiset{x}
    ensures |r| == |xs| + 1
    decreases |xs|
  {
    if xs == [] || key(x) <= key(xs[0]) then [x] + xs
    else
      assert xs == [xs[0]] + xs[1..];
      [xs[0]] + InsertBy(xs[1..], x, key)
  }

  /** Inserting adds `x` and keeps every element already there. */
  lemma InsertByElements(xs: seq<int>, x: int, key: int -> int)
    ensures forall y :: y in InsertBy(xs, x, key) <==> y in xs || y == x
  {
    var r := InsertBy(xs, x, key);
    assert forall y :: y in r <==> y in multiset(r);
  }

  /** Inserting into a sorted list keeps it sorted. */
  lemma {:induction false} InsertBySorted(xs: seq<int>, x: int, key: int -> int)
    requires SortedBy(xs, key)
    ensures SortedBy(InsertBy(xs, x, key), key)
    decreases |xs|
  {
    if xs != [] && key(x) > key(xs[0]) {
      var tail := InsertBy(xs[1..], x, key);
      InsertBySorted(xs[1..], x, key);
      forall k | 0 <= k < |tail|
        ensures key(xs[0]) <= key(tail[k])
      {
        assert tail[k] in multiset(tail);
        if tail[k] != x {
          assert tail[k] in xs[1..];
        }
      }
    }
  }

  /** Inserting a new element into a list without repetitions keeps it so. */
  lemma {:induction false} InsertByDistinct(xs: seq<int>, x: int, key: int -> int)
    requires Distinct(xs) && x !in xs
    ensures Distinct(InsertBy(xs, x, key))
    decreases |xs|
  {
    if xs != [] && key(x) > key(xs[0]) {
      var tail := InsertBy(xs[1..], x, key);
      InsertByDistinct(xs[1..], x, key);
      assert xs[0] !in xs[1..];
      assert xs[0] !in multiset(tail);
    }
  }

  /** A non-empty set has a member. */
  lemma HasMember(s: set<int>)
    requires s != {}
    ensures exists y :: y in s
  {
    if forall y :: y !in s {
      assert false;
    }
  }

  /** Every key of `ids` exactly once, in non-decreasing order of `key`. */
  method SortBy(ids: set<int>, key: int -> int) returns (r: seq<int>)
    ensures SortedBy(r, key)
    ensures Distinct(r)
    ensures forall y :: y in r <==> y in ids
    ensures forall i :: 0 <= i < |r| ==> r[i] in ids
    ensures |r| == |ids|
  {
    r := [];
    var rest := ids;
    while rest != {}
      invariant rest <= ids
      invariant SortedBy(r, key)
      invariant Distinct(r)
      invariant forall y :: y in r <==> y in ids && y !in rest
      invariant |r| + |rest| == |ids|
      decreases |rest|
    {
      HasMember(rest);
      var x :| x in rest;
      InsertBySorted(r, x, key);
      InsertByDistinct(r, x, key);
      InsertByElements(r, x, key);
      r := InsertBy(r, x, key);
      rest := rest - {x};
    }
  }

  /** In a sorted list, an element whose key is strictly above every other
      element's key comes last. */
  lemma {:induction false} StrictMaximumIsLast(xs: seq<int>, x: int, key: int -> int)
    requires SortedBy(xs, key) && x in xs
    requires forall y :: y in xs && y != x ==> key(y) < key(x)
    ensures xs[|xs| - 1] == x
  {
    var i :| 0 <= i < |xs| && xs[i] == x;
    if xs[|xs| - 1] != x {
      assert false;
    }
  }

  /** A strictly decreasing list of n numbers, each within 1..n, is n, n-1, ..., 1. */
  lemma {:induction false} TightDescending(nums: seq<int>)
    requires forall i :: 0 <= i < |nums| ==> 1 <= nums[i] <= |nums|
    requires forall i, j :: 0 <= i < j < |nums| ==> nums[i] > nums[j]
    ensures forall i :: 0 <= i < |nums| ==> nums[i] == |nums| - i
  {
    forall i | 0 <= i < |nums|
      ensures nums[i] == |nums| - i
    {
      DescendingGap(nums, 0, i);
      DescendingGap(nums, i, |nums| - 1);
    }
  }

  /** In a strictly decreasing list, positions j - i apart differ by at least j - i. */
  lemma {:induction false} DescendingGap(nums: seq<int>, i: int, j: int)
    requires 0 <= i <= j < |nums|
    requires forall a, b :: 0 <= a < b < |nums| ==> nums[a] > nums[b]
    ensures nums[i] - nums[j] >= j - i
    decreases j - i
  {
    if i < j {
      DescendingGap(nums, i + 1, j);
    }
  }

  /** The largest member of a non-empty set. */
  function MaxOf(s: set<int>): (m: int)
    requires s != {}
    ensures m in s
    ensures forall x :: x in s ==> x <= m
  {
    MaxExists(s);
    var m :| m in s && forall x :: x in s ==> x <= m;
    m
  }

  /** A non-empty finite set of numbers has a largest member. */
  lemma {:induction false} MaxExists(s: set<int>)
    requires s != {}
    ensures exists m :: m in s && forall x :: x in s ==> x <= m
    decreases |s|
  {
    HasMember(s);
    var y :| y in s;
    var rest := s - {y};
    if rest == {} {
      forall x | x in s
        ensures x <= y
      {
        assert x !in rest;
      }
    } else {
      MaxExists(rest);
      var m :| m in rest && forall x :: x in rest ==> x <= m;
      var top := if y <= m then m else y;
      forall x | x in s
        ensures x <= top
      {
        if x != y {
          assert x in rest;
        }
      }
      assert top in s;
    }
  }
}
