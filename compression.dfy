/**
 * Coordinate compression: in-place removal of adjacent duplicates from the
 * sorted coordinate list, and binary search for a coordinate's index.
 */
module Compression {
  import opened Sorting

  /** `s` is in strictly increasing order. */
  ghost predicate StrictlyIncreasing(s: seq<int>)
  {
    forall i, j :: 0 <= i < j < |s| ==> s[i] < s[j]
  }

  /** Index of the first occurrence of `v` in `s`, or -1 when `v` does not occur. */
  function IndexOf(s: seq<int>, v: int): (i: int)
    ensures -1 <= i < |s|
    ensures i >= 0 ==> s[i] == v && v !in s[..i]
    ensures i == -1 <==> v !in s
  {
    if |s| == 0 then -1
    else if s[0] == v then 0
    else
      var rest := IndexOf(s[1..], v);
      assert s == [s[0]] + s[1..];
      if rest < 0 then -1 else rest + 1
  }

  /** In a strictly increasing sequence every value sits at its `IndexOf`. */
  lemma IndexOfIncreasing(s: seq<int>, j: nat)
    requires StrictlyIncreasing(s) && j < |s|
    ensures IndexOf(s, s[j]) == j
  {
  }

  /**
   * Two strictly increasing sequences with the same elements are equal: the
   * compressed list is determined by the set of coordinates alone.
   */
  lemma {:induction false} IncreasingUnique(s: seq<int>, t: seq<int>)
    requires StrictlyIncreasing(s) && StrictlyIncreasing(t)
    requires forall x :: x in s <==> x in t
    ensures s == t
  {
    if |s| > 0 {
      assert s[0] in s;
    }
    if |t| > 0 {
      assert t[0] in t;
    }
    if |s| > 0 && |t| > 0 {
      // The first elements are both the smallest element.
      var i :| 0 <= i < |t| && t[i] == s[0];
      var j :| 0 <= j < |s| && s[j] == t[0];
      assert s[0] <= s[j] && t[0] <= t[i];
      assert s[0] == t[0];
      forall x
        ensures x in s[1..] <==> x in t[1..]
      {
        if x in s[1..] {
          var k :| 1 <= k < |s| && s[k] == x;
          assert x in t;
          assert x != t[0];
        }
        if x in t[1..] {
          var k :| 1 <= k < |t| && t[k] == x;
          assert x in s;
          assert x != s[0];
        }
      }
      IncreasingUnique(s[1..], t[1..]);
      assert s == [s[0]] + s[1..] && t == [t[0]] + t[1..];
    }
  }

  /**
   * Compacts the sorted prefix a[..n] in place: the returned `k` leaves
   * a[..k] strictly increasing with exactly the values of the original
   * prefix; cells from n on are untouched. An empty prefix gives 0.
   */
  method RemoveDuplicates(a: array<int>, n: nat) returns (k: nat)
    requires n <= a.Length && Sorted(a[..n])
    modifies a
    ensures k <= n && (n > 0 ==> k >= 1)
    ensures StrictlyIncreasing(a[..k])
    ensures forall x :: x in a[..k] <==> x in old(a[..n])
    ensures forall j :: n <= j < a.Length ==> a[j] == old(a[j])
  {
    if n == 0 {
      return 0;
    }
    ghost var orig := a[..];
    var newSize := 1;
    assert orig[..1] == [a[0]] && a[..1] == [a[0]];
    for i := 1 to n
      invariant 1 <= newSize <= i
      invariant StrictlyIncreasing(a[..newSize])
      invariant a[newSize - 1] == orig[i - 1]
      invariant forall x :: x in a[..newSize] <==> x in orig[..i]
      invariant forall j :: i <= j < a.Length ==> a[j] == orig[j]
    {
      assert orig[i - 1] <= orig[i] by {
        assert orig[i - 1] == orig[..n][i - 1] && orig[i] == orig[..n][i];
      }
      assert orig[..i + 1] == orig[..i] + [orig[i]];
      if a[i] != a[newSize - 1] {
        ghost var kept := a[..newSize];
        a[newSize] := a[i];
        newSize := newSize + 1;
        assert a[..newSize] == kept + [orig[i]];
      }
    }
    k := newSize;
    assert orig[..n] == old(a[..n]);
  }

  /**
   * Binary search over the strictly increasing prefix a[..n]: the index of
   * `value`, or -1 when it is not among the first n cells.
   */
  method FindIndex(a: array<int>, n: nat, value: int) returns (r: int)
    requires n <= a.Length && StrictlyIncreasing(a[..n])
    ensures r == IndexOf(a[..n], value)
  {
    var low, high := 0, n - 1;
    while low <= high
      invariant 0 <= low <= high + 1 <= n
      invariant forall k :: 0 <= k < low ==> a[k] < value
      invariant forall k :: high < k < n ==> a[k] > value
    {
      var mid := (low + high) / 2;
      if a[mid] == value {
        assert a[..n][mid] == value;
        IndexOfIncreasing(a[..n], mid);
        return mid;
      } else if a[mid] < value {
        assert forall k :: 0 <= k < mid ==> a[k] < a[mid] by {
          assert forall k :: 0 <= k < mid ==> a[..n][k] < a[..n][mid];
        }
        low := mid + 1;
      } else {
        assert forall k :: mid < k < n ==> a[k] > a[mid] by {
          assert forall k :: mid < k < n ==> a[..n][k] > a[..n][mid];
        }
        high := mid - 1;
      }
    }
    assert value !in a[..n];
    return -1;
  }
}
