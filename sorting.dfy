/**
 * The coordinate sort: Lomuto partition around the last element and a
 * recursive quicksort over the inclusive index range [low, high].
 */
module Sorting {

  /** `s` is in non-decreasing order. */
  ghost predicate Sorted(s: seq<int>)
  {
    forall i, j :: 0 <= i < j < |s| ==> s[i] <= s[j]
  }

  /** Every element of `s` is at most `bound`. */
  ghost predicate AllAtMost(s: seq<int>, bound: int)
  {
    forall k :: 0 <= k < |s| ==> s[k] <= bound
  }

  /** Every element of `s` is greater than `bound`. */
  ghost predicate AllAbove(s: seq<int>, bound: int)
  {
    forall k :: 0 <= k < |s| ==> s[k] > bound
  }

  /** Cells of `s` and `t` outside the inclusive range [lo, hi] are equal. */
  ghost predicate SameOutside(s: seq<int>, t: seq<int>, lo: int, hi: int)
  {
    |s| == |t| && forall k :: 0 <= k < |s| && (k < lo || hi < k) ==> s[k] == t[k]
  }

  /** Exchanges two cells of the array; the multiset of values stays the same. */
  method Swap(a: array<int>, i: nat, j: nat)
    requires i < a.Length && j < a.Length
    modifies a
    ensures a[i] == old(a[j]) && a[j] == old(a[i])
    ensures forall k :: 0 <= k < a.Length && k != i && k != j ==> a[k] == old(a[k])
    ensures multiset(a[..]) == old(multiset(a[..]))
  {
    var temp := a[i];
    a[i] := a[j];
    a[j] := temp;
  }

  /**
   * When two sequences have the same multiset and agree outside [lo, hi), the
   * slices [lo, hi) have the same multiset too.
   */
  lemma SliceMultiset(s: seq<int>, t: seq<int>, lo: nat, hi: nat)
    requires lo <= hi <= |s| && multiset(s) == multiset(t) && SameOutside(s, t, lo, hi - 1)
    ensures multiset(s[lo..hi]) == multiset(t[lo..hi])
  {
    assert s[..lo] == t[..lo] && s[hi..] == t[hi..];
    assert s == s[..lo] + s[lo..hi] + s[hi..];
    assert t == t[..lo] + t[lo..hi] + t[hi..];
    assert multiset(s) == multiset(s[..lo]) + multiset(s[lo..hi]) + multiset(s[hi..]);
    assert multiset(t) == multiset(t[..lo]) + multiset(t[lo..hi]) + multiset(t[hi..]);
    assert multiset(s[lo..hi]) == multiset(s) - multiset(s[..lo]) - multiset(s[hi..]);
  }

  /** A bound on every element carries over to any rearrangement. */
  lemma AtMostCarries(s: seq<int>, t: seq<int>, bound: int)
    requires multiset(s) == multiset(t) && AllAtMost(s, bound)
    ensures AllAtMost(t, bound)
  {
    forall k | 0 <= k < |t|
      ensures t[k] <= bound
    {
      assert t[k] in multiset(t);
    }
  }

  /** A strict lower bound on every element carries over to any rearrangement. */
  lemma AboveCarries(s: seq<int>, t: seq<int>, bound: int)
    requires multiset(s) == multiset(t) && AllAbove(s, bound)
    ensures AllAbove(t, bound)
  {
    forall k | 0 <= k < |t|
      ensures t[k] > bound
    {
      assert t[k] in multiset(t);
    }
  }

  /**
   * Lomuto partition of a[low..high] around the pivot a[high]: returns the
   * pivot's final index p, with everything before it in the range at most the
   * pivot and everything after it greater. Only the range is rearranged.
   */
  method Partition(a: array<int>, low: nat, high: nat) returns (p: nat)
    requires low <= high < a.Length
    modifies a
    ensures low <= p <= high && a[p] == old(a[high])
    ensures forall k :: low <= k < p ==> a[k] <= a[p]
    ensures forall k :: p < k <= high ==> a[k] > a[p]
    ensures multiset(a[..]) == old(multiset(a[..])) && SameOutside(a[..], old(a[..]), low, high)
  {
    var pivot := a[high];
    var i: int := low - 1;
    for j := low to high
      invariant low - 1 <= i < j
      invariant forall k :: low <= k <= i ==> a[k] <= pivot
      invariant forall k :: i < k < j ==> a[k] > pivot
      invariant a[high] == pivot
      invariant multiset(a[..]) == old(multiset(a[..])) && SameOutside(a[..], old(a[..]), low, high - 1)
    {
      if a[j] <= pivot {
        i := i + 1;
        Swap(a, i, j);
      }
    }
    p := i + 1;
    Swap(a, p, high);
  }

  /**
   * A range split at index p is sorted when both sides are sorted and the
   * element at p separates them.
   */
  lemma JoinSorted(s: seq<int>, low: nat, p: nat, high: nat)
    requires low <= p <= high < |s|
    requires forall i, j :: low <= i < j < p ==> s[i] <= s[j]
    requires forall i, j :: p < i < j <= high ==> s[i] <= s[j]
    requires forall k :: low <= k < p ==> s[k] <= s[p]
    requires forall k :: p < k <= high ==> s[k] > s[p]
    ensures Sorted(s[low..high + 1])
  {
  }

  /**
   * Sorts a[low..high] in place: the range ends up sorted, the array holds
   * the same multiset of values, and no cell outside the range changes. An
   * empty range (low = high + 1) is left alone.
   */
  method QuickSort(a: array<int>, low: nat, high: int)
    requires low <= high + 1 <= a.Length
    modifies a
    ensures Sorted(a[low..high + 1])
    ensures multiset(a[..]) == old(multiset(a[..])) && SameOutside(a[..], old(a[..]), low, high)
    decreases high - low
  {
    if low < high {
      var p := Partition(a, low, high);
      ghost var s1 := a[..];
      QuickSort(a, low, p as int - 1);
      ghost var s2 := a[..];
      QuickSort(a, p + 1, high);
      QuickSortJoin(old(a[..]), s1, s2, a[..], low, p, high);
    }
  }

  /**
   * The facts about the three stages of one quicksort call (after the
   * partition, after sorting the left part, after sorting the right part)
   * give the call's contract.
   */
  lemma QuickSortJoin(s0: seq<int>, s1: seq<int>, s2: seq<int>, s3: seq<int>, low: nat, p: nat, high: nat)
    requires low <= p <= high < |s0| == |s1| == |s2| == |s3|
    requires forall k :: low <= k < p ==> s1[k] <= s1[p]
    requires forall k :: p < k <= high ==> s1[k] > s1[p]
    requires multiset(s1) == multiset(s0) && SameOutside(s1, s0, low, high)
    requires Sorted(s2[low..p]) && multiset(s2) == multiset(s1) && SameOutside(s2, s1, low, p - 1)
    requires Sorted(s3[p + 1..high + 1]) && multiset(s3) == multiset(s2) && SameOutside(s3, s2, p + 1, high)
    ensures Sorted(s3[low..high + 1])
    ensures multiset(s3) == multiset(s0) && SameOutside(s3, s0, low, high)
  {
    var pivot := s1[p];
    SliceMultiset(s1, s2, low, p);
    assert AllAtMost(s1[low..p], pivot);
    AtMostCarries(s1[low..p], s2[low..p], pivot);
    SliceMultiset(s2, s3, p + 1, high + 1);
    assert AllAbove(s2[p + 1..high + 1], pivot);
    AboveCarries(s2[p + 1..high + 1], s3[p + 1..high + 1], pivot);
    forall k | low <= k < p
      ensures s3[k] <= pivot
    {
      assert s3[k] == s2[k] == s2[low..p][k - low];
    }
    forall k | p < k <= high
      ensures s3[k] > pivot
    {
      assert s3[k] == s3[p + 1..high + 1][k - p - 1];
    }
    forall i, j | low <= i < j < p
      ensures s3[i] <= s3[j]
    {
      assert s2[i] == s2[low..p][i - low] && s2[j] == s2[low..p][j - low];
    }
    forall i, j | p < i < j <= high
      ensures s3[i] <= s3[j]
    {
      assert s3[i] == s3[p + 1..high + 1][i - p - 1] && s3[j] == s3[p + 1..high + 1][j - p - 1];
    }
    JoinSorted(s3, low, p, high);
  }
}
