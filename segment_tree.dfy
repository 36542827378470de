/**
 * A segment tree over the leaves 0 .. n-1 with lazy range assignment. Nodes
 * are numbered from 1, the children of node k being 2k and 2k + 1; node k
 * covers an inclusive range [start, end] and splits it at the midpoint.
 * `tree[k]` is meant to hold the maximum over the range and `lazy[k]` a
 * pending assignment to the whole range, -1 meaning none.
 *
 * The contents of both arrays are described by functions over sequence
 * snapshots (`t` for tree, `z` for lazy), so that what a method does can be
 * stated by comparing the snapshots before and after.
 */
module SegmentTree {

  /** The "no pending assignment" marker. */
  const NoLazy := -1

  /** Split point of an inclusive range; both halves are non-empty when start < end. */
  function Mid(start: nat, end: nat): nat
  {
    (start + end) / 2
  }

  function Max(a: int, b: int): int
  {
    if a > b then a else b
  }

  /** Every node of the subtree of `node` over [start, end] is an index below `cap`. */
  ghost predicate Fits(node: nat, start: nat, end: nat, cap: nat)
    requires start <= end
    decreases end - start
  {
    && 1 <= node < cap
    && (start < end ==>
          2 * node + 1 < cap &&
          Fits(2 * node, start, Mid(start, end), cap) && Fits(2 * node + 1, Mid(start, end) + 1, end, cap))
  }

  /** Snapshots `t`, `z` of equal length in which the subtree fits. */
  ghost predicate Shaped(t: seq<int>, z: seq<int>, node: nat, start: nat, end: nat)
  {
    |z| == |t| && start <= end && Fits(node, start, end, |t|)
  }

  /**
   * Effective value of leaf i as seen from `node`: the pending assignment
   * nearest the top of the path to the leaf, or the leaf's own value when no
   * node on the path has one.
   */
  ghost function Eff(t: seq<int>, z: seq<int>, node: nat, start: nat, end: nat, i: nat): int
    requires Shaped(t, z, node, start, end) && start <= i <= end
    decreases end - start
  {
    if z[node] != NoLazy then z[node]
    else if start == end then t[node]
    else if i <= Mid(start, end) then Eff(t, z, 2 * node, start, Mid(start, end), i)
    else Eff(t, z, 2 * node + 1, Mid(start, end) + 1, end, i)
  }

  /**
   * The tree invariant: a node with a pending assignment holds that value;
   * an inner node without one holds the larger of its children's values and
   * both children satisfy the invariant.
   */
  ghost predicate Good(t: seq<int>, z: seq<int>, node: nat, start: nat, end: nat)
    requires Shaped(t, z, node, start, end)
    decreases end - start
  {
    if z[node] != NoLazy then t[node] == z[node]
    else
      start == end ||
      (&& t[node] == Max(t[2 * node], t[2 * node + 1])
       && Good(t, z, 2 * node, start, Mid(start, end))
       && Good(t, z, 2 * node + 1, Mid(start, end) + 1, end))
  }

  /** Leaf values of the whole tree over n leaves. */
  ghost function Leaves(t: seq<int>, z: seq<int>, n: nat): (hs: seq<int>)
    requires n >= 1 && Shaped(t, z, 1, 0, n - 1)
    ensures |hs| == n
  {
    seq(n, i => LeafAt(t, z, n, i))
  }

  /** Effective value of leaf i of the whole tree over n leaves (0 outside the tree). */
  ghost function LeafAt(t: seq<int>, z: seq<int>, n: nat, i: int): int
  {
    if n >= 1 && 0 <= i < n && Shaped(t, z, 1, 0, n - 1) then Eff(t, z, 1, 0, n - 1, i) else 0
  }

  /** `hs` with the inclusive range [l, r] set to h. */
  function Assign(hs: seq<int>, l: int, r: int, h: int): (out: seq<int>)
  {
    seq(|hs|, j requires 0 <= j < |hs| => if l <= j <= r then h else hs[j])
  }

  /** The leaf value after assigning h over [l, r]. */
  function Assigned(before: int, i: int, l: int, r: int, h: int): int
  {
    if l <= i <= r then h else before
  }

  /** Under the invariant, each node holds the maximum effective value of its range. */
  lemma {:induction false} GoodIsMax(t: seq<int>, z: seq<int>, node: nat, start: nat, end: nat)
    requires Shaped(t, z, node, start, end) && Good(t, z, node, start, end)
    ensures forall i :: start <= i <= end ==> Eff(t, z, node, start, end, i) <= t[node]
    ensures exists i :: start <= i <= end && Eff(t, z, node, start, end, i) == t[node]
    decreases end - start
  {
    if z[node] != NoLazy {
      assert Eff(t, z, node, start, end, start) == t[node];
    } else if start == end {
      assert Eff(t, z, node, start, end, start) == t[node];
    } else {
      var mid := Mid(start, end);
      GoodIsMax(t, z, 2 * node, start, mid);
      GoodIsMax(t, z, 2 * node + 1, mid + 1, end);
      if t[2 * node] > t[2 * node + 1] {
        var i :| start <= i <= mid && Eff(t, z, 2 * node, start, mid, i) == t[2 * node];
        assert Eff(t, z, node, start, end, i) == t[node];
      } else {
        var i :| mid + 1 <= i <= end && Eff(t, z, 2 * node + 1, mid + 1, end, i) == t[2 * node + 1];
        assert Eff(t, z, node, start, end, i) == t[node];
      }
    }
  }

  // ---------------------------------------------------------------------
  // Which indices lie in a subtree

  /** Node k lies in the subtree of node a: halving k (going to the parent) reaches a. */
  predicate IsDesc(a: nat, k: nat)
    decreases k
  {
    k == a || (k > a && IsDesc(a, k / 2))
  }

  lemma {:induction false} DescAtLeast(a: nat, k: nat)
    requires IsDesc(a, k)
    ensures a <= k
    decreases k
  {
    if k != a {
      DescAtLeast(a, k / 2);
    }
  }

  /** The subtree of a child lies inside the subtree of its parent. */
  lemma {:induction false} ChildDesc(a: nat, c: nat, k: nat)
    requires 1 <= a && (c == 2 * a || c == 2 * a + 1) && IsDesc(c, k)
    ensures IsDesc(a, k)
    decreases k
  {
    if k != c {
      ChildDesc(a, c, k / 2);
    }
  }

  /** The nodes above a common descendant form a chain. */
  lemma {:induction false} AncestorsChain(x: nat, y: nat, k: nat)
    requires IsDesc(x, k) && IsDesc(y, k) && x <= y
    ensures IsDesc(x, y)
    decreases k
  {
    if k != y {
      if k == x {
        DescAtLeast(y, k);
      } else {
        AncestorsChain(x, y, k / 2);
      }
    }
  }

  /** The subtrees of two siblings share no node, and neither holds the parent. */
  lemma SiblingsDisjoint(a: nat, k: nat)
    requires 1 <= a
    ensures !(IsDesc(2 * a, k) && IsDesc(2 * a + 1, k))
    ensures !IsDesc(2 * a, a) && !IsDesc(2 * a + 1, a)
  {
    if IsDesc(2 * a, k) && IsDesc(2 * a + 1, k) {
      AncestorsChain(2 * a, 2 * a + 1, k);
    }
  }

  /** Two snapshots agree on every node of the subtree of `node`. */
  ghost predicate AgreeBelow(t1: seq<int>, z1: seq<int>, t2: seq<int>, z2: seq<int>, node: nat)
  {
    && |t1| == |z1| == |t2| == |z2|
    && forall k {:trigger IsDesc(node, k)} :: 0 <= k < |t1| && IsDesc(node, k) ==> t1[k] == t2[k] && z1[k] == z2[k]
  }

  /** Two snapshots agree on every node outside the subtree of `node`. */
  ghost predicate OnlyBelow(t1: seq<int>, z1: seq<int>, t2: seq<int>, z2: seq<int>, node: nat)
  {
    && |t1| == |z1| == |t2| == |z2|
    && forall k {:trigger IsDesc(node, k)} :: 0 <= k < |t1| && !IsDesc(node, k) ==> t1[k] == t2[k] && z1[k] == z2[k]
  }

  /** Effective values and the invariant of a subtree depend only on its own nodes. */
  lemma {:induction false} SubtreeFrame(t1: seq<int>, z1: seq<int>, t2: seq<int>, z2: seq<int>, node: nat, start: nat, end: nat)
    requires Shaped(t1, z1, node, start, end) && AgreeBelow(t1, z1, t2, z2, node)
    ensures Shaped(t2, z2, node, start, end)
    ensures forall i :: start <= i <= end ==> Eff(t1, z1, node, start, end, i) == Eff(t2, z2, node, start, end, i)
    ensures Good(t1, z1, node, start, end) <==> Good(t2, z2, node, start, end)
    decreases end - start
  {
    assert IsDesc(node, node);
    if start < end {
      var mid := Mid(start, end);
      forall k | 0 <= k < |t1| && (IsDesc(2 * node, k) || IsDesc(2 * node + 1, k))
        ensures t1[k] == t2[k] && z1[k] == z2[k]
      {
        if IsDesc(2 * node, k) {
          ChildDesc(node, 2 * node, k);
        } else {
          ChildDesc(node, 2 * node + 1, k);
        }
      }
      SubtreeFrame(t1, z1, t2, z2, 2 * node, start, mid);
      SubtreeFrame(t1, z1, t2, z2, 2 * node + 1, mid + 1, end);
    }
  }

  /** A change inside one child's subtree leaves the other child's subtree and the parent alone. */
  lemma SiblingUntouched(t1: seq<int>, z1: seq<int>, t2: seq<int>, z2: seq<int>, node: nat, changed: nat, other: nat)
    requires 1 <= node && OnlyBelow(t1, z1, t2, z2, changed)
    requires (changed == 2 * node && other == 2 * node + 1) || (changed == 2 * node + 1 && other == 2 * node)
    ensures AgreeBelow(t1, z1, t2, z2, other)
    ensures node < |t1| ==> t1[node] == t2[node] && z1[node] == z2[node]
  {
    forall k | 0 <= k < |t1| && IsDesc(other, k)
      ensures t1[k] == t2[k] && z1[k] == z2[k]
    {
      SiblingsDisjoint(node, k);
    }
    SiblingsDisjoint(node, node);
  }

  /** A change confined to a child's subtree is confined to the parent's subtree. */
  lemma WidenOnlyBelow(t1: seq<int>, z1: seq<int>, t2: seq<int>, z2: seq<int>, node: nat, child: nat)
    requires 1 <= node && (child == 2 * node || child == 2 * node + 1) && OnlyBelow(t1, z1, t2, z2, child)
    ensures OnlyBelow(t1, z1, t2, z2, node)
  {
    forall k | 0 <= k < |t1| && !IsDesc(node, k)
      ensures t1[k] == t2[k] && z1[k] == z2[k]
    {
      if IsDesc(child, k) {
        ChildDesc(node, child, k);
      }
    }
  }

  // ---------------------------------------------------------------------
  // Pushing a pending assignment down

  /** Tree values after pushing node's pending assignment to its children l and r. */
  function PushedTree(t: seq<int>, z: seq<int>, node: nat, l: nat, r: nat): seq<int>
    requires |z| == |t| && node < |t| && l < |t| && r < |t|
  {
    if z[node] != NoLazy then t[l := z[node]][r := z[node]] else t
  }

  /** Pending assignments after pushing node's to its children l and r. */
  function PushedLazy(z: seq<int>, node: nat, l: nat, r: nat): seq<int>
    requires node < |z| && l < |z| && r < |z|
  {
    if z[node] != NoLazy then z[l := z[node]][r := z[node]][node := NoLazy] else z
  }

  /**
   * Pushing an inner node's pending assignment to its children keeps every
   * effective value and the invariant, touches only the node and its
   * children, and leaves the node without a pending assignment.
   */
  lemma PushKeepsLeaves(t: seq<int>, z: seq<int>, node: nat, start: nat, end: nat)
    requires Shaped(t, z, node, start, end) && start < end && Good(t, z, node, start, end)
    ensures var t', z' := PushedTree(t, z, node, 2 * node, 2 * node + 1), PushedLazy(z, node, 2 * node, 2 * node + 1);
      && Shaped(t', z', node, start, end)
      && z'[node] == NoLazy
      && Good(t', z', node, start, end)
      && OnlyBelow(t, z, t', z', node)
      && forall i :: start <= i <= end ==> Eff(t', z', node, start, end, i) == Eff(t, z, node, start, end, i)
  {
    var t', z' := PushedTree(t, z, node, 2 * node, 2 * node + 1), PushedLazy(z, node, 2 * node, 2 * node + 1);
    var mid := Mid(start, end);
    assert Fits(2 * node, start, mid, |t|) && Fits(2 * node + 1, mid + 1, end, |t|);
    assert IsDesc(node, 2 * node) && IsDesc(node, 2 * node + 1) by {
      assert (2 * node) / 2 == node && (2 * node + 1) / 2 == node;
    }
    if z[node] != NoLazy {
      var v := z[node];
      assert Good(t', z', 2 * node, start, mid) && Good(t', z', 2 * node + 1, mid + 1, end);
      forall i | start <= i <= end
        ensures Eff(t', z', node, start, end, i) == v
      {
        if i <= mid {
          assert Eff(t', z', 2 * node, start, mid, i) == v;
        } else {
          assert Eff(t', z', 2 * node + 1, mid + 1, end, i) == v;
        }
      }
    }
  }

  // ---------------------------------------------------------------------
  // Node indices stay below 4n

  lemma MulLeft(a: nat, b: nat, c: nat)
    requires a <= b
    ensures a * c <= b * c
  {
  }

  /**
   * A node at depth d (pow = 2^d <= node < 2^(d+1)) whose range is short
   * enough for its depth fits below 4n, and so does its whole subtree.
   */
  lemma {:induction false} FitsAtDepth(node: nat, start: nat, end: nat, pow: nat, n: nat)
    requires 1 <= pow <= node < 2 * pow && pow <= 2 * n && start <= end
    requires (end - start) * pow <= n - 1
    ensures Fits(node, start, end, 4 * n)
    decreases end - start
  {
    if start < end {
      var d := end - start;
      var mid := Mid(start, end);
      assert mid - start == d / 2 && end - (mid + 1) <= d / 2;
      MulLeft(1, d, pow);
      MulLeft(2 * (d / 2), d, pow);
      MulLeft(mid - start, d / 2, 2 * pow);
      MulLeft(end - (mid + 1), d / 2, 2 * pow);
      assert (d / 2) * (2 * pow) == (2 * (d / 2)) * pow;
      FitsAtDepth(2 * node, start, mid, 2 * pow, n);
      FitsAtDepth(2 * node + 1, mid + 1, end, 2 * pow, n);
    }
  }

  /** Arrays of 4n cells hold every node of a tree over n leaves. */
  lemma FourNSuffices(n: nat)
    requires n >= 1
    ensures Fits(1, 0, n - 1, 4 * n)
  {
    FitsAtDepth(1, 0, n - 1, 1, n);
  }

  /** A fresh tree (all values 0, no pending assignment) satisfies the invariant and has all leaves 0. */
  lemma {:induction false} FreshTree(t: seq<int>, z: seq<int>, node: nat, start: nat, end: nat)
    requires Shaped(t, z, node, start, end)
    requires forall k :: 0 <= k < |t| ==> t[k] == 0 && z[k] == NoLazy
    ensures Good(t, z, node, start, end)
    ensures forall i :: start <= i <= end ==> Eff(t, z, node, start, end, i) == 0
    decreases end - start
  {
    if start < end {
      FreshTree(t, z, 2 * node, start, Mid(start, end));
      FreshTree(t, z, 2 * node + 1, Mid(start, end) + 1, end);
    }
  }

  // ---------------------------------------------------------------------
  // One partial-overlap step, in snapshots: 0 on entry, 1 after the push,
  // 2 after the left child's call, 3 after the right child's call, 4 after
  // the node's own value is recomputed.

  /** What the push gives: the node's snapshot facts for its children. */
  lemma ChildrenAfterPush(t1: seq<int>, z1: seq<int>, node: nat, start: nat, end: nat)
    requires Shaped(t1, z1, node, start, end) && start < end && z1[node] == NoLazy && Good(t1, z1, node, start, end)
    ensures Shaped(t1, z1, 2 * node, start, Mid(start, end)) && Good(t1, z1, 2 * node, start, Mid(start, end))
    ensures Shaped(t1, z1, 2 * node + 1, Mid(start, end) + 1, end) && Good(t1, z1, 2 * node + 1, Mid(start, end) + 1, end)
    ensures forall i :: start <= i <= Mid(start, end) ==> Eff(t1, z1, node, start, end, i) == Eff(t1, z1, 2 * node, start, Mid(start, end), i)
    ensures forall i :: Mid(start, end) < i <= end ==> Eff(t1, z1, node, start, end, i) == Eff(t1, z1, 2 * node + 1, Mid(start, end) + 1, end, i)
  {
  }

  /**
   * After one child's subtree changed, the other child's subtree keeps its
   * effective values and invariant, and the parent's own cells are unchanged.
   */
  lemma SiblingKeeps(t1: seq<int>, z1: seq<int>, t2: seq<int>, z2: seq<int>, node: nat, changed: nat, other: nat, start: nat, end: nat)
    requires 1 <= node && node < |t1| && OnlyBelow(t1, z1, t2, z2, changed)
    requires (changed == 2 * node && other == 2 * node + 1) || (changed == 2 * node + 1 && other == 2 * node)
    requires Shaped(t1, z1, other, start, end) && Good(t1, z1, other, start, end)
    ensures Shaped(t2, z2, other, start, end) && Good(t2, z2, other, start, end)
    ensures forall i :: start <= i <= end ==> Eff(t2, z2, other, start, end, i) == Eff(t1, z1, other, start, end, i)
    ensures t1[node] == t2[node] && z1[node] == z2[node]
  {
    SiblingUntouched(t1, z1, t2, z2, node, changed, other);
    SubtreeFrame(t1, z1, t2, z2, other, start, end);
  }

  /**
   * Recomputing the node's value from its children, after both children
   * were brought up to date, restores the invariant at the node.
   */
  lemma RecomputeNode(t3: seq<int>, z3: seq<int>, t4: seq<int>, node: nat, start: nat, end: nat)
    requires Shaped(t3, z3, node, start, end) && start < end && z3[node] == NoLazy
    requires Good(t3, z3, 2 * node, start, Mid(start, end)) && Good(t3, z3, 2 * node + 1, Mid(start, end) + 1, end)
    requires t4 == t3[node := Max(t3[2 * node], t3[2 * node + 1])]
    ensures Shaped(t4, z3, node, start, end) && Good(t4, z3, node, start, end)
    ensures forall i :: start <= i <= end ==> Eff(t4, z3, node, start, end, i) == Eff(t3, z3, node, start, end, i)
    ensures OnlyBelow(t3, z3, t4, z3, node)
  {
    var mid := Mid(start, end);
    SiblingsDisjoint(node, node);
    assert AgreeBelow(t3, z3, t4, z3, 2 * node);
    assert AgreeBelow(t3, z3, t4, z3, 2 * node + 1);
    SubtreeFrame(t3, z3, t4, z3, 2 * node, start, mid);
    SubtreeFrame(t3, z3, t4, z3, 2 * node + 1, mid + 1, end);
  }

  /**
   * The changes of one partial-overlap step (each child's own step, then the
   * recomputation) are all confined to the node's subtree.
   */
  lemma FrameChain(t1: seq<int>, z1: seq<int>, t2: seq<int>, z2: seq<int>,
                   t3: seq<int>, z3: seq<int>, t4: seq<int>, z4: seq<int>, node: nat)
    requires 1 <= node
    requires OnlyBelow(t1, z1, t2, z2, 2 * node)
    requires OnlyBelow(t2, z2, t3, z3, 2 * node + 1) && OnlyBelow(t3, z3, t4, z4, node)
    ensures OnlyBelow(t1, z1, t4, z4, node)
  {
    WidenOnlyBelow(t1, z1, t2, z2, node, 2 * node);
    WidenOnlyBelow(t2, z2, t3, z3, node, 2 * node + 1);
  }

  /** A fresh tree over n leaves, in arrays of 4n cells, is valid and all its leaves are 0. */
  lemma FreshLeaves(t: seq<int>, z: seq<int>, n: nat)
    requires n >= 1 && |t| == |z| == 4 * n
    requires forall k :: 0 <= k < |t| ==> t[k] == 0 && z[k] == NoLazy
    ensures Shaped(t, z, 1, 0, n - 1) && Good(t, z, 1, 0, n - 1)
    ensures forall i :: 0 <= i < n ==> LeafAt(t, z, n, i) == 0
  {
    FourNSuffices(n);
    FreshTree(t, z, 1, 0, n - 1);
  }

  /** A cleared tree satisfies the invariant and every leaf is 0. */
  lemma FreshContents(t: seq<int>, z: seq<int>, n: nat)
    requires n >= 1 && |t| == |z| == 4 * n
    requires forall k :: 0 <= k < |t| ==> t[k] == 0 && z[k] == NoLazy
    ensures Shaped(t, z, 1, 0, n - 1) && Good(t, z, 1, 0, n - 1)
    ensures Leaves(t, z, n) == Zeros(n)
  {
    FreshLeaves(t, z, n);
    ZeroLeaves(t, z, n);
  }

  /** The all-zero height sequence of length n. */
  function Zeros(n: nat): seq<int>
  {
    seq(n, _ => 0)
  }

  /** When every leaf's effective value is 0, the leaf sequence is all zeros. */
  lemma ZeroLeaves(t: seq<int>, z: seq<int>, n: nat)
    requires n >= 1 && Shaped(t, z, 1, 0, n - 1)
    requires forall i :: 0 <= i < n ==> LeafAt(t, z, n, i) == 0
    ensures Leaves(t, z, n) == Zeros(n)
  {
  }

  class LazyTree {
    /** Number of leaves (compressed segments). */
    const n: nat
    const tree: array<int>
    const lazy: array<int>

    /** The effective height of every leaf. */
    ghost var Contents: seq<int>

    ghost predicate Valid()
      reads this, tree, lazy
    {
      && n >= 1 && tree != lazy
      && tree.Length == lazy.Length == 4 * n
      && Shaped(tree[..], lazy[..], 1, 0, n - 1)
      && Good(tree[..], lazy[..], 1, 0, n - 1)
      && Contents == Leaves(tree[..], lazy[..], n)
    }

    /** Every value 0 and no pending assignment: all leaves 0. */
    constructor(n: nat)
      requires n >= 1
      ensures Valid() && Contents == Zeros(n)
      ensures fresh(tree) && fresh(lazy)
    {
      this.n := n;
      tree := new int[4 * n];
      lazy := new int[4 * n];
      new;
      Reset();
    }

    /** Sets every value to 0 and clears every pending assignment. */
    method Reset()
      requires n >= 1 && tree != lazy && tree.Length == lazy.Length == 4 * n
      modifies this, tree, lazy
      ensures Valid() && Contents == Zeros(n)
    {
      Clear();
      Contents := Zeros(n);
      ClearedIsValid();
    }

    /** Cleared arrays with all-zero contents satisfy the tree invariant and hold all-zero leaves. */
    lemma ClearedIsValid()
      requires n >= 1 && tree != lazy && tree.Length == lazy.Length == 4 * n
      requires forall k :: 0 <= k < tree.Length ==> tree[k] == 0 && lazy[k] == NoLazy
      requires Contents == Zeros(n)
      ensures Shaped(tree[..], lazy[..], 1, 0, n - 1) && Good(tree[..], lazy[..], 1, 0, n - 1)
      ensures Contents == Leaves(tree[..], lazy[..], n)
    {
      ghost var t, z := tree[..], lazy[..];
      assert forall k :: 0 <= k < |t| ==> t[k] == 0 && z[k] == NoLazy;
      FreshContents(t, z, n);
    }

    /** Zeroes every value and clears every pending assignment, cell by cell. */
    method Clear()
      requires tree != lazy && tree.Length == lazy.Length
      modifies tree, lazy
      ensures forall k :: 0 <= k < tree.Length ==> tree[k] == 0 && lazy[k] == NoLazy
    {
      for i := 0 to tree.Length
        invariant forall k :: 0 <= k < i ==> tree[k] == 0 && lazy[k] == NoLazy
      {
        tree[i] := 0;
        lazy[i] := NoLazy;
      }
    }

    /** Hands a pending assignment at `node` down to the two given children. */
    method PushDown(node: nat, leftChild: nat, rightChild: nat)
      requires tree != lazy && tree.Length == lazy.Length
      requires node < tree.Length && leftChild < tree.Length && rightChild < tree.Length
      modifies tree, lazy
      ensures tree[..] == PushedTree(old(tree[..]), old(lazy[..]), node, leftChild, rightChild)
      ensures lazy[..] == PushedLazy(old(lazy[..]), node, leftChild, rightChild)
    {
      if lazy[node] != NoLazy {
        tree[leftChild] := lazy[node];
        tree[rightChild] := lazy[node];
        lazy[leftChild] := lazy[node];
        lazy[rightChild] := lazy[node];
        lazy[node] := NoLazy;
      }
    }

    /**
     * Sets every leaf of [l, r] inside the node's range [start, end] to
     * `height` and leaves every other leaf as it was; keeps the invariant and
     * touches only the node's subtree.
     */
    method UpdateRange(node: nat, start: nat, end: nat, l: int, r: int, height: int)
      requires tree != lazy && Shaped(tree[..], lazy[..], node, start, end) && Good(tree[..], lazy[..], node, start, end)
      requires height != NoLazy
      modifies tree, lazy
      ensures Shaped(tree[..], lazy[..], node, start, end) && Good(tree[..], lazy[..], node, start, end)
      ensures forall i :: start <= i <= end ==>
                Eff(tree[..], lazy[..], node, start, end, i) ==
                Assigned(Eff(old(tree[..]), old(lazy[..]), node, start, end, i), i, l, r, height)
      ensures OnlyBelow(old(tree[..]), old(lazy[..]), tree[..], lazy[..], node)
      decreases end - start, 1
    {
      if r < start || end < l {
        return;
      }
      if l <= start && end <= r {
        tree[node] := height;
        lazy[node] := height;
        return;
      }
      ghost var t0, z0 := tree[..], lazy[..];
      PushDown(node, node * 2, node * 2 + 1);
      PushKeepsLeaves(t0, z0, node, start, end);
      UpdateChildren(node, start, end, l, r, height);
    }

    /**
     * The partial-overlap case after the push: assigns in both children and
     * recomputes the node's value from theirs.
     */
    method UpdateChildren(node: nat, start: nat, end: nat, l: int, r: int, height: int)
      requires tree != lazy && Shaped(tree[..], lazy[..], node, start, end) && Good(tree[..], lazy[..], node, start, end)
      requires start < end && lazy[node] == NoLazy && height != NoLazy
      modifies tree, lazy
      ensures Shaped(tree[..], lazy[..], node, start, end) && Good(tree[..], lazy[..], node, start, end)
      ensures forall i :: start <= i <= end ==>
                Eff(tree[..], lazy[..], node, start, end, i) ==
                Assigned(Eff(old(tree[..]), old(lazy[..]), node, start, end, i), i, l, r, height)
      ensures OnlyBelow(old(tree[..]), old(lazy[..]), tree[..], lazy[..], node)
      decreases end - start, 0
    {
      var mid := (start + end) / 2;
      var leftChild := node * 2;
      var rightChild := node * 2 + 1;
      ghost var t1, z1 := tree[..], lazy[..];
      ChildrenAfterPush(t1, z1, node, start, end);
      UpdateRange(leftChild, start, mid, l, r, height);
      ghost var t2, z2 := tree[..], lazy[..];
      SiblingKeeps(t1, z1, t2, z2, node, leftChild, rightChild, mid + 1, end);
      UpdateRange(rightChild, mid + 1, end, l, r, height);
      ghost var t3, z3 := tree[..], lazy[..];
      SiblingKeeps(t2, z2, t3, z3, node, rightChild, leftChild, start, mid);
      tree[node] := if tree[leftChild] > tree[rightChild] then tree[leftChild] else tree[rightChild];
      ghost var t4 := tree[..];
      RecomputeNode(t3, z3, t4, node, start, end);
      FrameChain(t1, z1, t2, z2, t3, z3, t4, z3, node);
    }

    /**
     * Copies the effective value of every leaf of [start, end] into
     * heights[start..end], pushing pending assignments down on the way.
     * No effective value, no node's own value and no other cell of `heights`
     * changes, and the invariant is kept.
     */
    method BuildHeightArray(node: nat, start: nat, end: nat, heights: array<int>)
      requires tree != lazy && heights != tree && heights != lazy
      requires Shaped(tree[..], lazy[..], node, start, end) && Good(tree[..], lazy[..], node, start, end)
      requires end < heights.Length
      modifies tree, lazy, heights
      ensures Shaped(tree[..], lazy[..], node, start, end) && Good(tree[..], lazy[..], node, start, end)
      ensures forall i :: start <= i <= end ==>
                Eff(tree[..], lazy[..], node, start, end, i) == Eff(old(tree[..]), old(lazy[..]), node, start, end, i)
      ensures forall i :: start <= i <= end ==> heights[i] == Eff(old(tree[..]), old(lazy[..]), node, start, end, i)
      ensures forall i :: 0 <= i < heights.Length && !(start <= i <= end) ==> heights[i] == old(heights[i])
      ensures tree[node] == old(tree[node])
      ensures OnlyBelow(old(tree[..]), old(lazy[..]), tree[..], lazy[..], node)
      decreases end - start, 1
    {
      if start == end {
        heights[start] := tree[node];
        return;
      }
      ghost var t0, z0 := tree[..], lazy[..];
      PushDown(node, node * 2, node * 2 + 1);
      PushKeepsLeaves(t0, z0, node, start, end);
      BuildChildren(node, start, end, heights);
    }

    /** The inner-node case of `BuildHeightArray` after the push: both children in turn. */
    method BuildChildren(node: nat, start: nat, end: nat, heights: array<int>)
      requires tree != lazy && heights != tree && heights != lazy
      requires Shaped(tree[..], lazy[..], node, start, end) && Good(tree[..], lazy[..], node, start, end)
      requires start < end && lazy[node] == NoLazy && end < heights.Length
      modifies tree, lazy, heights
      ensures Shaped(tree[..], lazy[..], node, start, end) && Good(tree[..], lazy[..], node, start, end)
      ensures forall i :: start <= i <= end ==>
                Eff(tree[..], lazy[..], node, start, end, i) == Eff(old(tree[..]), old(lazy[..]), node, start, end, i)
      ensures forall i :: start <= i <= end ==> heights[i] == Eff(old(tree[..]), old(lazy[..]), node, start, end, i)
      ensures forall i :: 0 <= i < heights.Length && !(start <= i <= end) ==> heights[i] == old(heights[i])
      ensures tree[node] == old(tree[node])
      ensures OnlyBelow(old(tree[..]), old(lazy[..]), tree[..], lazy[..], node)
      decreases end - start, 0
    {
      var mid := (start + end) / 2;
      var leftChild := node * 2;
      var rightChild := node * 2 + 1;
      ghost var t1, z1 := tree[..], lazy[..];
      ChildrenAfterPush(t1, z1, node, start, end);
      BuildHeightArray(leftChild, start, mid, heights);
      ghost var t2, z2 := tree[..], lazy[..];
      SiblingKeeps(t1, z1, t2, z2, node, leftChild, rightChild, mid + 1, end);
      BuildHeightArray(rightChild, mid + 1, end, heights);
      ghost var t3, z3 := tree[..], lazy[..];
      SiblingKeeps(t2, z2, t3, z3, node, rightChild, leftChild, start, mid);
      SiblingUntouched(t2, z2, t3, z3, node, rightChild, leftChild);
      SiblingUntouched(t1, z1, t2, z2, node, leftChild, rightChild);
      assert IsDesc(rightChild, rightChild) && IsDesc(leftChild, leftChild);
      assert t3[node] == Max(t3[leftChild], t3[rightChild]);
      RecomputeNode(t3, z3, t3, node, start, end);
      FrameChain(t1, z1, t2, z2, t3, z3, t3, z3, node);
    }

    /** Assigns `height` to the leaves l..r of the whole tree. */
    method Update(l: nat, r: nat, height: int)
      requires Valid() && l <= r < n && height >= 0
      modifies this, tree, lazy
      ensures Valid() && Contents == Assign(old(Contents), l, r, height)
    {
      UpdateRange(1, 0, n - 1, l, r, height);
      Contents := Leaves(tree[..], lazy[..], n);
    }

    /** Writes every leaf's effective value into heights[..n]; the leaves keep their values. */
    method ReadHeights(heights: array<int>)
      requires Valid() && heights != tree && heights != lazy && n <= heights.Length
      modifies tree, lazy, heights
      ensures Valid() && heights[..n] == Contents
      ensures heights[n..] == old(heights[n..])
    {
      BuildHeightArray(1, 0, n - 1, heights);
    }
  }
}
