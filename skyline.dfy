/**
 * The skyline program: buildings are assigned over compressed coordinate
 * segments in query order (a later building overwrites an earlier one), and
 * each print query emits the silhouette's change points.
 *
 * Segment j of the compressed coordinates C is the half-open interval
 * [C[j], C[j+1]). The height of a segment after some queries is stated
 * geometrically, without indices: the height of the last building so far
 * that spans the whole segment, or 0 when none does.
 */
module Skyline {
  import opened Sorting
  import opened Compression
  import opened SegmentTree
  import Strings

  /** One input query: a building over [left, right) of the given height, or a print request. */
  datatype Query = Building(left: int, right: int, height: int) | Print

  /** The coordinates collected from the queries: both ends of every building, in query order. */
  function Coordinates(qs: seq<Query>): (cs: seq<int>)
    ensures |cs| <= 2 * |qs|
  {
    if |qs| == 0 then []
    else
      var last := qs[|qs| - 1];
      Coordinates(qs[..|qs| - 1]) + if last.Building? then [last.left, last.right] else []
  }

  /** The collected coordinates are exactly the ends of the buildings. */
  lemma {:induction false} CoordinatesMembers(qs: seq<Query>)
    ensures forall i :: 0 <= i < |qs| && qs[i].Building? ==> qs[i].left in Coordinates(qs) && qs[i].right in Coordinates(qs)
    ensures forall x :: x in Coordinates(qs) ==>
              exists i :: 0 <= i < |qs| && qs[i].Building? && (qs[i].left == x || qs[i].right == x)
  {
    if |qs| > 0 {
      var prior := qs[..|qs| - 1];
      CoordinatesMembers(prior);
      assert forall i :: 0 <= i < |qs| - 1 ==> prior[i] == qs[i];
    }
  }

  /** The coordinates of one more query: its two ends appended when it is a building. */
  lemma CoordinatesStep(qs: seq<Query>, i: nat)
    requires i < |qs|
    ensures Coordinates(qs[..i + 1])
            == Coordinates(qs[..i]) + if qs[i].Building? then [qs[i].left, qs[i].right] else []
  {
    assert qs[..i + 1][..i] == qs[..i];
  }

  /** Height of the last building in `prefix` spanning all of [x0, x1), or 0 when none does. */
  function CoverHeight(prefix: seq<Query>, x0: int, x1: int): int
  {
    if |prefix| == 0 then 0
    else
      var q := prefix[|prefix| - 1];
      if q.Building? && q.left <= x0 && x1 <= q.right then q.height
      else CoverHeight(prefix[..|prefix| - 1], x0, x1)
  }

  /** The height of every segment of `cs` after the queries in `prefix`. */
  function SegmentHeights(prefix: seq<Query>, cs: seq<int>): (hs: seq<int>)
    requires |cs| >= 1
    ensures |hs| == |cs| - 1
  {
    seq(|cs| - 1, j requires 0 <= j < |cs| - 1 => CoverHeight(prefix, cs[j], cs[j + 1]))
  }

  /** The height in force just before segment j: 0 before the first one. */
  function PrevHeight(hs: seq<int>, j: nat): int
    requires j <= |hs|
  {
    if j == 0 then 0 else hs[j - 1]
  }

  /** The change points among the first k segments: a point wherever the height differs from the one before. */
  function Points(cs: seq<int>, hs: seq<int>, k: nat): seq<(int, int)>
    requires |cs| == |hs| + 1 && k <= |hs|
  {
    if k == 0 then []
    else if hs[k - 1] != PrevHeight(hs, k - 1) then Points(cs, hs, k - 1) + [(cs[k - 1], hs[k - 1])]
    else Points(cs, hs, k - 1)
  }

  /** The silhouette: every change point, then a drop to 0 at the last coordinate when needed. */
  function Silhouette(cs: seq<int>, hs: seq<int>): seq<(int, int)>
    requires |cs| == |hs| + 1
  {
    Points(cs, hs, |hs|) + (if PrevHeight(hs, |hs|) != 0 then [(cs[|hs|], 0)] else [])
  }

  /** What a print query after `prefix` outputs; with fewer than two coordinates there is no segment. */
  function Snapshot(prefix: seq<Query>, cs: seq<int>): seq<(int, int)>
  {
    if |cs| < 2 then [] else Silhouette(cs, SegmentHeights(prefix, cs))
  }

  /** All output lines of the queries, in order. */
  function Output(qs: seq<Query>, cs: seq<int>): seq<(int, int)>
  {
    if |qs| == 0 then []
    else
      var prior := qs[..|qs| - 1];
      Output(prior, cs) + (if qs[|qs| - 1].Print? then Snapshot(prior, cs) else [])
  }

  /**
   * Reading a silhouette: the height of the last point at or left of x, 0
   * when there is none.
   */
  function HeightAt(pts: seq<(int, int)>, x: int): int
  {
    if |pts| == 0 then 0
    else if pts[|pts| - 1].0 <= x then pts[|pts| - 1].1
    else HeightAt(pts[..|pts| - 1], x)
  }

  // ---------------------------------------------------------------------
  // The update step: compressed indices against the geometric definition

  /**
   * The compressed index range of a building, [IndexOf(L), IndexOf(R) - 1],
   * holds exactly the segments the building spans; so assigning its height
   * over that range gives the segment heights with the building added.
   */
  lemma UpdateCovers(prefix: seq<Query>, cs: seq<int>, left: int, right: int, height: int)
    requires |cs| >= 1 && StrictlyIncreasing(cs) && left in cs && right in cs
    ensures Assign(SegmentHeights(prefix, cs), IndexOf(cs, left), IndexOf(cs, right) - 1, height)
            == SegmentHeights(prefix + [Building(left, right, height)], cs)
  {
    var li, ri := IndexOf(cs, left), IndexOf(cs, right);
    var q := Building(left, right, height);
    var before := SegmentHeights(prefix, cs);
    var updated := Assign(before, li, ri - 1, height);
    var now := SegmentHeights(prefix + [q], cs);
    forall j | 0 <= j < |cs| - 1
      ensures updated[j] == now[j]
    {
      CoverAt(prefix, cs, li, ri, height, j);
    }
  }

  /** One segment of `UpdateCovers`, with the two ends given by their indices. */
  lemma CoverAt(prefix: seq<Query>, cs: seq<int>, li: nat, ri: nat, height: int, j: nat)
    requires StrictlyIncreasing(cs) && li < |cs| && ri < |cs| && j + 1 < |cs|
    ensures CoverHeight(prefix + [Building(cs[li], cs[ri], height)], cs[j], cs[j + 1])
            == if li <= j <= ri - 1 then height else CoverHeight(prefix, cs[j], cs[j + 1])
  {
    IncreasingOrder(cs, li, j);
    IncreasingOrder(cs, j + 1, ri);
    CoverHeightLast(prefix, Building(cs[li], cs[ri], height), cs[j], cs[j + 1]);
  }

  /** The cover height after one more query: that query's height if it spans the segment, else as before. */
  lemma CoverHeightLast(prefix: seq<Query>, q: Query, x0: int, x1: int)
    ensures CoverHeight(prefix + [q], x0, x1)
            == if q.Building? && q.left <= x0 && x1 <= q.right then q.height else CoverHeight(prefix, x0, x1)
  {
    assert (prefix + [q])[..|prefix|] == prefix;
  }

  /** In a strictly increasing sequence, positions compare as their values do. */
  lemma IncreasingOrder(cs: seq<int>, a: nat, b: nat)
    requires StrictlyIncreasing(cs) && a < |cs| && b < |cs|
    ensures a <= b <==> cs[a] <= cs[b]
  {
    if a < b {
      assert cs[a] < cs[b];
    } else if b < a {
      assert cs[b] < cs[a];
    }
  }

  /** A print query changes no segment height. */
  lemma PrintKeeps(prefix: seq<Query>, cs: seq<int>)
    requires |cs| >= 1
    ensures SegmentHeights(prefix + [Print], cs) == SegmentHeights(prefix, cs)
  {
    assert (prefix + [Print])[..|prefix|] == prefix;
  }

  /** Before any query every segment has height 0. */
  lemma NothingBuilt(cs: seq<int>)
    requires |cs| >= 1
    ensures SegmentHeights([], cs) == Zeros(|cs| - 1)
  {
  }

  /**
   * One more query of `todo` done: the history grows by that query, and the
   * output grows by what it prints.
   */
  lemma PrefixStep(done: seq<Query>, todo: seq<Query>, i: nat)
    requires i < |todo|
    ensures done + todo[..i + 1] == (done + todo[..i]) + [todo[i]]
    ensures (done + todo[..i + 1])[..|done| + i] == done + todo[..i]
  {
    assert todo[..i + 1] == todo[..i] + [todo[i]];
  }

  /** A building query adds nothing to the output. */
  lemma BuildingPrintsNothing(prefix: seq<Query>, q: Query, cs: seq<int>)
    requires q.Building?
    ensures Output(prefix + [q], cs) == Output(prefix, cs)
  {
    assert (prefix + [q])[..|prefix|] == prefix;
  }

  /** A print query adds the silhouette of the heights so far to the output. */
  lemma PrintOutputs(prefix: seq<Query>, cs: seq<int>, pts: seq<(int, int)>)
    requires |cs| >= 2 && pts == Silhouette(cs, SegmentHeights(prefix, cs))
    ensures Output(prefix + [Print], cs) == Output(prefix, cs) + pts
  {
    assert (prefix + [Print])[..|prefix|] == prefix;
  }

  // ---------------------------------------------------------------------
  // The silhouette read back

  /** A point appended right of x does not change the height read at x. */
  lemma HeightAtSkips(pts: seq<(int, int)>, p: (int, int), x: int)
    requires x < p.0
    ensures HeightAt(pts + [p], x) == HeightAt(pts, x)
  {
    assert (pts + [p])[..|pts|] == pts;
  }

  /** Right of the first k segments' start points, the height read is the one in force after them. */
  lemma {:induction false} HeightAfterPoints(cs: seq<int>, hs: seq<int>, k: nat, x: int)
    requires |cs| == |hs| + 1 && k <= |hs| && StrictlyIncreasing(cs)
    requires k > 0 ==> cs[k - 1] <= x
    ensures HeightAt(Points(cs, hs, k), x) == PrevHeight(hs, k)
  {
    if k > 0 {
      if hs[k - 1] != PrevHeight(hs, k - 1) {
        var pts := Points(cs, hs, k - 1) + [(cs[k - 1], hs[k - 1])];
        assert pts[..|pts| - 1] == Points(cs, hs, k - 1);
      } else {
        HeightAfterPoints(cs, hs, k - 1, x);
      }
    }
  }

  /** Points added for later segments do not change the height read at segment j's start. */
  lemma {:induction false} HeightAtSegment(cs: seq<int>, hs: seq<int>, k: nat, j: nat)
    requires |cs| == |hs| + 1 && j < k <= |hs| && StrictlyIncreasing(cs)
    ensures HeightAt(Points(cs, hs, k), cs[j]) == hs[j]
  {
    if k == j + 1 {
      HeightAfterPoints(cs, hs, k, cs[j]);
    } else {
      HeightAtSegment(cs, hs, k - 1, j);
      if hs[k - 1] != PrevHeight(hs, k - 1) {
        HeightAtSkips(Points(cs, hs, k - 1), (cs[k - 1], hs[k - 1]), cs[j]);
      }
    }
  }

  /**
   * The silhouette determines the heights: reading it at the start of any
   * segment gives that segment's height, and at the last coordinate it
   * reads 0 again.
   */
  lemma SilhouetteReadsBack(cs: seq<int>, hs: seq<int>)
    requires |cs| == |hs| + 1 && StrictlyIncreasing(cs)
    ensures forall j :: 0 <= j < |hs| ==> HeightAt(Silhouette(cs, hs), cs[j]) == hs[j]
    ensures HeightAt(Silhouette(cs, hs), cs[|hs|]) == 0
  {
    var pts := Points(cs, hs, |hs|);
    forall j | 0 <= j < |hs|
      ensures HeightAt(Silhouette(cs, hs), cs[j]) == hs[j]
    {
      HeightAtSegment(cs, hs, |hs|, j);
      if PrevHeight(hs, |hs|) != 0 {
        HeightAtSkips(pts, (cs[|hs|], 0), cs[j]);
      } else {
        assert Silhouette(cs, hs) == pts;
      }
    }
    if PrevHeight(hs, |hs|) != 0 {
      assert (pts + [(cs[|hs|], 0)])[|pts|] == (cs[|hs|], 0);
    } else {
      assert Silhouette(cs, hs) == pts;
      HeightAfterPoints(cs, hs, |hs|, cs[|hs|]);
    }
  }

  // ---------------------------------------------------------------------
  // The program

  /**
   * Emits the silhouette of the n segments whose heights are in
   * heights[..n] and whose coordinates are coords[..n+1].
   */
  method Emit(coords: array<int>, heights: array<int>, n: nat) returns (pts: seq<(int, int)>)
    requires 1 <= n < coords.Length && n <= heights.Length
    ensures pts == Silhouette(coords[..n + 1], heights[..n])
  {
    ghost var cs, hs := coords[..n + 1], heights[..n];
    var prevHeight := 0;
    pts := [];
    for j := 0 to n
      invariant pts == Points(cs, hs, j)
      invariant prevHeight == PrevHeight(hs, j)
    {
      if heights[j] != prevHeight {
        pts := pts + [(coords[j], heights[j])];
        prevHeight := heights[j];
      }
    }
    if prevHeight != 0 {
      pts := pts + [(coords[n], 0)];
    }
  }

  /**
   * Collects both ends of every building into an array, in query order;
   * returns the array and how many cells are used.
   */
  method Collect(qs: seq<Query>) returns (list: array<int>, count: nat)
    ensures fresh(list) && count <= list.Length && list[..count] == Coordinates(qs)
  {
    list := new int[2 * |qs|];
    count := 0;
    for i := 0 to |qs|
      invariant count <= 2 * i && list[..count] == Coordinates(qs[..i])
    {
      CoordinatesStep(qs, i);
      if qs[i].Building? {
        ghost var before := list[..count];
        list[count] := qs[i].left;
        list[count + 1] := qs[i].right;
        assert list[..count + 2] == before + [qs[i].left, qs[i].right];
        count := count + 2;
      }
    }
    assert qs[..|qs|] == qs;
  }

  /**
   * Sorts and compresses the first `count` cells: returns cc with
   * list[..cc] strictly increasing and holding exactly the values the first
   * `count` cells held.
   */
  method Compress(list: array<int>, count: nat) returns (cc: nat)
    requires count <= list.Length
    modifies list
    ensures cc <= count && StrictlyIncreasing(list[..cc])
    ensures forall x :: x in list[..cc] <==> x in old(list[..count])
  {
    ghost var before := list[..];
    QuickSort(list, 0, count - 1);
    SliceMultiset(before, list[..], 0, count);
    assert before[..count] == old(list[..count]) && list[0..count] == list[..count];
    forall x | x in old(list[..count])
      ensures x in list[..count]
    {
      assert x in multiset(list[..count]);
    }
    forall x | x in list[..count]
      ensures x in old(list[..count])
    {
      assert x in multiset(old(list[..count]));
    }
    cc := RemoveDuplicates(list, count);
  }

  /**
   * The state between two queries when there are segments: list[..cc] holds
   * the compressed coordinates, the tree over their cc - 1 segments is valid
   * and holds the segment heights after `prefix`, and the read-out buffer has
   * one cell per segment. The four arrays are distinct.
   */
  ghost predicate Ready(tree: LazyTree, heights: array<int>, list: array<int>, cc: nat, coords: seq<int>, prefix: seq<Query>)
    reads tree, tree.tree, tree.lazy, list
  {
    && 2 <= cc <= list.Length && list[..cc] == coords && StrictlyIncreasing(coords)
    && tree.Valid() && tree.n == cc - 1 && tree.Contents == SegmentHeights(prefix, coords)
    && heights.Length == cc - 1
    && heights != tree.tree && heights != tree.lazy && heights != list
    && list != tree.tree && list != tree.lazy
  }

  /**
   * A building query: looks up the compressed indices of both ends and
   * assigns the height over the segments [IndexOf(left), IndexOf(right) - 1]
   * when that range is not empty; the tree then holds the segment heights
   * with the building added.
   */
  method AddBuilding(tree: LazyTree, heights: array<int>, list: array<int>, cc: nat, ghost coords: seq<int>,
                     ghost prefix: seq<Query>, left: int, right: int, height: int)
    requires Ready(tree, heights, list, cc, coords, prefix)
    requires left in coords && right in coords && height >= 0
    modifies tree, tree.tree, tree.lazy
    ensures Ready(tree, heights, list, cc, coords, prefix + [Building(left, right, height)])
  {
    var leftIndex := FindIndex(list, cc, left);
    var rightIndex := FindIndex(list, cc, right);
    rightIndex := rightIndex - 1;
    ghost var after := SegmentHeights(prefix + [Building(left, right, height)], coords);
    UpdateCovers(prefix, coords, left, right, height);
    assert after == Assign(tree.Contents, leftIndex, rightIndex, height);
    if rightIndex >= leftIndex {
      tree.Update(leftIndex, rightIndex, height);
    } else {
      assert after == tree.Contents;
    }
  }

  /**
   * A print query: reads the segment heights out of the tree into `heights`
   * and emits their silhouette over the coordinates. The heights stay as they were.
   */
  method PrintSilhouette(tree: LazyTree, heights: array<int>, list: array<int>, cc: nat, ghost coords: seq<int>,
                         ghost prefix: seq<Query>) returns (pts: seq<(int, int)>)
    requires Ready(tree, heights, list, cc, coords, prefix)
    modifies tree.tree, tree.lazy, heights
    ensures Ready(tree, heights, list, cc, coords, prefix + [Print])
    ensures pts == Silhouette(coords, SegmentHeights(prefix, coords))
  {
    PrintKeeps(prefix, coords);
    tree.ReadHeights(heights);
    pts := Emit(list, heights, cc - 1);
  }

  /**
   * Answers the queries in order against the segment tree, starting from the
   * state after `done`: returns the output lines of the queries in `todo`.
   */
  method Process(tree: LazyTree, heights: array<int>, list: array<int>, cc: nat, ghost coords: seq<int>,
                 ghost done: seq<Query>, todo: seq<Query>) returns (output: seq<(int, int)>)
    requires Ready(tree, heights, list, cc, coords, done)
    requires forall i :: 0 <= i < |todo| && todo[i].Building? ==>
               todo[i].left in coords && todo[i].right in coords && todo[i].height >= 0
    modifies tree, tree.tree, tree.lazy, heights
    ensures Output(done + todo, coords) == Output(done, coords) + output
  {
    output := [];
    assert done + todo[..0] == done;
    for i := 0 to |todo|
      invariant Ready(tree, heights, list, cc, coords, done + todo[..i])
      invariant Output(done + todo[..i], coords) == Output(done, coords) + output
    {
      ghost var prefix := done + todo[..i];
      PrefixStep(done, todo, i);
      match todo[i]
      case Building(left, right, height) =>
        AddBuilding(tree, heights, list, cc, coords, prefix, left, right, height);
        BuildingPrintsNothing(prefix, todo[i], coords);
      case Print =>
        var pts := PrintSilhouette(tree, heights, list, cc, coords, prefix);
        PrintOutputs(prefix, coords, pts);
        Strings.Assoc(Output(done, coords), output, pts);
        output := output + pts;
    }
    assert todo[..|todo|] == todo;
  }

  /**
   * Runs the queries: collects and compresses the coordinates, then applies
   * each building to the segment tree and answers each print query. With
   * fewer than two distinct coordinates there is no segment: no building
   * changes anything and a print query outputs nothing.
   */
  method Run(qs: seq<Query>) returns (coords: seq<int>, output: seq<(int, int)>)
    requires forall i :: 0 <= i < |qs| && qs[i].Building? ==> qs[i].height >= 0
    ensures StrictlyIncreasing(coords) && forall x :: x in coords <==> x in Coordinates(qs)
    ensures output == Output(qs, coords)
  {
    var list, count := Collect(qs);
    var cc := Compress(list, count);
    coords := list[..cc];
    CoordinatesMembers(qs);
    if cc >= 2 {
      var tree := new LazyTree(cc - 1);
      NothingBuilt(coords);
      var heights := new int[cc - 1];
      assert [] + qs == qs;
      output := Process(tree, heights, list, cc, coords, [], qs);
    } else {
      NoSegmentsNoOutput(qs, coords);
      output := [];
    }
  }

  /** Without two distinct coordinates no query outputs anything. */
  lemma {:induction false} NoSegmentsNoOutput(qs: seq<Query>, coords: seq<int>)
    requires |coords| < 2
    ensures Output(qs, coords) == []
  {
    if |qs| > 0 {
      NoSegmentsNoOutput(qs[..|qs| - 1], coords);
    }
  }

  // ---------------------------------------------------------------------
  // The read-out's recursion when there is no segment

  /** Integer division by 2 as C++ does it: truncated toward zero. */
  function TruncDiv2(a: int): (q: int)
    ensures a >= 0 ==> q == a / 2
    ensures a < 0 ==> q == -((-a) / 2)
  {
    if a >= 0 then a / 2 else -((-a) / 2)
  }

  /**
   * The spans of the two recursive calls the read-out makes on [start, end]
   * when start != end: the midpoint by truncating division, with no check
   * that start <= end.
   */
  function ChildSpans(start: int, end: int): ((int, int), (int, int))
  {
    var mid := TruncDiv2(start + end);
    ((start, mid), (mid + 1, end))
  }

  /** The read-out started on [start, end] reaches only leaves within `depth` levels of recursion. */
  ghost predicate ReadOutEnds(start: int, end: int, depth: nat)
    decreases depth
  {
    start == end ||
    (depth > 0 &&
     var (l, r) := ChildSpans(start, end);
     ReadOutEnds(l.0, l.1, depth - 1) && ReadOutEnds(r.0, r.1, depth - 1))
  }

  /**
   * The spans [1, 0], [1, -1], [0, -1] and [0, -2] each have a child span in
   * the same set, [1, 0] being its own left child: from them no depth suffices.
   */
  lemma {:induction false} NegativeSpansLoop(start: int, end: int, depth: nat)
    requires (start, end) in [(1, 0), (1, -1), (0, -1), (0, -2)]
    ensures !ReadOutEnds(start, end, depth)
    decreases depth
  {
    if depth > 0 {
      if (start, end) == (1, 0) {
        assert ChildSpans(1, 0).0 == (1, 0);
        NegativeSpansLoop(1, 0, depth - 1);
      } else if (start, end) == (1, -1) {
        assert ChildSpans(1, -1).0 == (1, 0);
        NegativeSpansLoop(1, 0, depth - 1);
      } else if (start, end) == (0, -1) {
        assert ChildSpans(0, -1).1 == (1, -1);
        NegativeSpansLoop(1, -1, depth - 1);
      } else {
        assert ChildSpans(0, -2).0 == (0, -1);
        NegativeSpansLoop(0, -1, depth - 1);
      }
    }
  }

  /**
   * As written, a print query with fewer than two distinct coordinates starts
   * the read-out on [0, cc - 2], and that recursion never ends: for cc = 1
   * the span [0, -1] leads to [1, -1] and then to [1, 0], which repeats; for
   * cc = 0 the span [0, -2] leads to [0, -1].
   */
  lemma PrintWithoutSegmentsDiverges(cc: nat, depth: nat)
    requires cc < 2
    ensures !ReadOutEnds(0, cc - 2, depth)
  {
    NegativeSpansLoop(0, cc - 2, depth);
  }

  /**
   * On a real range (0 <= start <= end) the read-out reaches the leaves
   * within end - start levels, which is why the program only starts it when
   * there is at least one segment.
   */
  lemma {:induction false} ReadOutEndsOnSegments(start: int, end: int, depth: nat)
    requires 0 <= start <= end && end - start <= depth
    ensures ReadOutEnds(start, end, depth)
    decreases depth
  {
    if start != end {
      var mid := (start + end) / 2;
      ReadOutEndsOnSegments(start, mid, depth - 1);
      ReadOutEndsOnSegments(mid + 1, end, depth - 1);
    }
  }
}
