/**
 * Minimum-energy vertical seam by top-to-bottom dynamic programming, with the
 * fixed tie-break (straight, then left, then right; leftmost endpoint).
 */
module SeamFinder {

  /** A non-empty rectangular map: at least one row and one column. */
  ghost predicate IsEnergyMap(e: seq<seq<real>>)
  {
    |e| >= 1 && |e[0]| >= 1 && forall r :: 0 <= r < |e| ==> |e[r]| == |e[0]|
  }

  /** Columns of consecutive rows of a seam differ by at most one. */
  predicate Adjacent(a: int, b: int)
  {
    a - 1 <= b <= a + 1
  }

  /** Every entry of `p` is a column of a map of width `w`. */
  ghost predicate InColumns(p: seq<int>, w: nat)
  {
    forall i :: 0 <= i < |p| ==> 0 <= p[i] < w
  }

  /** A connected path of columns, one per row from row 0, inside a map of width `w`. */
  ghost predicate IsPath(p: seq<int>, w: nat)
  {
    InColumns(p, w) && forall i, j :: 0 <= i < |p| && 0 <= j < |p| && j == i + 1 ==> Adjacent(p[i], p[j])
  }

  /** A connected path through every row of `e`: a vertical seam. */
  ghost predicate IsSeam(e: seq<seq<real>>, p: seq<int>)
    requires IsEnergyMap(e)
  {
    |p| == |e| && IsPath(p, |e[0]|)
  }

  /** Total energy along `p`, whose i-th entry is the column taken in row i. */
  function PathCost(e: seq<seq<real>>, p: seq<int>): real
    requires IsEnergyMap(e) && |p| <= |e| && InColumns(p, |e[0]|)
  {
    if |p| == 0 then 0.0 else PathCost(e, p[..|p| - 1]) + e[|p| - 1][p[|p| - 1]]
  }

  /**
   * The parent chosen for column c from the previous DP row: straight up,
   * replaced by left only if strictly smaller, then by right only if strictly
   * smaller than the best so far.
   */
  function BestParent(prev: seq<real>, c: nat): (p: nat)
    requires c < |prev|
    ensures p < |prev| && Adjacent(c, p)
  {
    var afterLeft := if c > 0 && prev[c - 1] < prev[c] then c - 1 else c;
    if c < |prev| - 1 && prev[c + 1] < prev[afterLeft] then c + 1 else afterLeft
  }

  /**
   * The tie-break: the chosen parent is a minimiser among the candidates,
   * straight up wins every tie, and right is chosen only when it is strictly
   * smaller than both other candidates (so left wins a tie with right).
   */
  lemma BestParentIsFirstMinimum(prev: seq<real>, c: nat)
    requires c < |prev|
    ensures var p := BestParent(prev, c);
      && (forall x :: 0 <= x < |prev| && Adjacent(c, x) ==> prev[p] <= prev[x])
      && (prev[c] <= prev[p] ==> p == c)
      && (p == c - 1 ==> prev[c - 1] < prev[c])
      && (p == c + 1 ==> prev[c + 1] < prev[c] && (c > 0 ==> prev[c + 1] < prev[c - 1]))
  {
  }

  /** One DP step: each cell's energy plus the value of its chosen parent in `prev`. */
  function NextRow(energy: seq<real>, prev: seq<real>): (row: seq<real>)
    requires |energy| == |prev|
    ensures |row| == |prev|
    ensures forall c :: 0 <= c < |prev| ==> row[c] == energy[c] + prev[BestParent(prev, c)]
  {
    seq(|prev|, c requires 0 <= c < |prev| => energy[c] + prev[BestParent(prev, c)])
  }

  /**
   * `t` is the DP table of `e`: row 0 is the energy's top row and every later
   * row is the DP step from the row above.
   */
  ghost predicate IsDPTable(e: seq<seq<real>>, t: seq<seq<real>>)
    requires IsEnergyMap(e)
  {
    && |t| == |e|
    && t[0] == e[0]
    && (forall r :: 0 <= r < |t| ==> |t[r]| == |e[0]|)
    && (forall q, r :: 0 <= q < |t| && 0 <= r < |t| && r == q + 1 ==> t[r] == NextRow(e[r], t[q]))
  }

  /** The first `n` rows of the DP table. */
  function DPRows(e: seq<seq<real>>, n: nat): (t: seq<seq<real>>)
    requires IsEnergyMap(e) && 1 <= n <= |e|
    ensures |t| == n && t[0] == e[0]
    ensures forall r :: 0 <= r < n ==> |t[r]| == |e[0]|
    ensures forall q, r :: 0 <= q < n && 0 <= r < n && r == q + 1 ==> t[r] == NextRow(e[r], t[q])
  {
    if n == 1 then [e[0]]
    else
      var t := DPRows(e, n - 1);
      t + [NextRow(e[n - 1], t[n - 2])]
  }

  /** The DP table: minimal cumulative energy to reach each cell from row 0. */
  function DPTable(e: seq<seq<real>>): (t: seq<seq<real>>)
    requires IsEnergyMap(e)
    ensures IsDPTable(e, t)
  {
    DPRows(e, |e|)
  }

  /** The path recovered by following parents up from (r, c) in table `t`: one column for each of rows 0..r. */
  function Trace(t: seq<seq<real>>, r: nat, c: nat): (p: seq<int>)
    requires r < |t| && c < |t[r]| && forall i :: 0 <= i < |t| ==> |t[i]| == |t[r]|
    ensures |p| == r + 1 && p[r] == c
  {
    if r == 0 then [c] else Trace(t, r - 1, BestParent(t[r - 1], c)) + [c]
  }

  /** A trace is a connected path inside the table's width. */
  lemma {:induction false} TraceIsPath(t: seq<seq<real>>, r: nat, c: nat)
    requires r < |t| && c < |t[r]| && forall i :: 0 <= i < |t| ==> |t[i]| == |t[r]|
    ensures IsPath(Trace(t, r, c), |t[r]|)
  {
    if r > 0 {
      var p := BestParent(t[r - 1], c);
      TraceIsPath(t, r - 1, p);
      var s, s' := Trace(t, r, c), Trace(t, r - 1, p);
      assert s == s' + [c];
    }
  }

  /** Each row of a trace is the parent of the row below it. */
  lemma {:induction false} TraceFollowsParents(t: seq<seq<real>>, r: nat, c: nat)
    requires r < |t| && c < |t[r]| && forall i :: 0 <= i < |t| ==> |t[i]| == |t[r]|
    ensures IsPath(Trace(t, r, c), |t[r]|)
    ensures forall i :: 0 < i <= r ==> Trace(t, r, c)[i - 1] == BestParent(t[i - 1], Trace(t, r, c)[i])
  {
    TraceIsPath(t, r, c);
    if r > 0 {
      var p := BestParent(t[r - 1], c);
      TraceFollowsParents(t, r - 1, p);
      var s, s' := Trace(t, r, c), Trace(t, r - 1, p);
      assert s == s' + [c];
      forall i | 0 < i <= r
        ensures s[i - 1] == BestParent(t[i - 1], s[i])
      {
        if i < r {
          assert s[i - 1] == s'[i - 1] && s[i] == s'[i];
        }
      }
    }
  }

  /** Index of the first minimum of `row[..n]`, as a left-to-right scan that moves only on strictly smaller finds it. */
  function FirstMin(row: seq<real>, n: nat): (k: nat)
    requires 1 <= n <= |row|
    ensures k < n
    ensures forall j :: 0 <= j < n ==> row[k] <= row[j]
    ensures forall j :: 0 <= j < k ==> row[j] > row[k]
  {
    if n == 1 then 0
    else
      var k := FirstMin(row, n - 1);
      if row[n - 1] < row[k] then n - 1 else k
  }

  /** The column where the seam ends: the leftmost minimum of the DP table's bottom row. */
  function SeamEnd(e: seq<seq<real>>): (k: nat)
    requires IsEnergyMap(e)
    ensures k < |e[0]|
  {
    FirstMin(DPTable(e)[|e| - 1], |e[0]|)
  }

  /** The seam the finder returns: traced back from the leftmost minimum of the bottom row. */
  function Seam(e: seq<seq<real>>): (s: seq<int>)
    requires IsEnergyMap(e)
    ensures IsSeam(e, s) && s[|e| - 1] == SeamEnd(e)
  {
    var t := DPTable(e);
    TraceIsPath(t, |e| - 1, SeamEnd(e));
    Trace(t, |e| - 1, SeamEnd(e))
  }

  /** The traced path costs exactly the DP value it was traced from. */
  lemma {:induction false} TraceCost(e: seq<seq<real>>, t: seq<seq<real>>, r: nat, c: nat)
    requires IsEnergyMap(e) && IsDPTable(e, t) && r < |e| && c < |e[0]|
    ensures InColumns(Trace(t, r, c), |e[0]|)
    ensures PathCost(e, Trace(t, r, c)) == t[r][c]
  {
    TraceIsPath(t, r, c);
    var s := Trace(t, r, c);
    if r > 0 {
      var p := BestParent(t[r - 1], c);
      var prefix := Trace(t, r - 1, p);
      assert s == prefix + [c];
      assert s[..r] == prefix;
      TraceCost(e, t, r - 1, p);
      assert t[r] == NextRow(e[r], t[r - 1]);
      assert t[r][c] == e[r][c] + t[r - 1][p];
    } else {
      assert s[..0] == [];
    }
  }

  /** The DP value at the end of any connected path from row 0 is at most the path's cost. */
  lemma {:induction false} DPIsMinimal(e: seq<seq<real>>, t: seq<seq<real>>, p: seq<int>)
    requires IsEnergyMap(e) && IsDPTable(e, t) && 1 <= |p| <= |e| && IsPath(p, |e[0]|)
    ensures t[|p| - 1][p[|p| - 1]] <= PathCost(e, p)
  {
    var r := |p| - 1;
    if r == 0 {
      assert p[..0] == [];
    } else {
      var q := p[..r];
      assert IsPath(q, |e[0]|);
      DPIsMinimal(e, t, q);
      assert q[r - 1] == p[r - 1];
      assert Adjacent(p[r - 1], p[r]);
      assert t[r] == NextRow(e[r], t[r - 1]);
      BestParentIsFirstMinimum(t[r - 1], p[r]);
    }
  }

  /**
   * The seam's energy equals the bottom-row DP value where it ends, which is the
   * leftmost minimum of that row, and no other seam costs less.
   */
  lemma SeamIsOptimal(e: seq<seq<real>>)
    requires IsEnergyMap(e)
    ensures var bottom, end := DPTable(e)[|e| - 1], SeamEnd(e);
      && PathCost(e, Seam(e)) == bottom[end]
      && (forall c :: 0 <= c < |e[0]| ==> bottom[end] <= bottom[c])
      && (forall c :: 0 <= c < end ==> bottom[end] < bottom[c])
    ensures forall p :: IsSeam(e, p) ==> PathCost(e, Seam(e)) <= PathCost(e, p)
  {
    var t := DPTable(e);
    var h := |e| - 1;
    TraceCost(e, t, h, SeamEnd(e));
    forall p | IsSeam(e, p)
      ensures PathCost(e, Seam(e)) <= PathCost(e, p)
    {
      DPIsMinimal(e, t, p);
    }
  }

  /** Fills the DP table and the parent table (-1 on the top row) row by row. */
  method FillTables(e: seq<seq<real>>) returns (dp: array2<real>, parent: array2<int>)
    requires IsEnergyMap(e)
    ensures dp.Length0 == parent.Length0 == |e| && dp.Length1 == parent.Length1 == |e[0]|
    ensures forall i, j :: 0 <= i < |e| && 0 <= j < |e[0]| ==> dp[i, j] == DPTable(e)[i][j]
    ensures forall j :: 0 <= j < |e[0]| ==> parent[0, j] == -1
    ensures forall i, j :: 0 < i < |e| && 0 <= j < |e[0]| ==> parent[i, j] == BestParent(DPTable(e)[i - 1], j)
  {
    var h, w := |e|, |e[0]|;
    ghost var t := DPTable(e);
    dp := new real[h, w];
    parent := new int[h, w];

    for c := 0 to w
      invariant forall j :: 0 <= j < c ==> dp[0, j] == t[0][j] && parent[0, j] == -1
    {
      dp[0, c] := e[0][c];
      parent[0, c] := -1;
    }

    for r := 1 to h
      invariant forall i, j :: 0 <= i < r && 0 <= j < w ==> dp[i, j] == t[i][j]
      invariant forall j :: 0 <= j < w ==> parent[0, j] == -1
      invariant forall i, j :: 0 < i < r && 0 <= j < w ==> parent[i, j] == BestParent(t[i - 1], j)
    {
      FillRow(e, t, dp, parent, r);
    }
  }

  /** Fills row r > 0 of both tables from row r - 1, with the straight-left-right tie-break. */
  method FillRow(e: seq<seq<real>>, ghost t: seq<seq<real>>, dp: array2<real>, parent: array2<int>, r: nat)
    requires IsEnergyMap(e) && IsDPTable(e, t) && 0 < r < |e|
    requires dp.Length0 == parent.Length0 == |e| && dp.Length1 == parent.Length1 == |e[0]|
    requires forall i, j :: 0 <= i < r && 0 <= j < |e[0]| ==> dp[i, j] == t[i][j]
    modifies dp, parent
    ensures forall j :: 0 <= j < |e[0]| ==> dp[r, j] == t[r][j] && parent[r, j] == BestParent(t[r - 1], j)
    ensures forall i, j :: 0 <= i < |e| && i != r && 0 <= j < |e[0]| ==>
      dp[i, j] == old(dp[i, j]) && parent[i, j] == old(parent[i, j])
  {
    var w := |e[0]|;
    assert t[r] == NextRow(e[r], t[r - 1]);
    for c := 0 to w
      invariant forall j :: 0 <= j < c ==> dp[r, j] == t[r][j] && parent[r, j] == BestParent(t[r - 1], j)
      invariant forall i, j :: 0 <= i < |e| && i != r && 0 <= j < w ==>
        dp[i, j] == old(dp[i, j]) && parent[i, j] == old(parent[i, j])
    {
      var bestVal := dp[r - 1, c];
      var bestCol := c;
      if c > 0 && dp[r - 1, c - 1] < bestVal {
        bestVal := dp[r - 1, c - 1];
        bestCol := c - 1;
      }
      if c < w - 1 && dp[r - 1, c + 1] < bestVal {
        bestVal := dp[r - 1, c + 1];
        bestCol := c + 1;
      }
      dp[r, c] := e[r][c] + bestVal;
      parent[r, c] := bestCol;
    }
  }

  /**
   * Fills the DP and parent tables, scans the bottom row for its leftmost
   * minimum and walks the parents back up, writing one column per row.
   */
  method FindVerticalSeam(e: seq<seq<real>>) returns (seam: seq<int>)
    requires IsEnergyMap(e)
    ensures seam == Seam(e)
    ensures IsSeam(e, seam)
    ensures forall p :: IsSeam(e, p) ==> PathCost(e, seam) <= PathCost(e, p)
  {
    var h, w := |e|, |e[0]|;
    var dp, parent := FillTables(e);
    ghost var t := DPTable(e);

    var minCol := LeftmostMinimum(dp, t[h - 1], h - 1);
    seam := Backtrace(parent, t, minCol);
    assert minCol == SeamEnd(e);
    SeamIsOptimal(e);
  }

  /** Scans row r of `dp`, which holds `row`, for its leftmost minimum. */
  method LeftmostMinimum(dp: array2<real>, ghost row: seq<real>, r: nat) returns (minCol: nat)
    requires r < dp.Length0 && 1 <= dp.Length1 == |row|
    requires forall j :: 0 <= j < |row| ==> dp[r, j] == row[j]
    ensures minCol == FirstMin(row, |row|)
  {
    minCol := 0;
    var minVal := dp[r, 0];
    for c := 1 to dp.Length1
      invariant minCol == FirstMin(row, c) && minVal == row[minCol]
    {
      if dp[r, c] < minVal {
        minVal := dp[r, c];
        minCol := c;
      }
    }
  }

  /** Walks the parent table up from (bottom row, c), writing one column per row until the sentinel -1. */
  method Backtrace(parent: array2<int>, ghost t: seq<seq<real>>, c: nat) returns (seam: seq<int>)
    requires |t| == parent.Length0 >= 1 && forall i :: 0 <= i < |t| ==> |t[i]| == parent.Length1
    requires c < parent.Length1
    requires forall j :: 0 <= j < parent.Length1 ==> parent[0, j] == -1
    requires forall i, j :: 0 < i < |t| && 0 <= j < parent.Length1 ==> parent[i, j] == BestParent(t[i - 1], j)
    ensures seam == Trace(t, |t| - 1, c)
  {
    var h := parent.Length0;
    ghost var s := Trace(t, h - 1, c);
    TraceFollowsParents(t, h - 1, c);
    var out := new int[h];
    var col := c;
    var r := h - 1;
    while r >= 0
      invariant 0 <= r < h
      invariant col == s[r]
      invariant forall i :: r < i < h ==> out[i] == s[i]
      decreases r
    {
      out[r] := col;
      col := parent[r, col];
      if col < 0 {
        break;
      }
      r := r - 1;
    }
    assert r == 0 && out[0] == s[0];
    seam := out[..];
    assert forall i :: 0 <= i < h ==> seam[i] == s[i];
  }
}
