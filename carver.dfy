/**
 * The carving loops: vertical seams are removed one at a time until the target
 * width is reached; horizontal seams by transposing, removing one vertical seam
 * and transposing back, once per removed row.
 */
module Carver {
  import opened Grid
  import opened Energy
  import opened SeamFinder
  import opened SeamRemoval

  /** A rectangular image with at least one row. */
  ghost predicate IsImage(img: seq<seq<Pixel>>)
  {
    IsGrid(img, |img|, Width(img)) && |img| >= 1
  }

  /** One vertical carving step: energy, seam, removal. */
  function VerticalStep(img: seq<seq<Pixel>>, root: nat -> real): (out: seq<seq<Pixel>>)
    requires IsImage(img) && Width(img) >= 1
    ensures IsGrid(out, |img|, Width(img) - 1)
  {
    var e := EnergyMap(img, root);
    RemovedShape(img, Seam(e));
    Removed(img, Seam(e))
  }

  /**
   * `run` records a vertical carving run from `img`: entry i is the image after
   * i steps, and each entry is one vertical step applied to the one before.
   */
  ghost predicate IsVerticalRun(img: seq<seq<Pixel>>, run: seq<seq<seq<Pixel>>>, root: nat -> real)
    requires IsImage(img)
  {
    && 1 <= |run| <= Width(img) + 1
    && run[0] == img
    && (forall i :: 0 <= i < |run| ==> IsGrid(run[i], |img|, Width(img) - i))
    && (forall i, j {:trigger run[i], run[j]} :: 0 <= i < |run| && j == i + 1 && j < |run| ==> run[j] == VerticalStep(run[i], root))
  }

  /** A run not yet at full width extends by one more step. */
  lemma RunExtends(img: seq<seq<Pixel>>, run: seq<seq<seq<Pixel>>>, root: nat -> real)
    requires IsImage(img) && IsVerticalRun(img, run, root) && |run| <= Width(img)
    ensures IsVerticalRun(img, run + [VerticalStep(run[|run| - 1], root)], root)
  {
    var k := |run|;
    var next := run + [VerticalStep(run[k - 1], root)];
    forall i | 0 <= i <= k
      ensures IsGrid(next[i], |img|, Width(img) - i)
    {
      if i < k {
        assert next[i] == run[i];
      }
    }
    forall i, j | 0 <= i <= k && j == i + 1 && j <= k
      ensures next[j] == VerticalStep(next[i], root)
    {
      assert next[i] == run[i];
      if j < k {
        assert next[j] == run[j];
      }
    }
  }

  /** Every non-empty prefix of a run is a run. */
  lemma RunPrefix(img: seq<seq<Pixel>>, run: seq<seq<seq<Pixel>>>, n: nat, root: nat -> real)
    requires IsImage(img) && IsVerticalRun(img, run, root) && 1 <= n <= |run|
    ensures IsVerticalRun(img, run[..n], root)
  {
    var prefix := run[..n];
    forall i | 0 <= i < n
      ensures IsGrid(prefix[i], |img|, Width(img) - i)
    {
      assert prefix[i] == run[i];
    }
    forall i, j | 0 <= i < n && j == i + 1 && j < n
      ensures prefix[j] == VerticalStep(prefix[i], root)
    {
      assert prefix[i] == run[i] && prefix[j] == run[j];
    }
  }

  /** A run of any length up to the width exists: keep stepping. */
  lemma {:induction false} VerticalRunExists(img: seq<seq<Pixel>>, k: nat, root: nat -> real)
    requires IsImage(img) && k <= Width(img)
    ensures exists run :: IsVerticalRun(img, run, root) && |run| == k + 1
  {
    if k == 0 {
      assert IsVerticalRun(img, [img], root);
    } else {
      VerticalRunExists(img, k - 1, root);
      var run :| IsVerticalRun(img, run, root) && |run| == k;
      RunExtends(img, run, root);
      assert IsVerticalRun(img, run + [VerticalStep(run[k - 1], root)], root);
    }
  }

  /** The image after `k` vertical carving steps: the last entry of a run of length k + 1. */
  ghost function VerticalCarve(img: seq<seq<Pixel>>, k: nat, root: nat -> real): (out: seq<seq<Pixel>>)
    requires IsImage(img) && k <= Width(img)
    ensures IsGrid(out, |img|, Width(img) - k)
  {
    VerticalRunExists(img, k, root);
    var run :| IsVerticalRun(img, run, root) && |run| == k + 1;
    run[k]
  }

  /** Two runs from the same image agree wherever both are defined. */
  lemma {:induction false} RunsAgree(img: seq<seq<Pixel>>, a: seq<seq<seq<Pixel>>>, b: seq<seq<seq<Pixel>>>, root: nat -> real, n: nat)
    requires IsImage(img) && IsVerticalRun(img, a, root) && IsVerticalRun(img, b, root) && n < |a| && n < |b|
    ensures a[n] == b[n]
  {
    if n > 0 {
      RunsAgree(img, a, b, root, n - 1);
      assert a[n] == VerticalStep(a[n - 1], root);
      assert b[n] == VerticalStep(b[n - 1], root);
    }
  }

  /** Every run ends at the carve of its length. */
  lemma VerticalCarveIsRunEnd(img: seq<seq<Pixel>>, run: seq<seq<seq<Pixel>>>, root: nat -> real)
    requires IsImage(img) && IsVerticalRun(img, run, root)
    ensures VerticalCarve(img, |run| - 1, root) == run[|run| - 1]
  {
    var k := |run| - 1;
    var other :| IsVerticalRun(img, other, root) && |other| == k + 1 && other[k] == VerticalCarve(img, k, root);
    RunsAgree(img, run, other, root, k);
  }

  /** No vertical step leaves the image as it is. */
  lemma VerticalCarveNone(img: seq<seq<Pixel>>, root: nat -> real)
    requires IsImage(img)
    ensures VerticalCarve(img, 0, root) == img
  {
  }

  /** Each further vertical step is one more energy-seam-removal round. */
  lemma VerticalCarveStep(img: seq<seq<Pixel>>, k: nat, root: nat -> real)
    requires IsImage(img) && k < Width(img)
    ensures VerticalCarve(img, k + 1, root) == VerticalStep(VerticalCarve(img, k, root), root)
  {
    VerticalRunExists(img, k + 1, root);
    var run :| IsVerticalRun(img, run, root) && |run| == k + 2;
    VerticalCarveIsRunEnd(img, run, root);
    RunPrefix(img, run, k + 1, root);
    VerticalCarveIsRunEnd(img, run[..k + 1], root);
    assert run[..k + 1][k] == run[k];
    assert run[k + 1] == VerticalStep(run[k], root);
  }

  /** One horizontal carving step: transpose, one vertical step, transpose back. */
  function HorizontalStep(img: seq<seq<Pixel>>, root: nat -> real): (out: seq<seq<Pixel>>)
    requires IsImage(img) && Width(img) >= 1
    ensures IsGrid(out, |img| - 1, Width(img))
  {
    Transpose(VerticalStep(Transpose(img), root))
  }

  /**
   * The image after `k` horizontal carving steps, defined as `k` vertical steps
   * on the transposed image, transposed back.
   */
  ghost function HorizontalCarve(img: seq<seq<Pixel>>, k: nat, root: nat -> real): (out: seq<seq<Pixel>>)
    requires IsImage(img) && Width(img) >= 1 && k <= |img|
    ensures IsGrid(out, |img| - k, Width(img))
  {
    Transpose(VerticalCarve(Transpose(img), k, root))
  }

  /** No horizontal step leaves the image as it is. */
  lemma HorizontalCarveNone(img: seq<seq<Pixel>>, root: nat -> real)
    requires IsImage(img) && Width(img) >= 1
    ensures HorizontalCarve(img, 0, root) == img
  {
    VerticalCarveNone(Transpose(img), root);
    TransposeTwice(img);
  }

  /**
   * Transposing around every single removal, as the horizontal loop does, gives
   * the same image as transposing once around the whole vertical loop.
   */
  lemma HorizontalCarveStep(img: seq<seq<Pixel>>, k: nat, root: nat -> real)
    requires IsImage(img) && Width(img) >= 1 && k < |img|
    ensures HorizontalCarve(img, k + 1, root) == HorizontalStep(HorizontalCarve(img, k, root), root)
  {
    var y := VerticalCarve(Transpose(img), k, root);
    VerticalCarveStep(Transpose(img), k, root);
    TransposeTwice(y);
  }

  /** Number of removals a loop runs: `original - target`, or none when that is not positive. */
  function Removals(original: nat, target: int): nat
  {
    if original > target then original - target else 0
  }

  /** One vertical step: energy map, optimal seam, removal. */
  method CarveOnce(img: seq<seq<Pixel>>, root: nat -> real) returns (out: seq<seq<Pixel>>)
    requires IsImage(img) && Width(img) >= 1
    ensures out == VerticalStep(img, root)
  {
    var energy := CalculateEnergy(img, root);
    var seam := FindVerticalSeam(energy);
    out := RemoveVerticalSeam(img, seam);
  }

  /**
   * Removes `cols - targetW` vertical seams, recomputing the energy each time.
   * A target at or above the width removes nothing.
   */
  method CarveVertical(img: seq<seq<Pixel>>, targetW: int, root: nat -> real) returns (result: seq<seq<Pixel>>)
    requires IsImage(img) && targetW >= 0
    ensures result == VerticalCarve(img, Removals(Width(img), targetW), root)
    ensures IsGrid(result, |img|, if targetW < Width(img) then targetW else Width(img))
  {
    VerticalCarveNone(img, root);
    result := img;
    var total := Width(result) - targetW;
    var removed := 0;
    while removed < total
      invariant 0 <= removed <= Removals(Width(img), targetW)
      invariant result == VerticalCarve(img, removed, root)
    {
      VerticalCarveStep(img, removed, root);
      result := CarveOnce(result, root);
      removed := removed + 1;
    }
    assert removed == Removals(Width(img), targetW);
  }

  /**
   * Removes `rows - targetH` horizontal seams; each iteration transposes the
   * image, removes one vertical seam and transposes back.
   */
  method CarveHorizontal(img: seq<seq<Pixel>>, targetH: int, root: nat -> real) returns (result: seq<seq<Pixel>>)
    requires IsImage(img) && Width(img) >= 1 && targetH >= 0
    ensures result == HorizontalCarve(img, Removals(|img|, targetH), root)
    ensures IsGrid(result, if targetH < |img| then targetH else |img|, Width(img))
  {
    HorizontalCarveNone(img, root);
    result := img;
    var total := |result| - targetH;
    var removed := 0;
    while removed < total
      invariant 0 <= removed <= Removals(|img|, targetH)
      invariant result == HorizontalCarve(img, removed, root)
    {
      HorizontalCarveStep(img, removed, root);
      result := Transpose(result);
      result := CarveOnce(result, root);
      result := Transpose(result);
      removed := removed + 1;
    }
    assert removed == Removals(|img|, targetH);
  }
}
