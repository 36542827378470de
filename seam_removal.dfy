/** Removing one vertical seam: each row loses the pixel in the seam's column. */
module SeamRemoval {
  import opened Grid

  /** A column index for every row of an h-row, w-column image. */
  ghost predicate IsSeamFor(seam: seq<int>, h: nat, w: nat)
  {
    |seam| == h && forall r :: 0 <= r < h ==> 0 <= seam[r] < w
  }

  /** Row `row` without its pixel at column `k`. */
  function RowWithout<T>(row: seq<T>, k: nat): (out: seq<T>)
    requires k < |row|
    ensures |out| == |row| - 1
    ensures forall c {:trigger out[c]} :: 0 <= c < k ==> out[c] == row[c]
    ensures forall c {:trigger out[c]} :: k <= c < |row| - 1 ==> out[c] == row[c + 1]
  {
    row[..k] + row[k + 1..]
  }

  /** The image with the seam removed. */
  function Removed<T>(img: seq<seq<T>>, seam: seq<int>): (out: seq<seq<T>>)
    requires IsGrid(img, |img|, Width(img)) && IsSeamFor(seam, |img|, Width(img))
    ensures |out| == |img| && forall r {:trigger out[r]} :: 0 <= r < |img| ==> out[r] == RowWithout(img[r], seam[r])
  {
    seq(|img|, r requires 0 <= r < |img| => RowWithout(img[r], seam[r]))
  }

  /** Puts the pixel `p` back into `row` at column `k`. */
  function RowWith<T>(row: seq<T>, k: nat, p: T): (out: seq<T>)
    requires k <= |row|
  {
    row[..k] + [p] + row[k..]
  }

  /**
   * Removal loses exactly the seam pixels: putting each removed pixel back at
   * its seam column rebuilds the original row, and each row keeps the multiset
   * of its pixels minus the removed one.
   */
  lemma RemovedLosesOnlySeam<T>(img: seq<seq<T>>, seam: seq<int>, r: nat)
    requires IsGrid(img, |img|, Width(img)) && IsSeamFor(seam, |img|, Width(img)) && r < |img|
    ensures RowWith(Removed(img, seam)[r], seam[r], img[r][seam[r]]) == img[r]
    ensures multiset(Removed(img, seam)[r]) + multiset{img[r][seam[r]]} == multiset(img[r])
  {
    var row, k := img[r], seam[r];
    assert row == row[..k] + [row[k]] + row[k + 1..];
  }

  /** The removed image has one column fewer and the same number of rows. */
  lemma RemovedShape<T>(img: seq<seq<T>>, seam: seq<int>)
    requires IsGrid(img, |img|, Width(img)) && |img| >= 1 && IsSeamFor(seam, |img|, Width(img))
    ensures IsGrid(Removed(img, seam), |img|, Width(img) - 1)
  {
  }

  /**
   * Copies each row into a new row one pixel shorter: the columns before the
   * seam unchanged, the columns after it shifted left by one.
   */
  method RemoveVerticalSeam(img: seq<seq<Pixel>>, seam: seq<int>) returns (out: seq<seq<Pixel>>)
    requires IsGrid(img, |img|, Width(img)) && IsSeamFor(seam, |img|, Width(img))
    ensures out == Removed(img, seam)
  {
    var h, w := |img|, Width(img);
    out := [];
    for r := 0 to h
      invariant |out| == r
      invariant forall i :: 0 <= i < r ==> out[i] == RowWithout(img[i], seam[i])
    {
      var row := new Pixel[w - 1](_ => Pixel(0, 0, 0));
      var colRemoveIdx := seam[r];
      for c := 0 to colRemoveIdx
        invariant forall j :: 0 <= j < c ==> row[j] == img[r][j]
      {
        row[c] := img[r][c];
      }
      for c := colRemoveIdx + 1 to w
        invariant forall j :: 0 <= j < colRemoveIdx ==> row[j] == img[r][j]
        invariant forall j :: colRemoveIdx <= j < c - 1 ==> row[j] == img[r][j + 1]
      {
        row[c - 1] := img[r][c];
      }
      out := out + [row[..]];
    }
  }
}
