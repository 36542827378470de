/**
 * Dual-gradient energy of an image with toroidal (wrap-around) neighbours.
 * The square root is a floating-point library call; it is a parameter `root`
 * here, applied to the exact integer `dx + dy`.
 */
module Energy {
  import opened Grid

  /** Neighbour before index `i` along an axis of length `n`: the first index wraps to the last. */
  function Prev(i: nat, n: nat): nat
    requires i < n
  {
    if i == 0 then n - 1 else i - 1
  }

  /** Neighbour after index `i` along an axis of length `n`: the last index wraps to the first. */
  function Next(i: nat, n: nat): nat
    requires i < n
  {
    if i == n - 1 then 0 else i + 1
  }

  /** Neighbours wrap around: each index is the modular successor or predecessor. */
  lemma NeighboursWrap(i: nat, n: nat)
    requires i < n
    ensures Prev(i, n) == (i + n - 1) % n && Prev(i, n) < n
    ensures Next(i, n) == (i + 1) % n && Next(i, n) < n
    ensures i == 0 ==> Prev(i, n) == n - 1
    ensures i == n - 1 ==> Next(i, n) == 0
  {
    if i == 0 {
      ModOfSmall(n - 1, n);
    } else {
      ModOfShifted(i - 1, n);
    }
    if i == n - 1 {
      ModOfShifted(0, n);
    } else {
      ModOfSmall(i + 1, n);
    }
  }

  lemma ModOfSmall(x: nat, n: nat)
    requires x < n
    ensures x % n == x
  {
  }

  lemma ModOfShifted(x: nat, n: nat)
    requires x < n
    ensures (x + n) % n == x
  {
  }

  function Square(x: int): nat
  {
    x * x
  }

  /** Sum over the three channels of the squared difference. */
  function SquaredDistance(p: Pixel, q: Pixel): nat
  {
    Square(p.c0 - q.c0) + Square(p.c1 - q.c1) + Square(p.c2 - q.c2)
  }

  /**
   * The integer part of the energy of pixel (r, c): dx + dy, with dx taken
   * between the left and right neighbours and dy between the upper and lower ones.
   */
  function Gradient(img: seq<seq<Pixel>>, r: nat, c: nat): nat
    requires IsGrid(img, |img|, Width(img)) && r < |img| && c < Width(img)
  {
    var h, w := |img|, Width(img);
    var dx := SquaredDistance(img[r][Next(c, w)], img[r][Prev(c, w)]);
    var dy := SquaredDistance(img[Next(r, h)][c], img[Prev(r, h)][c]);
    dx + dy
  }

  /** The gradient is zero exactly when both pairs of opposite neighbours have equal colours. */
  lemma GradientZeroIff(img: seq<seq<Pixel>>, r: nat, c: nat)
    requires IsGrid(img, |img|, Width(img)) && r < |img| && c < Width(img)
    ensures Gradient(img, r, c) == 0 <==>
      img[r][Prev(c, Width(img))] == img[r][Next(c, Width(img))] && img[Prev(r, |img|)][c] == img[Next(r, |img|)][c]
  {
    var h, w := |img|, Width(img);
    SquaredDistanceZeroIff(img[r][Next(c, w)], img[r][Prev(c, w)]);
    SquaredDistanceZeroIff(img[Next(r, h)][c], img[Prev(r, h)][c]);
  }

  /** Two pixels are at squared distance zero exactly when they are equal. */
  lemma SquaredDistanceZeroIff(p: Pixel, q: Pixel)
    ensures SquaredDistance(p, q) == 0 <==> p == q
  {
    SquareZeroIff(p.c0 - q.c0);
    SquareZeroIff(p.c1 - q.c1);
    SquareZeroIff(p.c2 - q.c2);
  }

  lemma SquareZeroIff(x: int)
    ensures Square(x) == 0 <==> x == 0
  {
    if x > 0 {
      assert Square(x) >= x;
    } else if x < 0 {
      assert Square(x) >= -x;
    }
  }

  /** The energy map: one value per pixel, the root of the pixel's gradient. */
  function EnergyMap(img: seq<seq<Pixel>>, root: nat -> real): (e: seq<seq<real>>)
    requires IsGrid(img, |img|, Width(img))
    ensures IsGrid(e, |img|, Width(img))
    ensures forall r, c {:trigger e[r][c]} :: 0 <= r < |img| && 0 <= c < Width(img) ==> e[r][c] == root(Gradient(img, r, c))
  {
    seq(|img|, r requires 0 <= r < |img| =>
      seq(Width(img), c requires 0 <= c < Width(img) => root(Gradient(img, r, c))))
  }

  /** Every entry of the energy map is non-negative when the root is. */
  lemma EnergyNonNegative(img: seq<seq<Pixel>>, root: nat -> real)
    requires IsGrid(img, |img|, Width(img))
    requires forall n: nat :: root(n) >= 0.0
    ensures forall r, c :: 0 <= r < |img| && 0 <= c < Width(img) ==> EnergyMap(img, root)[r][c] >= 0.0
  {
  }

  /** An image whose pixels all have one colour has zero energy everywhere. */
  lemma UniformImageHasZeroEnergy(img: seq<seq<Pixel>>, root: nat -> real, p: Pixel)
    requires IsGrid(img, |img|, Width(img))
    requires forall r, c :: 0 <= r < |img| && 0 <= c < Width(img) ==> img[r][c] == p
    requires root(0) == 0.0
    ensures forall r, c :: 0 <= r < |img| && 0 <= c < Width(img) ==> EnergyMap(img, root)[r][c] == 0.0
  {
    forall r, c | 0 <= r < |img| && 0 <= c < Width(img)
      ensures Gradient(img, r, c) == 0
    {
      NeighboursWrap(r, |img|);
      NeighboursWrap(c, Width(img));
      GradientZeroIff(img, r, c);
    }
  }

  /** Fills the energy map row by row, cell by cell. */
  method CalculateEnergy(img: seq<seq<Pixel>>, root: nat -> real) returns (energy: seq<seq<real>>)
    requires IsGrid(img, |img|, Width(img))
    ensures energy == EnergyMap(img, root)
  {
    var h, w := |img|, Width(img);
    energy := [];
    for r := 0 to h
      invariant |energy| == r
      invariant forall i :: 0 <= i < r ==> energy[i] == EnergyMap(img, root)[i]
    {
      var row := new real[w];
      for c := 0 to w
        invariant forall j :: 0 <= j < c ==> row[j] == root(Gradient(img, r, j))
      {
        var up := if r == 0 then h - 1 else r - 1;
        var down := if r == h - 1 then 0 else r + 1;
        var left := if c == 0 then w - 1 else c - 1;
        var right := if c == w - 1 then 0 else c + 1;
        var dx := SquaredDistance(img[r][right], img[r][left]);
        var dy := SquaredDistance(img[down][c], img[up][c]);
        row[c] := root(dx + dy);
      }
      energy := energy + [row[..]];
    }
  }
}
