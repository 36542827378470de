/** Images as rectangular grids of pixels, and the transpose used for horizontal carving. */
module Grid {

  /** One 8-bit colour channel. */
  type Channel = x: int | 0 <= x < 256

  /** A three-channel colour pixel; the channel order is opaque to the algorithm. */
  datatype Pixel = Pixel(c0: Channel, c1: Channel, c2: Channel)

  /** `g` has exactly `h` rows, each of exactly `w` cells. */
  ghost predicate IsGrid<T>(g: seq<seq<T>>, h: nat, w: nat)
  {
    |g| == h && forall r :: 0 <= r < h ==> |g[r]| == w
  }

  /** Number of columns of a grid (0 for a grid without rows). */
  function Width<T>(g: seq<seq<T>>): nat
  {
    if |g| == 0 then 0 else |g[0]|
  }

  /** Rows and columns swapped: cell (r, c) of `g` is cell (c, r) of the result. */
  function Transpose<T>(g: seq<seq<T>>): (t: seq<seq<T>>)
    requires IsGrid(g, |g|, Width(g))
    ensures IsGrid(t, Width(g), |g|)
    ensures forall c, r {:trigger t[c][r]} :: 0 <= c < Width(g) && 0 <= r < |g| ==> t[c][r] == g[r][c]
  {
    seq(Width(g), c requires 0 <= c < Width(g) => seq(|g|, r requires 0 <= r < |g| => g[r][c]))
  }

  /** Transposing twice gives back any grid that has at least one column. */
  lemma TransposeTwice<T>(g: seq<seq<T>>)
    requires IsGrid(g, |g|, Width(g)) && Width(g) >= 1
    ensures Transpose(Transpose(g)) == g
  {
    var t := Transpose(g);
    var tt := Transpose(t);
    assert Width(t) == |g|;
    forall r | 0 <= r < |g|
      ensures tt[r] == g[r]
    {
      assert |tt[r]| == Width(g) == |g[r]|;
    }
  }
}
