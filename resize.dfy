/**
 * The resizing program: validate the requested size, carve vertical seams down
 * to the target width, then horizontal seams down to the target height, and
 * name the result after the input path.
 */
module Resize {
  import opened Grid
  import opened Carver
  import opened OutputPath

  datatype Result<T> = Success(value: T) | Failure(error: string)

  /**
   * The checks made before carving: the image must be non-empty and the target
   * width and height must each be positive and no larger than the current size.
   */
  predicate ValidTarget(img: seq<seq<Pixel>>, targetW: int, targetH: int)
  {
    |img| >= 1 && Width(img) >= 1 && 0 < targetW <= Width(img) && 0 < targetH <= |img|
  }

  /** The carved image: `cols - targetW` vertical steps, then `rows - targetH` horizontal ones. */
  ghost function Resized(img: seq<seq<Pixel>>, targetW: int, targetH: int, root: nat -> real): (out: seq<seq<Pixel>>)
    requires IsGrid(img, |img|, Width(img)) && ValidTarget(img, targetW, targetH)
    ensures IsGrid(out, targetH, targetW)
  {
    var narrowed := VerticalCarve(img, Width(img) - targetW, root);
    HorizontalCarve(narrowed, |img| - targetH, root)
  }

  /**
   * Loads nothing and saves nothing: given the decoded image, the requested
   * size and the input path, returns the carved image and the path it is saved
   * under, or an error when the request is invalid.
   */
  method Run(img: seq<seq<Pixel>>, path: string, targetW: int, targetH: int, root: nat -> real)
    returns (r: Result<(seq<seq<Pixel>>, string)>)
    requires IsGrid(img, |img|, Width(img))
    ensures r.Failure? <==> !ValidTarget(img, targetW, targetH)
    ensures r.Success? ==> r.value == (Resized(img, targetW, targetH, root), ResizedPath(path))
    ensures r.Success? ==> IsGrid(r.value.0, targetH, targetW)
  {
    if |img| == 0 || Width(img) == 0 {
      return Failure("Could not load image");
    }
    if targetW <= 0 || targetH <= 0 || targetW > Width(img) || targetH > |img| {
      return Failure("Invalid target dimensions");
    }
    var result := CarveVertical(img, targetW, root);
    result := CarveHorizontal(result, targetH, root);
    r := Success((result, ResizedPath(path)));
  }

  /** Asking for the image's own size carves nothing. */
  lemma ResizedToOwnSize(img: seq<seq<Pixel>>, root: nat -> real)
    requires IsGrid(img, |img|, Width(img)) && |img| >= 1 && Width(img) >= 1
    ensures Resized(img, Width(img), |img|, root) == img
  {
    VerticalCarveNone(img, root);
    HorizontalCarveNone(img, root);
  }
}
