/** Images as integer matrices and integer image points. */
module Images {

  /** A numpy image: a matrix whose rows all have the same length.  A pixel is one integer
      (a grey level, or a packed colour for colour frames). */
  type Image = m: seq<seq<int>> | IsRectangular(m) witness []

  predicate IsRectangular(m: seq<seq<int>>) {
    forall i :: 0 <= i < |m| ==> |m[i]| == |m[0]|
  }

  /** img.shape[0] */
  function Height(img: Image): nat {
    |img|
  }

  /** img.shape[1]; an image without rows is taken to have no columns. */
  function Width(img: Image): nat {
    if |img| == 0 then 0 else |img[0]|
  }

  /** A pixel coordinate (x to the right, y downwards), as OpenCV uses. */
  datatype Point = Point(x: int, y: int)
}
