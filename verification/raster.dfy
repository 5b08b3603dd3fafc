/** A decoded raster, as the imaging library hands it to the core as an array. */
module Raster {

  /** `rows[y][x]` is the pixel in column `x` of row `y`; `width` and `height`
      are the image size `(width, height)`. */
  datatype Image<T> = Image(width: nat, height: nat, rows: seq<seq<T>>) {

    /** The pixel array is rectangular and matches the declared size. */
    predicate Valid() {
      |rows| == height && forall y :: 0 <= y < height ==> |rows[y]| == width
    }

    predicate InBounds(x: int, y: int) {
      0 <= x < width && 0 <= y < height
    }

    function At(x: int, y: int): T
      requires Valid() && InBounds(x, y)
    {
      rows[y][x]
    }
  }

  /** Applies `f` to every pixel (numpy's element-wise operations). */
  function MapPixels<T, U>(img: Image<T>, f: T -> U): (r: Image<U>)
    requires img.Valid()
    ensures r.Valid() && r.width == img.width && r.height == img.height
    ensures forall x, y :: img.InBounds(x, y) ==> r.At(x, y) == f(img.At(x, y))
  {
    Image(img.width, img.height,
      seq(img.height, y requires 0 <= y < img.height =>
        seq(img.width, x requires 0 <= x < img.width => f(img.rows[y][x]))))
  }
}
