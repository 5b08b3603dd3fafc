/** The outline extraction of the upload route: the gray image is binarised
    against a threshold and every ink pixel that touches the background or the
    image border through one of its 8 neighbours is reported, in row-major
    order. */
module Edges {
  import opened Geometry
  import opened Raster

  /** Ink is 1, background is 0. */
  function BinaryValue(threshold: int): int -> int {
    v => if v < threshold then 1 else 0
  }

  /** `(arr < threshold).astype(np.uint8)`. */
  function Binarize(img: Image<int>, threshold: int): (bin: Image<int>)
    requires img.Valid()
    ensures bin.Valid() && bin.width == img.width && bin.height == img.height
    ensures forall x, y :: img.InBounds(x, y) ==>
      (bin.At(x, y) == 1 <==> img.At(x, y) < threshold) &&
      (bin.At(x, y) == 0 || bin.At(x, y) == 1)
  {
    MapPixels(img, BinaryValue(threshold))
  }

  /** The neighbour offsets, in the order `image_to_binary_points` probes them. */
  const Neighbours: seq<(int, int)> := [(-1, 0), (1, 0), (0, -1), (0, 1), (-1, -1), (-1, 1), (1, -1), (1, 1)]

  /** Position `(nx, ny)` is outside the image or background. */
  predicate Open(bin: Image<int>, nx: int, ny: int)
    requires bin.Valid()
  {
    !bin.InBounds(nx, ny) || bin.At(nx, ny) == 0
  }

  /** The neighbour loop from offset `k` on: stops at the first offset that
      leads outside the image or onto background. */
  function ProbeFrom(bin: Image<int>, x: int, y: int, k: nat): (edge: bool)
    requires bin.Valid()
    ensures edge <==> exists j :: k <= j < |Neighbours| && Open(bin, x + Neighbours[j].0, y + Neighbours[j].1)
    decreases |Neighbours| - k
  {
    if k >= |Neighbours| then false
    else
      var (dx, dy) := Neighbours[k];
      if Open(bin, x + dx, y + dy) then true else ProbeFrom(bin, x, y, k + 1)
  }

  /** `(nx, ny)` is one of the 8 positions around `(x, y)`. */
  predicate Adjacent(x: int, y: int, nx: int, ny: int) {
    -1 <= nx - x <= 1 && -1 <= ny - y <= 1 && (nx != x || ny != y)
  }

  /** The edge test stated geometrically: some position of the 8-neighbourhood
      is outside the image or background. */
  ghost predicate IsEdge(bin: Image<int>, x: int, y: int)
    requires bin.Valid()
  {
    exists nx, ny :: Adjacent(x, y, nx, ny) && Open(bin, nx, ny)
  }

  /** The offset table is exactly the 8-neighbourhood, so the probing loop
      decides the geometric edge test. */
  lemma ProbeDecidesEdge(bin: Image<int>, x: int, y: int)
    requires bin.Valid()
    ensures ProbeFrom(bin, x, y, 0) <==> IsEdge(bin, x, y)
  {
    if ProbeFrom(bin, x, y, 0) {
      var j :| 0 <= j < |Neighbours| && Open(bin, x + Neighbours[j].0, y + Neighbours[j].1);
      OffsetAdjacent(x, y, j);
    }
    if IsEdge(bin, x, y) {
      var nx, ny :| Adjacent(x, y, nx, ny) && Open(bin, nx, ny);
      var j := OffsetIndex(nx - x, ny - y);
      assert x + Neighbours[j].0 == nx && y + Neighbours[j].1 == ny;
    }
  }

  /** Every offset of the table leads to an adjacent position. */
  lemma OffsetAdjacent(x: int, y: int, j: int)
    requires 0 <= j < |Neighbours|
    ensures Adjacent(x, y, x + Neighbours[j].0, y + Neighbours[j].1)
  {
  }

  /** Where an offset of the 8-neighbourhood sits in the table. */
  function OffsetIndex(dx: int, dy: int): (j: nat)
    requires -1 <= dx <= 1 && -1 <= dy <= 1 && (dx != 0 || dy != 0)
    ensures j < |Neighbours| && Neighbours[j] == (dx, dy)
  {
    if dy == 0 then (if dx == -1 then 0 else 1)
    else if dx == 0 then (if dy == -1 then 2 else 3)
    else if dx == -1 then (if dy == -1 then 4 else 5)
    else (if dy == -1 then 6 else 7)
  }

  /** An ink pixel that is reported. */
  ghost predicate IsEdgePixel(bin: Image<int>, p: Point)
    requires bin.Valid()
  {
    bin.InBounds(p.x, p.y) && bin.At(p.x, p.y) == 1 && IsEdge(bin, p.x, p.y)
  }

  /** Strict row-major order: by row, then by column. */
  predicate RowMajorBefore(p: Point, q: Point) {
    p.y < q.y || (p.y == q.y && p.x < q.x)
  }

  /** The edge pixels of row `y` from column `x` on. */
  function EdgeRow(bin: Image<int>, y: int, x: nat): (r: seq<Point>)
    requires bin.Valid() && 0 <= y < bin.height
    ensures forall p :: p in r <==> p.y == y && x <= p.x && IsEdgePixel(bin, p)
    ensures forall i :: 0 <= i < |r| ==> r[i].y == y
    ensures forall i, j :: 0 <= i < j < |r| ==> r[i].x < r[j].x
    decreases bin.width - x
  {
    if x >= bin.width then []
    else
      var rest := EdgeRow(bin, y, x + 1);
      if bin.At(x, y) == 1 && ProbeFrom(bin, x, y, 0) then
        ProbeDecidesEdge(bin, x, y);
        [Point(x, y)] + rest
      else
        ProbeDecidesEdge(bin, x, y);
        rest
  }

  /** The edge pixels of rows `y` and below, row by row. */
  function EdgeRows(bin: Image<int>, y: nat): (r: seq<Point>)
    requires bin.Valid()
    ensures forall p :: p in r <==> y <= p.y && IsEdgePixel(bin, p)
    ensures forall i :: 0 <= i < |r| ==> y <= r[i].y
    ensures forall i, j :: 0 <= i < j < |r| ==> RowMajorBefore(r[i], r[j])
    decreases bin.height - y
  {
    if y >= bin.height then [] else EdgeRow(bin, y, 0) + EdgeRows(bin, y + 1)
  }

  /** `image_to_binary_points` after any resizing: the edge points and the image
      size `(width, height)`. */
  function ImageToBinaryPoints(img: Image<int>, threshold: int): (r: (seq<Point>, (nat, nat)))
    requires img.Valid()
    ensures r.1 == (img.width, img.height)
    ensures forall p :: p in r.0 <==>
      img.InBounds(p.x, p.y) && img.At(p.x, p.y) < threshold && IsEdge(Binarize(img, threshold), p.x, p.y)
    ensures forall i, j :: 0 <= i < j < |r.0| ==> RowMajorBefore(r.0[i], r.0[j])
  {
    (EdgeRows(Binarize(img, threshold), 0), (img.width, img.height))
  }

  /** Every returned point is ink. */
  lemma EdgePointsAreInk(img: Image<int>, threshold: int, i: int)
    requires img.Valid() && 0 <= i < |ImageToBinaryPoints(img, threshold).0|
    ensures var p := ImageToBinaryPoints(img, threshold).0[i];
      img.InBounds(p.x, p.y) && Binarize(img, threshold).At(p.x, p.y) == 1
  {
    var pts := ImageToBinaryPoints(img, threshold).0;
    assert pts[i] in pts;
  }

  /** An ink pixel on the image border is always returned. */
  lemma BorderInkIsEdge(img: Image<int>, threshold: int, x: int, y: int)
    requires img.Valid() && img.InBounds(x, y) && img.At(x, y) < threshold
    requires x == 0 || y == 0 || x == img.width - 1 || y == img.height - 1
    ensures Point(x, y) in ImageToBinaryPoints(img, threshold).0
  {
    var bin := Binarize(img, threshold);
    if x == 0 {
      assert Adjacent(x, y, x - 1, y) && Open(bin, x - 1, y);
    } else if y == 0 {
      assert Adjacent(x, y, x, y - 1) && Open(bin, x, y - 1);
    } else if x == img.width - 1 {
      assert Adjacent(x, y, x + 1, y) && Open(bin, x + 1, y);
    } else {
      assert Adjacent(x, y, x, y + 1) && Open(bin, x, y + 1);
    }
  }

  /** An ink pixel whose 8 neighbours all lie inside the image and are ink is
      not returned. */
  lemma InteriorInkIsNotEdge(img: Image<int>, threshold: int, x: int, y: int)
    requires img.Valid() && img.InBounds(x, y)
    requires forall nx, ny :: Adjacent(x, y, nx, ny) ==> img.InBounds(nx, ny) && img.At(nx, ny) < threshold
    ensures Point(x, y) !in ImageToBinaryPoints(img, threshold).0
  {
    var bin := Binarize(img, threshold);
    forall nx, ny | Adjacent(x, y, nx, ny) ensures !Open(bin, nx, ny) {
      assert img.InBounds(nx, ny) && img.At(nx, ny) < threshold;
    }
  }

  /** No point is returned twice. */
  lemma EdgePointsDistinct(img: Image<int>, threshold: int, i: int, j: int)
    requires img.Valid() && 0 <= i < j < |ImageToBinaryPoints(img, threshold).0|
    ensures ImageToBinaryPoints(img, threshold).0[i] != ImageToBinaryPoints(img, threshold).0[j]
  {
  }
}
