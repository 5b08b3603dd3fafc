/** The stitch-point extraction of the image-processing route: the gray image is
    walked on a 4-pixel grid, dark cells become fill points, and every odd grid
    row is reversed so the needle snakes back and forth. */
module Sampler {
  import opened Geometry
  import opened Raster
  import opened Seqs

  /** Grid spacing in pixels. */
  const Step := 4
  /** A cell is dark when its gray value is below this. */
  const DarkBelow := 128

  /** `p` is a grid cell inside the image. */
  predicate OnGrid(img: Image<int>, p: Point) {
    img.InBounds(p.x, p.y) && p.x % Step == 0 && p.y % Step == 0
  }

  /** `p` is a grid cell whose gray value is dark: exactly the cells that are kept. */
  predicate IsDarkCell(img: Image<int>, p: Point)
    requires img.Valid()
  {
    OnGrid(img, p) && img.At(p.x, p.y) < DarkBelow
  }

  /** Row `y` is traversed right to left: `(y // step) % 2 == 1`. */
  predicate Reversed(y: int) {
    (y / Step) % 2 == 1
  }

  /** The snake order: rows top to bottom, each row left to right or right to
      left by its parity. */
  predicate SnakeBefore(p: Point, q: Point) {
    p.y < q.y || (p.y == q.y && if Reversed(p.y) then q.x < p.x else p.x < q.x)
  }

  /** The dark cells of row `y` from column `x` on, left to right. */
  function ScanRow(img: Image<int>, y: int, x: nat): (r: seq<Point>)
    requires img.Valid() && 0 <= y < img.height && y % Step == 0 && x % Step == 0
    ensures forall p :: p in r <==> p.y == y && x <= p.x && IsDarkCell(img, p)
    ensures forall i :: 0 <= i < |r| ==> r[i].y == y
    ensures forall i, j :: 0 <= i < j < |r| ==> r[i].x < r[j].x
    decreases img.width - x
  {
    if x >= img.width then []
    else
      var rest := ScanRow(img, y, x + Step);
      if img.At(x, y) < DarkBelow then [Point(x, y)] + rest else rest
  }

  /** The points of one grid row as emitted: the dark cells of the row, in the
      row's snake direction. */
  function RowPoints(img: Image<int>, y: int): (r: seq<Point>)
    requires img.Valid() && 0 <= y < img.height && y % Step == 0
    ensures forall p :: p in r <==> p.y == y && IsDarkCell(img, p)
    ensures forall i :: 0 <= i < |r| ==> r[i].y == y
    ensures forall i, j :: 0 <= i < j < |r| ==> SnakeBefore(r[i], r[j])
  {
    var row := ScanRow(img, y, 0);
    if Reversed(y) then
      ReverseElements(row);
      ReverseDescends(row);
      Reverse(row)
    else
      row
  }

  /** A row scanned left to right, reversed, runs right to left. */
  lemma ReverseDescends(row: seq<Point>)
    requires forall i, j :: 0 <= i < j < |row| ==> row[i].x < row[j].x
    ensures forall i, j :: 0 <= i < j < |row| ==> Reverse(row)[j].x < Reverse(row)[i].x
  {
  }

  /** All grid rows from row `y` downward, concatenated. */
  function SampleFrom(img: Image<int>, y: nat): (r: seq<Point>)
    requires img.Valid() && y % Step == 0
    ensures forall p :: p in r <==> y <= p.y && IsDarkCell(img, p)
    ensures forall i :: 0 <= i < |r| ==> y <= r[i].y
    ensures forall i, j :: 0 <= i < j < |r| ==> SnakeBefore(r[i], r[j])
    decreases img.height - y
  {
    if y >= img.height then []
    else
      var row := RowPoints(img, y);
      var rest := SampleFrom(img, y + Step);
      RowsInSnakeOrder(row, rest, y);
      row + rest
  }

  /** A row followed by the rows below it is still in snake order. */
  lemma RowsInSnakeOrder(row: seq<Point>, rest: seq<Point>, y: int)
    requires forall i :: 0 <= i < |row| ==> row[i].y == y
    requires forall i, j :: 0 <= i < j < |row| ==> SnakeBefore(row[i], row[j])
    requires forall i :: 0 <= i < |rest| ==> y < rest[i].y
    requires forall i, j :: 0 <= i < j < |rest| ==> SnakeBefore(rest[i], rest[j])
    ensures forall i, j :: 0 <= i < j < |row + rest| ==> SnakeBefore((row + rest)[i], (row + rest)[j])
  {
    var r := row + rest;
    forall i, j | 0 <= i < j < |r| ensures SnakeBefore(r[i], r[j]) {
      if j < |row| {
        assert r[i] == row[i] && r[j] == row[j];
      } else if i < |row| {
        assert r[i] == row[i] && r[j] == rest[j - |row|];
      } else {
        assert r[i] == rest[i - |row|] && r[j] == rest[j - |row|];
      }
    }
  }

  /** `stitchPoints`: the fill points of the whole image. */
  function Sample(img: Image<int>): (r: seq<Point>)
    requires img.Valid()
    ensures forall p :: p in r <==> IsDarkCell(img, p)
    ensures forall i, j :: 0 <= i < j < |r| ==> SnakeBefore(r[i], r[j])
  {
    SampleFrom(img, 0)
  }

  /** The dark grid cells of the image, as a set. */
  function DarkCells(img: Image<int>): set<Point>
    requires img.Valid()
  {
    set x, y | 0 <= x < img.width && 0 <= y < img.height && IsDarkCell(img, Point(x, y)) :: Point(x, y)
  }

  /** Every sampled point is a grid cell inside the image, on the 4-pixel lattice. */
  lemma SampleOnGrid(img: Image<int>, i: int)
    requires img.Valid() && 0 <= i < |Sample(img)|
    ensures var p := Sample(img)[i];
      p.x % Step == 0 && p.y % Step == 0 && 0 <= p.x < img.width && 0 <= p.y < img.height
  {
    assert Sample(img)[i] in Sample(img);
  }

  /** Each dark cell is sampled exactly once, and the number of points equals
      the number of dark grid cells. */
  lemma SampleCount(img: Image<int>)
    requires img.Valid()
    ensures Distinct(Sample(img))
    ensures Elements(Sample(img)) == DarkCells(img)
    ensures |Sample(img)| == |DarkCells(img)|
  {
    var s := Sample(img);
    assert Distinct(s) by {
      forall i, j | 0 <= i < j < |s| ensures s[i] != s[j] {
        assert SnakeBefore(s[i], s[j]);
      }
    }
    assert Elements(s) == DarkCells(img) by {
      forall p | p in DarkCells(img) ensures p in Elements(s) {
        assert IsDarkCell(img, p);
      }
    }
    DistinctCardinality(s);
  }

  /** Rows come out top to bottom; inside a row, x grows on even grid rows and
      shrinks on odd ones. */
  lemma SampleOrder(img: Image<int>, i: int, j: int)
    requires img.Valid() && 0 <= i < j < |Sample(img)|
    ensures var p, q := Sample(img)[i], Sample(img)[j];
      p.y <= q.y &&
      (p.y == q.y && (p.y / Step) % 2 == 0 ==> p.x < q.x) &&
      (p.y == q.y && (p.y / Step) % 2 == 1 ==> p.x > q.x)
  {
  }
}
