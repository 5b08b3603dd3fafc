/** The path construction of the upload route, up to the simplification step:
    edge points are grouped by row and each row is replaced by one vertex at
    the mean column of its points. */
module Paths {
  import opened Geometry

  /** One vertex of the unsimplified path: `[avg_x, y]`. */
  datatype PathPoint = PathPoint(x: real, y: int)

  /** The rows that hold at least one point (the keys of `rows`). */
  function Ys(pts: seq<Point>): set<int> {
    set p | p in pts :: p.y
  }

  /** The rows a path visits. */
  function PathYs(path: seq<PathPoint>): set<int> {
    set q | q in path :: q.y
  }

  /** Number of points in row `y`. */
  function RowCount(pts: seq<Point>, y: int): (n: nat)
    ensures n > 0 <==> y in Ys(pts)
    ensures n <= |pts|
  {
    if |pts| == 0 then 0
    else (if pts[0].y == y then 1 else 0) + RowCount(pts[1..], y)
  }

  /** Sum of the columns of the points in row `y`. */
  function RowSum(pts: seq<Point>, y: int): int {
    if |pts| == 0 then 0
    else (if pts[0].y == y then pts[0].x else 0) + RowSum(pts[1..], y)
  }

  /** `sum(xs) / len(xs)` for row `y`, computed exactly. */
  function RowMean(pts: seq<Point>, y: int): real
    requires y in Ys(pts)
  {
    RowSum(pts, y) as real / RowCount(pts, y) as real
  }

  /** The smallest row index present. */
  function MinY(pts: seq<Point>): (m: int)
    requires |pts| > 0
    ensures m in Ys(pts)
    ensures forall p :: p in pts ==> m <= p.y
  {
    if |pts| == 1 then pts[0].y
    else
      var m := MinY(pts[1..]);
      assert pts[1..][0] in pts[1..];
      if pts[0].y <= m then pts[0].y else m
  }

  /** The points outside row `y`, in order. */
  function Without(pts: seq<Point>, y: int): (r: seq<Point>)
    ensures |r| + RowCount(pts, y) == |pts|
    ensures forall p :: p in r <==> p in pts && p.y != y
    ensures forall y' :: y' != y ==> RowCount(r, y') == RowCount(pts, y') && RowSum(r, y') == RowSum(pts, y')
  {
    if |pts| == 0 then []
    else
      var rest := Without(pts[1..], y);
      if pts[0].y == y then rest
      else
        var r := [pts[0]] + rest;
        assert r[1..] == rest;
        r
  }

  /** The path before simplification: one vertex per distinct row, rows in
      ascending order, each at the mean column of that row's points. */
  function RowPath(pts: seq<Point>): (r: seq<PathPoint>)
    ensures |r| == 0 <==> |pts| == 0
    ensures forall i, j :: 0 <= i < j < |r| ==> r[i].y < r[j].y
    ensures PathYs(r) == Ys(pts)
    ensures forall i :: 0 <= i < |r| ==> r[i].y in Ys(pts) && r[i].x == RowMean(pts, r[i].y)
    decreases |pts|
  {
    if |pts| == 0 then []
    else
      var y := MinY(pts);
      var w := Without(pts, y);
      var rest := RowPath(w);
      WithoutRows(pts, y);
      forall i | 0 <= i < |rest| ensures rest[i].y in Ys(pts) && y < rest[i].y && rest[i].x == RowMean(pts, rest[i].y) {
        KeptRowMean(pts, y, rest[i].y);
      }
      PrependRow(pts, y, rest);
      [PathPoint(RowMean(pts, y), y)] + rest
  }

  /** The inductive step of `RowPath`: the lowest row's vertex in front of the
      path of the remaining rows. */
  lemma PrependRow(pts: seq<Point>, y: int, rest: seq<PathPoint>)
    requires y in Ys(pts)
    requires forall i, j :: 0 <= i < j < |rest| ==> rest[i].y < rest[j].y
    requires PathYs(rest) == Ys(pts) - {y}
    requires forall i :: 0 <= i < |rest| ==> rest[i].y in Ys(pts) && y < rest[i].y && rest[i].x == RowMean(pts, rest[i].y)
    ensures var r := [PathPoint(RowMean(pts, y), y)] + rest;
      && (forall i, j :: 0 <= i < j < |r| ==> r[i].y < r[j].y)
      && PathYs(r) == Ys(pts)
      && (forall i :: 0 <= i < |r| ==> r[i].y in Ys(pts) && r[i].x == RowMean(pts, r[i].y))
  {
    var r := [PathPoint(RowMean(pts, y), y)] + rest;
    assert forall i :: 0 < i < |r| ==> r[i] == rest[i - 1];
    assert PathYs(r) == {y} + PathYs(rest);
  }

  /** A row other than `y` has the same mean with or without row `y`. */
  lemma KeptRowMean(pts: seq<Point>, y: int, y': int)
    requires y' in Ys(Without(pts, y)) && forall p :: p in pts ==> y <= p.y
    ensures y' in Ys(pts) && y < y' && RowMean(Without(pts, y), y') == RowMean(pts, y')
  {
    var w := Without(pts, y);
    var p :| p in w && p.y == y';
    assert p in pts;
    assert RowSum(w, y') == RowSum(pts, y') && RowCount(w, y') == RowCount(pts, y');
  }

  /** Removing row `y` removes exactly that row and keeps every other row's
      statistics. */
  lemma WithoutRows(pts: seq<Point>, y: int)
    requires y in Ys(pts) && forall p :: p in pts ==> y <= p.y
    ensures Ys(Without(pts, y)) == Ys(pts) - {y}
  {
    var w := Without(pts, y);
    forall y' | y' in Ys(pts) - {y} ensures y' in Ys(w) {
      var p :| p in pts && p.y == y';
      assert p in w;
    }
  }

  /** There are exactly as many vertices as distinct rows. */
  lemma {:induction false} RowPathLength(pts: seq<Point>)
    ensures |RowPath(pts)| == |Ys(pts)|
    decreases |pts|
  {
    if |pts| > 0 {
      var y := MinY(pts);
      var w := Without(pts, y);
      RowPathLength(w);
      WithoutRows(pts, y);
      assert RowPath(pts) == [PathPoint(RowMean(pts, y), y)] + RowPath(w);
    }
  }
}
