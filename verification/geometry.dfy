/** Coordinates: integer pixel/stitch positions and real-valued path vertices. */
module Geometry {

  /** An integer position; origin top-left, y grows downward. */
  datatype Point = Point(x: int, y: int)

  /** A real-valued vertex, as carried by a path after averaging or simplification. */
  datatype Vertex = Vertex(x: real, y: real)

  /** `n` is `r` with its fractional part dropped: the integer between 0 and `r`
      that is less than one away from `r`. At most one integer qualifies. */
  predicate TowardZero(r: real, n: int) {
    && (r >= 0.0 ==> 0 <= n && n as real <= r)
    && (r < 0.0 ==> r <= n as real && n <= 0)
    && r - 1.0 < n as real < r + 1.0
  }

  /** Python's `int()` on a float: truncation toward zero. */
  function Trunc(r: real): (n: int)
    ensures TowardZero(r, n)
  {
    if r >= 0.0 then r.Floor else -((-r).Floor)
  }

  /** Both coordinates of a vertex truncated, as `int(p['x']), int(p['y'])`. */
  function Truncated(v: Vertex): (p: Point)
    ensures TowardZero(v.x, p.x) && TowardZero(v.y, p.y)
  {
    Point(Trunc(v.x), Trunc(v.y))
  }

  /** Every vertex truncated, in order. */
  function TruncateAll(vs: seq<Vertex>): (ps: seq<Point>)
    ensures |ps| == |vs|
    ensures forall i :: 0 <= i < |vs| ==> TowardZero(vs[i].x, ps[i].x) && TowardZero(vs[i].y, ps[i].y)
    ensures forall i :: 0 <= i < |vs| ==> ps[i] == Truncated(vs[i])
  {
    seq(|vs|, i requires 0 <= i < |vs| => Truncated(vs[i]))
  }

  lemma TruncateAllCons(vs: seq<Vertex>)
    requires |vs| > 0
    ensures TruncateAll(vs) == [Truncated(vs[0])] + TruncateAll(vs[1..])
  {
  }
}
