/** The stitch-program emission of the image-processing route: each sampled
    point becomes a stitch, a jump to the same point is inserted first when the
    needle would travel more than 20 units, and the program is closed by one end
    command. */
module Emitter {
  import opened Geometry
  import opened Results

  /** Travel longer than this many units is done as a jump. */
  const JumpGap := 20

  /** A needle command, as added to the embroidery pattern. */
  datatype Command = Jump(x: int, y: int) | Stitch(x: int, y: int) | End

  function SquaredDistance(a: Point, b: Point): int {
    (b.x - a.x) * (b.x - a.x) + (b.y - a.y) * (b.y - a.y)
  }

  /** The square of a length. */
  ghost function Square(d: real): real {
    d * d
  }

  /** A non-negative length whose square is `s` exceeds 20 exactly when `s`
      exceeds 400. */
  lemma LengthThreshold(s: int)
    ensures forall d :: d >= 0.0 && Square(d) == s as real ==> (d > JumpGap as real <==> s > JumpGap * JumpGap)
  {
    var g := JumpGap as real;
    forall d | d >= 0.0 && Square(d) == s as real
      ensures d > g <==> s > JumpGap * JumpGap
    {
      assert d * d - g * g == (d - g) * (d + g);
      if d > g {
        ProductPositive(d - g, d + g);
      } else {
        ProductNonNegative(g - d, d + g);
      }
    }
  }

  /** `math.hypot(dx, dy) > 20`, stated without a square root: for every
      non-negative `d` whose square is the squared distance, `d > 20` exactly
      when the points are far apart. A point is never far from itself, and a
      move of more than 20 along one axis is always far. */
  predicate FarApart(a: Point, b: Point): (far: bool)
    ensures far ==> a != b
    ensures b.x - a.x > JumpGap || a.x - b.x > JumpGap || b.y - a.y > JumpGap || a.y - b.y > JumpGap ==> far
    ensures forall d :: d >= 0.0 && Square(d) == SquaredDistance(a, b) as real ==> (d > JumpGap as real <==> far)
  {
    LengthThreshold(SquaredDistance(a, b));
    SquaredDistance(a, b) > JumpGap * JumpGap
  }

  /** For integer points the squared test agrees with the Euclidean distance:
      whenever `d` is the (non-negative) length of the segment `ab`, `d > 20`
      holds exactly when `FarApart(a, b)` does. */
  lemma FarApartIsEuclidean(a: Point, b: Point, d: real)
    requires d >= 0.0 && d * d == SquaredDistance(a, b) as real
    ensures d > JumpGap as real <==> FarApart(a, b)
  {
    assert Square(d) == d * d;
  }

  lemma ProductPositive(a: real, b: real)
    requires a > 0.0 && b > 0.0
    ensures a * b > 0.0
  {
  }

  lemma ProductNonNegative(a: real, b: real)
    requires a >= 0.0 && b >= 0.0
    ensures a * b >= 0.0
  {
  }

  /** The commands for `pts`, given the previously stitched point, if any
      (`last_point`); the closing end command is not included. */
  function EmitFrom(pts: seq<Point>, last: Option<Point>): (r: seq<Command>)
    ensures forall k :: 0 <= k < |r| ==> !r[k].End?
    ensures forall k :: 0 <= k < |r| && r[k].Jump? ==> k + 1 < |r| && r[k + 1] == Stitch(r[k].x, r[k].y)
    ensures |pts| > 0 && last.None? ==> |r| > 0 && r[0] == Stitch(pts[0].x, pts[0].y)
    ensures |pts| == 0 <==> |r| == 0
  {
    if |pts| == 0 then []
    else
      var p := pts[0];
      var step := if last.Some? && FarApart(last.value, p) then [Jump(p.x, p.y), Stitch(p.x, p.y)]
                  else [Stitch(p.x, p.y)];
      step + EmitFrom(pts[1..], Some(p))
  }

  /** The program for the sampled points: the emitted commands followed by `end`. */
  function Emit(pts: seq<Point>): (r: seq<Command>)
    ensures EndsOnce(r)
    ensures JumpsLand(r)
    ensures |pts| > 0 ==> r[0] == Stitch(pts[0].x, pts[0].y)
    ensures |pts| == 0 ==> r == [End]
  {
    EmitFrom(pts, None) + [End]
  }

  /** Exactly one end command, and it is the last. */
  predicate EndsOnce(cmds: seq<Command>) {
    |cmds| > 0 && cmds[|cmds| - 1] == End && forall k :: 0 <= k < |cmds| - 1 ==> !cmds[k].End?
  }

  /** Every jump is immediately followed by a stitch at the point jumped to. */
  predicate JumpsLand(cmds: seq<Command>) {
    forall k :: 0 <= k < |cmds| && cmds[k].Jump? ==> k + 1 < |cmds| && cmds[k + 1] == Stitch(cmds[k].x, cmds[k].y)
  }

  /** A stitch as the machine performs it: where, and whether the needle jumped
      there first. */
  datatype Visit = Visit(at: Point, jumped: bool)

  /** Reads a command list back as the machine executes it: one visit per
      stitch, flagged when the command before it is a jump. */
  function Trace(cmds: seq<Command>, afterJump: bool): seq<Visit>
  {
    if |cmds| == 0 then []
    else match cmds[0]
      case Stitch(x, y) => [Visit(Point(x, y), afterJump)] + Trace(cmds[1..], false)
      case Jump(_, _) => Trace(cmds[1..], true)
      case End => Trace(cmds[1..], false)
  }

  /** Point `i` of `pts` is reached by a jump: a previous point exists and is
      more than 20 units away. */
  predicate JumpBefore(pts: seq<Point>, i: int)
    requires 0 <= i < |pts|
  {
    i > 0 && FarApart(pts[i - 1], pts[i])
  }

  /** The visits a program for `pts` must make: every point once, in order,
      jumped to exactly when it is far from its predecessor. */
  function Intended(pts: seq<Point>): seq<Visit> {
    seq(|pts|, i requires 0 <= i < |pts| => Visit(pts[i], JumpBefore(pts, i)))
  }

  lemma {:induction false} TraceFrom(pts: seq<Point>, last: Option<Point>)
    ensures Trace(EmitFrom(pts, last) + [End], false) ==
      if |pts| == 0 then []
      else [Visit(pts[0], last.Some? && FarApart(last.value, pts[0]))] + Intended(pts)[1..]
    decreases |pts|
  {
    var s := EmitFrom(pts, last) + [End];
    if |pts| == 0 {
      assert s == [End];
    } else {
      var p := pts[0];
      var rest := EmitFrom(pts[1..], Some(p)) + [End];
      TraceFrom(pts[1..], Some(p));
      var far := last.Some? && FarApart(last.value, p);
      if far {
        assert s == [Jump(p.x, p.y), Stitch(p.x, p.y)] + rest;
        assert s[1..] == [Stitch(p.x, p.y)] + rest;
        assert s[1..][1..] == rest;
      } else {
        assert s == [Stitch(p.x, p.y)] + rest;
        assert s[1..] == rest;
      }
      assert Trace(s, false) == [Visit(p, far)] + Trace(rest, false);
      if |pts| > 1 {
        assert Intended(pts)[1..] == [Visit(pts[1], FarApart(p, pts[1]))] + Intended(pts[1..])[1..];
      }
    }
  }

  /** The emitted program makes exactly the intended visits: one stitch per
      input point, at its coordinates and in input order, preceded by a jump
      exactly when a previous point exists and lies more than 20 units away. */
  lemma EmitMakesIntendedVisits(pts: seq<Point>)
    ensures Trace(Emit(pts), false) == Intended(pts)
  {
    TraceFrom(pts, None);
    if |pts| > 0 {
      assert Intended(pts) == [Intended(pts)[0]] + Intended(pts)[1..];
    }
  }
}
