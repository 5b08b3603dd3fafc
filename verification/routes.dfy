/** The pure cores of the two routes, composed: sampled fill points to a stitch
    program, and edge points to the unsimplified path. */
module Routes {
  import opened Geometry
  import opened Raster
  import Sampler
  import Emitter
  import Masks
  import Edges
  import Paths

  /** The stitch program built from a gray image: sample, then emit. */
  function StitchProgram(img: Image<int>): (cmds: seq<Emitter.Command>)
    requires img.Valid()
    ensures Emitter.EndsOnce(cmds) && Emitter.JumpsLand(cmds)
  {
    Emitter.Emit(Sampler.Sample(img))
  }

  /** The number of stitches in the program. */
  function StitchCount(cmds: seq<Emitter.Command>): nat {
    if |cmds| == 0 then 0 else (if cmds[0].Stitch? then 1 else 0) + StitchCount(cmds[1..])
  }

  lemma {:induction false} StitchCountIsTraceLength(cmds: seq<Emitter.Command>, afterJump: bool)
    ensures StitchCount(cmds) == |Emitter.Trace(cmds, afterJump)|
    decreases |cmds|
  {
    if |cmds| > 0 {
      StitchCountIsTraceLength(cmds[1..], false);
      StitchCountIsTraceLength(cmds[1..], true);
    }
  }

  /** The program stitches once per dark grid cell. */
  lemma StitchesPerDarkCell(img: Image<int>)
    requires img.Valid()
    ensures StitchCount(StitchProgram(img)) == |Sampler.DarkCells(img)|
  {
    var pts := Sampler.Sample(img);
    Emitter.EmitMakesIntendedVisits(pts);
    StitchCountIsTraceLength(Emitter.Emit(pts), false);
    Sampler.SampleCount(img);
  }

  /** After the black-and-white conversion, the sampler keeps exactly the grid
      cells whose original gray value was below the conversion threshold
      (for any threshold, since 0 is dark and 255 is not). */
  lemma SampleAfterBw(img: Image<int>, t: real, p: Point)
    requires img.Valid()
    ensures Sampler.IsDarkCell(Masks.ConvertBw(img, t), p) <==>
      Sampler.OnGrid(img, p) && (img.At(p.x, p.y) as real) < t
  {
  }

  /** The upload route up to simplification: edge points, then the row path. */
  function OutlinePath(img: Image<int>, threshold: int): (path: seq<Paths.PathPoint>)
    requires img.Valid()
    ensures |path| <= img.height
    ensures forall i, j :: 0 <= i < j < |path| ==> path[i].y < path[j].y
    ensures forall i :: 0 <= i < |path| ==> 0 <= path[i].y < img.height
  {
    var pts := Edges.ImageToBinaryPoints(img, threshold).0;
    var path := Paths.RowPath(pts);
    assert forall i :: 0 <= i < |path| ==> 0 <= path[i].y < img.height by {
      forall i | 0 <= i < |path| ensures 0 <= path[i].y < img.height {
        var p :| p in pts && p.y == path[i].y;
      }
    }
    RowsBounded(path, img.height);
    path
  }

  /** A path with strictly increasing rows inside `[0, h)` has at most `h` vertices. */
  lemma {:induction false} RowsBounded(path: seq<Paths.PathPoint>, h: nat)
    requires forall i, j :: 0 <= i < j < |path| ==> path[i].y < path[j].y
    requires forall i :: 0 <= i < |path| ==> 0 <= path[i].y < h
    ensures |path| <= h
    decreases |path|
  {
    if |path| > 0 {
      var last := |path| - 1;
      var init := path[..last];
      assert forall i :: 0 <= i < |init| ==> init[i] == path[i];
      RowsBounded(init, path[last].y);
    }
  }
}
