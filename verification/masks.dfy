/** The two image preparations of the image-processing route: making a white
    background transparent, and reducing a gray image to pure black and white. */
module Masks {
  import opened Raster

  /** An RGBA pixel, one value per channel. */
  datatype Rgba = Rgba(r: int, g: int, b: int, a: int)

  /** A channel value above this counts as white. */
  const WhiteAbove := 200

  predicate NearWhite(p: Rgba) {
    p.r > WhiteAbove && p.g > WhiteAbove && p.b > WhiteAbove
  }

  function ClearIfWhite(p: Rgba): Rgba {
    if NearWhite(p) then p.(a := 0) else p
  }

  /** `ai_remove_background`: near-white pixels get alpha 0; every colour
      channel, and the alpha of every other pixel, is left as it was. */
  function RemoveBackground(img: Image<Rgba>): (out: Image<Rgba>)
    requires img.Valid()
    ensures out.Valid() && out.width == img.width && out.height == img.height
    ensures forall x, y :: img.InBounds(x, y) ==>
      var p, q := img.At(x, y), out.At(x, y);
      q.r == p.r && q.g == p.g && q.b == p.b &&
      (NearWhite(p) ==> q.a == 0) && (!NearWhite(p) ==> q.a == p.a)
  {
    MapPixels(img, ClearIfWhite)
  }

  /** Removing the background twice is the same as removing it once, and a
      pixel ends up transparent exactly when it was near-white or already
      transparent. */
  lemma RemoveBackgroundIdempotent(img: Image<Rgba>)
    requires img.Valid()
    ensures RemoveBackground(RemoveBackground(img)) == RemoveBackground(img)
    ensures forall x, y :: img.InBounds(x, y) ==>
      (RemoveBackground(img).At(x, y).a == 0 <==> NearWhite(img.At(x, y)) || img.At(x, y).a == 0)
  {
    var once := RemoveBackground(img);
    var twice := RemoveBackground(once);
    assert twice.rows == once.rows by {
      assert |twice.rows| == |once.rows|;
      forall y | 0 <= y < img.height ensures twice.rows[y] == once.rows[y] {
        forall x | 0 <= x < img.width ensures twice.rows[y][x] == once.rows[y][x] {
          assert twice.At(x, y) == once.At(x, y);
        }
      }
    }
  }

  /** Black or white for one gray value: black (0) below the threshold. */
  function TwoLevel(threshold: real): int -> int {
    v => if (v as real) < threshold then 0 else 255
  }

  /** `ai_convert_bw` after the blur: every pixel below the threshold becomes 0,
      every other pixel 255. `ai_convert_bw` takes the image mean as the
      threshold; here it is a parameter. */
  function ConvertBw(img: Image<int>, threshold: real): (out: Image<int>)
    requires img.Valid()
    ensures out.Valid() && out.width == img.width && out.height == img.height
    ensures forall x, y :: img.InBounds(x, y) ==>
      (out.At(x, y) == 0 <==> (img.At(x, y) as real) < threshold) &&
      (out.At(x, y) == 0 || out.At(x, y) == 255)
  {
    MapPixels(img, TwoLevel(threshold))
  }

  /** A black-and-white image is a fixed point of conversion with any threshold
      in (0, 255]: converting again changes nothing. */
  lemma ConvertBwStable(img: Image<int>, t: real, t': real)
    requires img.Valid() && 0.0 < t' <= 255.0
    ensures ConvertBw(ConvertBw(img, t), t') == ConvertBw(img, t)
  {
    var once := ConvertBw(img, t);
    var twice := ConvertBw(once, t');
    assert twice.rows == once.rows by {
      forall y | 0 <= y < img.height ensures twice.rows[y] == once.rows[y] {
        forall x | 0 <= x < img.width ensures twice.rows[y][x] == once.rows[y][x] {
          assert twice.At(x, y) == once.At(x, y);
        }
      }
    }
  }
}
