/**
 * The pixel grid the chooser reads, its configuration, and the arithmetic
 * helpers (sums, means) shared by the other modules.
 */
module Grid {
  import opened Wrappers

  /** The derived attributes of one pixel, computed upstream. */
  datatype Pixel = Pixel(ndvi: real, ts: real, alpha: real, cloud: bool, waterTest: bool)

  /** A width x height grid of pixels stored row by row: (x, y) sits at x + y * width. */
  datatype Image = Image(width: nat, height: nat, pixels: seq<Pixel>)

  predicate ValidImage(img: Image)
  {
    |img.pixels| == img.width * img.height
  }

  /** The chooser's tunable parameters. */
  datatype Config = Config(
    clusterWidth: int,
    clusterHeight: int,
    maxCvForNdvi: real,
    maxInvalidNdviValues: int,
    minTotalWater: int,
    minLatWater: int,
    minLonWater: int,
    maxDiffFromTsMean: real,
    maxDiffFromAlbedoMean: real)

  /** The values used when no property overrides them. */
  const DefaultConfig: Config := Config(5, 5, 0.2, 10, 1, 1, 1, 0.2, 0.02)

  /** The tile loop advances by the cluster sizes, so it only terminates when both are positive. */
  predicate ValidConfig(cfg: Config)
  {
    cfg.clusterWidth >= 1 && cfg.clusterHeight >= 1
  }

  function Linear(x: int, y: int, width: int): int
  {
    x + y * width
  }

  function Min(a: int, b: int): int
  {
    if a <= b then a else b
  }

  /** Linear positions of in-grid cells lie in [0, width * height). */
  lemma LinearInGrid(x: int, y: int, w: int, h: int)
    requires 0 <= x < w && 0 <= y < h
    ensures 0 <= Linear(x, y, w) < w * h
  {
    assert y * w <= (h - 1) * w by { MulMonotone(y, h - 1, w); }
    assert (h - 1) * w + w == h * w;
  }

  /** Distinct in-grid cells have distinct linear positions. */
  lemma LinearInjective(x1: int, y1: int, x2: int, y2: int, w: int)
    requires 0 <= x1 < w && 0 <= x2 < w && 0 <= y1 && 0 <= y2
    requires Linear(x1, y1, w) == Linear(x2, y2, w)
    ensures x1 == x2 && y1 == y2
  {
    if y1 < y2 {
      MulMonotone(y1 + 1, y2, w);
    } else if y2 < y1 {
      MulMonotone(y2 + 1, y1, w);
    }
  }

  lemma MulMonotone(a: int, b: int, w: int)
    requires a <= b && 0 <= w
    ensures a * w <= b * w
  {
    assert b * w - a * w == (b - a) * w;
  }

  function PixelAt(img: Image, x: int, y: int): Pixel
    requires ValidImage(img) && 0 <= x < img.width && 0 <= y < img.height
  {
    LinearInGrid(x, y, img.width, img.height);
    img.pixels[Linear(x, y, img.width)]
  }

  /** The pixels found at the given linear positions, in that order. */
  function PixelsAt(pixels: seq<Pixel>, idx: seq<int>): (r: seq<Pixel>)
    requires forall k :: 0 <= k < |idx| ==> 0 <= idx[k] < |pixels|
    ensures |r| == |idx| && forall k :: 0 <= k < |idx| ==> r[k] == pixels[idx[k]]
  {
    seq(|idx|, k requires 0 <= k < |idx| => pixels[idx[k]])
  }

  /** Gathering two runs of positions one after the other concatenates the two gatherings. */
  lemma PixelsAtAppend(pixels: seq<Pixel>, a: seq<int>, b: seq<int>)
    requires forall k :: 0 <= k < |a| ==> 0 <= a[k] < |pixels|
    requires forall k :: 0 <= k < |b| ==> 0 <= b[k] < |pixels|
    ensures PixelsAt(pixels, a + b) == PixelsAt(pixels, a) + PixelsAt(pixels, b)
  {
  }

  /** Left-to-right sum, the order of Java's accumulation loops. */
  function Sum(v: seq<real>): real
  {
    if v == [] then 0.0 else Sum(v[..|v| - 1]) + v[|v| - 1]
  }

  /** The arithmetic mean; absent (Java's NaN from 0.0 / 0) for an empty array. */
  function MeanOf(v: seq<real>): Option<real>
  {
    if |v| == 0 then None else Some(Sum(v) / (|v| as real))
  }

  /** A sum of values bounded below and above by lo and hi lies between n * lo and n * hi. */
  lemma {:induction false} SumBounds(v: seq<real>, lo: real, hi: real)
    requires forall k :: 0 <= k < |v| ==> lo <= v[k] <= hi
    ensures (|v| as real) * lo <= Sum(v) <= (|v| as real) * hi
  {
    if v != [] {
      SumBounds(v[..|v| - 1], lo, hi);
    }
  }

  /** The mean of a non-empty array lies between its least and greatest possible element. */
  lemma MeanBounds(v: seq<real>, lo: real, hi: real)
    requires |v| > 0
    requires forall k :: 0 <= k < |v| ==> lo <= v[k] <= hi
    ensures MeanOf(v).Some? && lo <= MeanOf(v).value <= hi
  {
    SumBounds(v, lo, hi);
    var n := |v| as real;
    assert lo * n <= Sum(v) <= hi * n;
    assert lo <= Sum(v) / n by { assert (Sum(v) / n) * n == Sum(v); }
    assert Sum(v) / n <= hi by { assert (Sum(v) / n) * n == Sum(v); }
  }

  /** A mean of strictly positive values is strictly positive. */
  lemma {:induction false} SumPositive(v: seq<real>)
    requires |v| > 0 && forall k :: 0 <= k < |v| ==> v[k] > 0.0
    ensures Sum(v) > 0.0
  {
    if |v| > 1 {
      SumPositive(v[..|v| - 1]);
    }
  }

  lemma MeanPositive(v: seq<real>)
    requires |v| > 0 && forall k :: 0 <= k < |v| ==> v[k] > 0.0
    ensures MeanOf(v).Some? && MeanOf(v).value > 0.0
  {
    SumPositive(v);
  }

  /** calcMean: accumulate the total over the array, then divide by its length. */
  method CalcMean(values: array<real>) returns (mean: Option<real>)
    ensures mean == MeanOf(values[..])
  {
    var total := 0.0;
    var i := 0;
    while i < values.Length
      invariant 0 <= i <= values.Length
      invariant total == Sum(values[..i])
    {
      assert values[..i + 1][..i] == values[..i];
      total := total + values[i];
      i := i + 1;
    }
    assert values[..i] == values[..];
    if values.Length == 0 {
      mean := None;
    } else {
      mean := Some(total / (values.Length as real));
    }
  }

  /** The surface temperatures of a list of pixels, in order. */
  function TsValues(ps: seq<Pixel>): (r: seq<real>)
    ensures |r| == |ps| && forall k :: 0 <= k < |ps| ==> r[k] == ps[k].ts
  {
    seq(|ps|, k requires 0 <= k < |ps| => ps[k].ts)
  }

  /** The albedos of a list of pixels, in order. */
  function AlbedoValues(ps: seq<Pixel>): (r: seq<real>)
    ensures |r| == |ps| && forall k :: 0 <= k < |ps| ==> r[k] == ps[k].alpha
  {
    seq(|ps|, k requires 0 <= k < |ps| => ps[k].alpha)
  }

  /** A non-empty list has an entry no larger than any other (at lo) and one no smaller (at hi). */
  lemma {:induction false} Extremes(v: seq<real>) returns (lo: nat, hi: nat)
    requires |v| > 0
    ensures lo < |v| && hi < |v|
    ensures forall k :: 0 <= k < |v| ==> v[lo] <= v[k] <= v[hi]
  {
    if |v| == 1 {
      lo, hi := 0, 0;
    } else {
      var init := v[..|v| - 1];
      var l, h := Extremes(init);
      assert forall k :: 0 <= k < |init| ==> v[k] == init[k];
      lo := if v[|v| - 1] < v[l] then |v| - 1 else l;
      hi := if v[|v| - 1] > v[h] then |v| - 1 else h;
    }
  }

  /**
   * The mean Ts of a non-empty candidate list is defined and lies between the
   * Ts of its coldest candidate (at lo) and of its hottest one (at hi).
   */
  lemma TsMeanBetween(ps: seq<Pixel>) returns (lo: nat, hi: nat)
    requires |ps| > 0
    ensures lo < |ps| && hi < |ps| && forall k :: 0 <= k < |ps| ==> ps[lo].ts <= ps[k].ts <= ps[hi].ts
    ensures MeanOf(TsValues(ps)).Some? && ps[lo].ts <= MeanOf(TsValues(ps)).value <= ps[hi].ts
  {
    var v := TsValues(ps);
    lo, hi := Extremes(v);
    MeanBounds(v, v[lo], v[hi]);
  }

  /**
   * The mean albedo of a non-empty candidate list is defined and lies between
   * the smallest albedo (at lo) and the largest (at hi).
   */
  lemma AlbedoMeanBetween(ps: seq<Pixel>) returns (lo: nat, hi: nat)
    requires |ps| > 0
    ensures lo < |ps| && hi < |ps| && forall k :: 0 <= k < |ps| ==> ps[lo].alpha <= ps[k].alpha <= ps[hi].alpha
    ensures MeanOf(AlbedoValues(ps)).Some? && ps[lo].alpha <= MeanOf(AlbedoValues(ps)).value <= ps[hi].alpha
  {
    var v := AlbedoValues(ps);
    lo, hi := Extremes(v);
    MeanBounds(v, v[lo], v[hi]);
  }
}
