/**
 * The NDVI homogeneity test of one cluster: count the invalid pixels (cloud or
 * NDVI <= 0), give up with the sentinel value 1 as soon as that count reaches
 * the limit, otherwise take the coefficient of variation (sample standard
 * deviation over mean) of the valid NDVI values.
 *
 * The coefficient is kept as the pair (variance, mean) so that no square root
 * is needed: "sd / mean < c" is decided on the pair by AcceptsRatio, and
 * RatioTestIsQuotientTest proves that this is the same comparison.
 */
module Homogeneity {
  import opened Grid

  /** A pixel that does not feed the statistic. */
  predicate Invalid(p: Pixel)
  {
    p.cloud || p.ndvi <= 0.0
  }

  /** How many pixels of the cluster are invalid. */
  function InvalidCount(ps: seq<Pixel>): nat
  {
    if ps == [] then 0 else InvalidCount(ps[..|ps| - 1]) + (if Invalid(ps[|ps| - 1]) then 1 else 0)
  }

  /** The NDVI values of the valid pixels, in cluster order. */
  function ValidNdvis(ps: seq<Pixel>): seq<real>
  {
    if ps == [] then []
    else ValidNdvis(ps[..|ps| - 1]) + (if Invalid(ps[|ps| - 1]) then [] else [ps[|ps| - 1].ndvi])
  }

  /** The sum of squared deviations from m. */
  function SquaredDeviations(v: seq<real>, m: real): real
  {
    if v == [] then 0.0 else SquaredDeviations(v[..|v| - 1], m) + (v[|v| - 1] - m) * (v[|v| - 1] - m)
  }

  /** The bias-corrected sample variance: 0 for a single value, the squared deviations over n - 1 otherwise. */
  function SampleVariance(v: seq<real>): real
    requires |v| > 0
  {
    if |v| == 1 then 0.0
    else SquaredDeviations(v, Sum(v) / (|v| as real)) / ((|v| - 1) as real)
  }

  /**
   * The value of the homogeneity statistic: the sentinel 1, the undefined value
   * 0 / 0 (no valid pixel), or sd / mean kept as (variance, mean).
   */
  datatype Cv = Sentinel | Undefined | Ratio(variance: real, mean: real)

  /** The statistic of a cluster for a given invalid-pixel limit. */
  function CvOf(cluster: seq<Pixel>, maxInvalid: int): Cv
  {
    if 1 <= maxInvalid <= InvalidCount(cluster) then Sentinel
    else
      var v := ValidNdvis(cluster);
      if |v| == 0 then Undefined else Ratio(SampleVariance(v), Sum(v) / (|v| as real))
  }

  /** "sd / mean < maxCv" for sd = sqrt(variance) and mean > 0, decided without the square root. */
  predicate AcceptsRatio(variance: real, mean: real, maxCv: real)
  {
    maxCv > 0.0 && variance < maxCv * maxCv * mean * mean
  }

  /** Whether the statistic is below maxCv, as Java's "<" on doubles decides it (NaN compares false). */
  predicate Accepts(cv: Cv, maxCv: real)
  {
    match cv
    case Sentinel => 1.0 < maxCv
    case Undefined => false
    case Ratio(variance, mean) => AcceptsRatio(variance, mean, maxCv)
  }

  lemma {:induction false} InvalidCountAppend(ps: seq<Pixel>, qs: seq<Pixel>)
    ensures InvalidCount(ps + qs) == InvalidCount(ps) + InvalidCount(qs)
    decreases |qs|
  {
    if qs == [] {
      assert ps + qs == ps;
    } else {
      var last := qs[|qs| - 1];
      InvalidCountAppend(ps, qs[..|qs| - 1]);
      assert (ps + qs)[..|ps + qs| - 1] == ps + qs[..|qs| - 1];
    }
  }

  lemma {:induction false} InvalidCountBound(ps: seq<Pixel>)
    ensures InvalidCount(ps) <= |ps|
  {
    if ps != [] {
      InvalidCountBound(ps[..|ps| - 1]);
    }
  }

  /** Each valid pixel gives one value and each invalid one none. */
  lemma {:induction false} ValidNdvisCount(ps: seq<Pixel>)
    ensures |ValidNdvis(ps)| + InvalidCount(ps) == |ps|
  {
    if ps != [] {
      ValidNdvisCount(ps[..|ps| - 1]);
    }
  }

  /** The values that feed the statistic are all strictly positive NDVIs. */
  lemma {:induction false} ValidNdvisPositive(ps: seq<Pixel>)
    ensures forall k :: 0 <= k < |ValidNdvis(ps)| ==> ValidNdvis(ps)[k] > 0.0
  {
    if ps != [] {
      var init := ps[..|ps| - 1];
      ValidNdvisPositive(init);
      var tail := if Invalid(ps[|ps| - 1]) then [] else [ps[|ps| - 1].ndvi];
      assert ValidNdvis(ps) == ValidNdvis(init) + tail;
      assert forall k :: 0 <= k < |tail| ==> tail[k] > 0.0;
    }
  }

  lemma {:induction false} SquaredDeviationsNonNegative(v: seq<real>, m: real)
    ensures SquaredDeviations(v, m) >= 0.0
  {
    if v != [] {
      SquaredDeviationsNonNegative(v[..|v| - 1], m);
      var d := v[|v| - 1] - m;
      if d < 0.0 {
        assert d * d == (-d) * (-d);
      }
    }
  }

  /**
   * The scan's check: right after counting the invalid pixel at position i - 1,
   * the running count equals the limit.
   */
  predicate LimitReachedAt(cluster: seq<Pixel>, maxInvalid: int, i: int)
  {
    0 < i <= |cluster| && Invalid(cluster[i - 1]) && InvalidCount(cluster[..i]) == maxInvalid
  }

  /** The sentinel is returned exactly when the scan's check fires at some position. */
  lemma SentinelIffLimitReached(cluster: seq<Pixel>, maxInvalid: int)
    ensures CvOf(cluster, maxInvalid) == Sentinel <==> exists i :: LimitReachedAt(cluster, maxInvalid, i)
  {
    if CvOf(cluster, maxInvalid) == Sentinel {
      var i := PrefixReaching(cluster, maxInvalid);
      assert LimitReachedAt(cluster, maxInvalid, i);
    }
    if i :| LimitReachedAt(cluster, maxInvalid, i) {
      InvalidCountAppend(cluster[..i], cluster[i..]);
      assert cluster[..i] + cluster[i..] == cluster;
      assert cluster[..i][..i - 1] == cluster[..i - 1];
    }
  }

  /** The running count reaches any value in [1, total] right after counting some invalid pixel. */
  lemma {:induction false} PrefixReaching(ps: seq<Pixel>, target: int) returns (i: nat)
    requires 1 <= target <= InvalidCount(ps)
    ensures 0 < i <= |ps| && Invalid(ps[i - 1]) && InvalidCount(ps[..i]) == target
  {
    var init := ps[..|ps| - 1];
    assert ps[..|ps|] == ps;
    if target <= InvalidCount(init) {
      i := PrefixReaching(init, target);
      assert ps[..i] == init[..i];
    } else {
      i := |ps|;
    }
  }

  /** Once the sentinel fires, pixels after the scan position cannot change the outcome. */
  lemma SentinelIgnoresSuffix(cluster: seq<Pixel>, rest: seq<Pixel>, maxInvalid: int)
    requires CvOf(cluster, maxInvalid) == Sentinel
    ensures CvOf(cluster + rest, maxInvalid) == Sentinel
  {
    InvalidCountAppend(cluster, rest);
  }

  /** A defined ratio has a strictly positive mean and a non-negative variance. */
  lemma RatioWellFormed(cluster: seq<Pixel>, maxInvalid: int)
    requires CvOf(cluster, maxInvalid).Ratio?
    ensures CvOf(cluster, maxInvalid).mean > 0.0 && CvOf(cluster, maxInvalid).variance >= 0.0
  {
    var v := ValidNdvis(cluster);
    ValidNdvisPositive(cluster);
    MeanPositive(v);
    if |v| > 1 {
      SquaredDeviationsNonNegative(v, Sum(v) / (|v| as real));
    }
  }

  /** The statistic is undefined exactly when every pixel is invalid and the limit was not reached. */
  lemma UndefinedIffAllInvalid(cluster: seq<Pixel>, maxInvalid: int)
    ensures CvOf(cluster, maxInvalid) == Undefined
        <==> InvalidCount(cluster) == |cluster| && !(1 <= maxInvalid <= |cluster|)
  {
    ValidNdvisCount(cluster);
  }

  /**
   * The pair test decides sd / mean < c for any non-negative sd with
   * sd * sd == variance, whenever mean > 0.
   */
  lemma RatioTestIsQuotientTest(variance: real, mean: real, sd: real, c: real)
    requires mean > 0.0 && sd >= 0.0 && sd * sd == variance
    ensures AcceptsRatio(variance, mean, c) <==> sd / mean < c
  {
    var q := sd / mean;
    assert sd == q * mean;
    assert q >= 0.0;
    assert (c * mean) * (c * mean) == c * c * mean * mean;
    if q < c {
      assert sd < c * mean;
      SquareMonotone(sd, c * mean);
    } else if c > 0.0 {
      assert c * mean <= sd;
      SquareMonotone(c * mean, sd);
    }
  }

  lemma SquareMonotone(a: real, b: real)
    requires 0.0 <= a
    ensures a < b ==> a * a < b * b
    ensures a <= b ==> a * a <= b * b
  {
    if a < b {
      calc {
        a * a;
      <= { MulLeft(a, a, b); }
        a * b;
      < { MulRightStrict(a, b, b); }
        b * b;
      }
    }
  }

  lemma MulLeft(c: real, x: real, y: real)
    requires 0.0 <= c && x <= y
    ensures c * x <= c * y
  {
    assert c * y - c * x == c * (y - x);
  }

  lemma MulRightStrict(x: real, y: real, c: real)
    requires x < y && 0.0 < c
    ensures x * c < y * c
  {
    assert y * c - x * c == (y - x) * c;
  }
}
