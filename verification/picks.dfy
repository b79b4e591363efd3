/**
 * The final picks: the first pixel of a candidate list whose Ts (and, for the
 * out-of-water cold pixel, albedo) lies within a fixed distance of the list's
 * mean, and the rule that combines the in-water and out-of-water cold pixels.
 */
module Picks {
  import opened Wrappers
  import opened Grid
  import opened Ranking

  /** The acceptance band of a pick: Ts alone, or Ts and albedo; both ends inclusive. */
  datatype Band =
    | TsBand(tsMean: real, tsDiff: real)
    | TsAlbedoBand(tsMean: real, tsDiff: real, alphaMean: real, alphaDiff: real)

  predicate Meets(p: Pixel, b: Band)
  {
    match b
    case TsBand(m, d) => m - d <= p.ts <= m + d
    case TsAlbedoBand(m, d, am, ad) => m - d <= p.ts <= m + d && am - ad <= p.alpha <= am + ad
  }

  /** The first pixel in list order that meets the band, if any. */
  function FirstMeeting(s: seq<Pixel>, b: Band): (r: Option<Pixel>)
    ensures r.Some? ==> r.value in s && Meets(r.value, b)
    ensures r.None? <==> forall k :: 0 <= k < |s| ==> !Meets(s[k], b)
  {
    if s == [] then None
    else if Meets(s[0], b) then Some(s[0])
    else FirstMeeting(s[1..], b)
  }

  /** The pick is the first qualifying pixel: it sits at some index i and nothing before i qualifies. */
  lemma {:induction false} FirstMeetingIsFirst(s: seq<Pixel>, b: Band) returns (i: nat)
    requires FirstMeeting(s, b).Some?
    ensures i < |s| && s[i] == FirstMeeting(s, b).value
    ensures forall k :: 0 <= k < i ==> !Meets(s[k], b)
  {
    if Meets(s[0], b) {
      i := 0;
    } else {
      var j := FirstMeetingIsFirst(s[1..], b);
      i := j + 1;
    }
  }

  /** Conversely, a qualifying pixel with nothing qualifying before it is the pick. */
  lemma {:induction false} FirstMeetingAt(s: seq<Pixel>, b: Band, i: nat)
    requires i < |s| && Meets(s[i], b)
    requires forall k :: 0 <= k < i ==> !Meets(s[k], b)
    ensures FirstMeeting(s, b) == Some(s[i])
  {
    if i > 0 {
      FirstMeetingAt(s[1..], b, i - 1);
    }
  }

  /** A candidate list whose Ts are all equal picks its first pixel when the distance is not negative. */
  lemma UniformTsPicksFirst(s: seq<Pixel>, d: real)
    requires |s| > 0 && d >= 0.0
    requires forall k :: 0 <= k < |s| ==> s[k].ts == s[0].ts
    ensures TsPick(s, d) == Some(s[0])
  {
    var v := TsValues(s);
    MeanBounds(v, s[0].ts, s[0].ts);
  }

  /** A Ts-band pick over a candidate list: none for an empty list (its mean is NaN). */
  function TsPick(s: seq<Pixel>, d: real): Option<Pixel>
  {
    match MeanOf(TsValues(s))
    case None => None
    case Some(m) => FirstMeeting(s, TsBand(m, d))
  }

  /** A Ts-and-albedo-band pick over a candidate list. */
  function TsAlbedoPick(s: seq<Pixel>, d: real, ad: real): Option<Pixel>
  {
    match (MeanOf(TsValues(s)), MeanOf(AlbedoValues(s)))
    case (Some(m), Some(am)) => FirstMeeting(s, TsAlbedoBand(m, d, am, ad))
    case _ => None
  }

  /** The candidates of the out-of-water cold pixel: 20% smallest Ts among the 5% biggest NDVI. */
  function FrioCandidates(pool: seq<Pixel>): seq<Pixel>
  {
    Smallest(Biggest(pool, Ndvi, 5.0), Ts, 20.0)
  }

  /** The candidates of the hot pixel: 20% biggest Ts among the 10% smallest positive NDVI. */
  function QuenteCandidates(pool: seq<Pixel>): seq<Pixel>
  {
    Biggest(SmallestPositiveNdvi(pool, 10.0), Ts, 20.0)
  }

  /** The out-of-water cold pixel chosen from a candidate pool. */
  function FrioOutOfWater(pool: seq<Pixel>, cfg: Config): Option<Pixel>
  {
    TsAlbedoPick(FrioCandidates(pool), cfg.maxDiffFromTsMean, cfg.maxDiffFromAlbedoMean)
  }

  /** The hot pixel chosen from a candidate pool (none when no candidate qualifies). */
  function Quente(pool: seq<Pixel>, cfg: Config): Option<Pixel>
  {
    TsPick(QuenteCandidates(pool), cfg.maxDiffFromTsMean)
  }

  /** Every pick is a candidate within the Ts band around the candidates' mean. */
  lemma TsPickInBand(s: seq<Pixel>, d: real)
    requires TsPick(s, d).Some?
    ensures |s| > 0 && TsPick(s, d).value in s
    ensures var m := Sum(TsValues(s)) / (|s| as real);
      m - d <= TsPick(s, d).value.ts <= m + d
  {
  }

  /** The out-of-water pick lies within both bands around the candidates' means. */
  lemma TsAlbedoPickInBand(s: seq<Pixel>, d: real, ad: real)
    requires TsAlbedoPick(s, d, ad).Some?
    ensures |s| > 0 && TsAlbedoPick(s, d, ad).value in s
    ensures var p, n := TsAlbedoPick(s, d, ad).value, |s| as real;
      Sum(TsValues(s)) / n - d <= p.ts <= Sum(TsValues(s)) / n + d
      && Sum(AlbedoValues(s)) / n - ad <= p.alpha <= Sum(AlbedoValues(s)) / n + ad
  {
  }

  /** The hot pixel has positive NDVI and comes from the pool. */
  lemma QuenteFromPool(pool: seq<Pixel>, cfg: Config)
    requires Quente(pool, cfg).Some?
    ensures Quente(pool, cfg).value in pool && Quente(pool, cfg).value.ndvi > 0.0
  {
    var c1 := SmallestPositiveNdvi(pool, 10.0);
    var c := Biggest(c1, Ts, 20.0);
    var p := Quente(pool, cfg).value;
    assert p in c;
    SmallestPositiveNdviSize(pool, 10.0);
    BiggestKeepsHighest(c1, Ts, 20.0);
    assert p in multiset(c);
    assert p in multiset(c1);
    var k :| 0 <= k < |c1| && c1[k] == p;
    assert p in multiset(pool);
  }

  /** The out-of-water cold pixel comes from the pool. */
  lemma FrioOutOfWaterFromPool(pool: seq<Pixel>, cfg: Config)
    requires FrioOutOfWater(pool, cfg).Some?
    ensures FrioOutOfWater(pool, cfg).value in pool
  {
    var c1 := Biggest(pool, Ndvi, 5.0);
    var c := Smallest(c1, Ts, 20.0);
    var p := FrioOutOfWater(pool, cfg).value;
    assert p in c;
    BiggestKeepsHighest(pool, Ndvi, 5.0);
    SmallestKeepsLowest(c1, Ts, 20.0);
    assert p in multiset(c);
    assert p in multiset(c1);
    assert p in multiset(pool);
  }

  // ---------------------------------------------------------------- the cold pixel

  /** The exception the combination step can raise. */
  datatype Fault = NullDereference

  /**
   * The combination as written: the out-of-water pixel is dereferenced whenever
   * an in-water pixel exists, so a missing out-of-water pixel raises.
   */
  function ColdChoiceAsWritten(inWater: Option<Pixel>, outOfWater: Option<Pixel>): Result<Option<Pixel>, Fault>
  {
    if inWater.Some? then
      if outOfWater.None? then Failure(NullDereference)
      else Success(if inWater.value.ts < outOfWater.value.ts then inWater else outOfWater)
    else Success(outOfWater)
  }

  /**
   * The combination as evidently intended: the colder of the two when both
   * exist (a tie goes to the out-of-water pixel), otherwise whichever exists.
   */
  function ColdChoice(inWater: Option<Pixel>, outOfWater: Option<Pixel>): (r: Option<Pixel>)
    ensures r.None? <==> inWater.None? && outOfWater.None?
    ensures r.Some? ==> r == inWater || r == outOfWater
    ensures r.Some? && inWater.Some? ==> r.value.ts <= inWater.value.ts
    ensures r.Some? && outOfWater.Some? ==> r.value.ts <= outOfWater.value.ts
    ensures inWater.Some? && outOfWater.Some? && inWater.value.ts < outOfWater.value.ts ==> r == inWater
    ensures inWater.Some? && outOfWater.Some? && inWater.value.ts >= outOfWater.value.ts ==> r == outOfWater
  {
    if inWater.Some? && outOfWater.Some? then
      if inWater.value.ts < outOfWater.value.ts then inWater else outOfWater
    else if inWater.Some? then inWater
    else outOfWater
  }

  /** The written combination fails exactly when only the in-water pixel exists, and otherwise agrees with the corrected one. */
  lemma ColdChoiceAgreement(inWater: Option<Pixel>, outOfWater: Option<Pixel>)
    ensures ColdChoiceAsWritten(inWater, outOfWater).Failure? <==> inWater.Some? && outOfWater.None?
    ensures ColdChoiceAsWritten(inWater, outOfWater).Success? ==>
      ColdChoiceAsWritten(inWater, outOfWater).value == ColdChoice(inWater, outOfWater)
  {
  }

  /** An input that shows the failure: a water pixel and no acceptable pixel out of the water. */
  lemma ColdChoiceAsWrittenFails()
    ensures var water := Pixel(-0.3, 290.0, 0.05, false, true);
      ColdChoiceAsWritten(Some(water), None) == Failure(NullDereference)
      && ColdChoice(Some(water), None) == Some(water)
  {
  }
}
