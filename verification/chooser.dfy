/**
 * The clustered chooser of the hot (quente) and cold (frio) anchor pixels.
 *
 * The chooser cuts the image into tiles, keeps the tiles whose NDVI is
 * homogeneous as candidate pools, filters the pools by NDVI and surface
 * temperature percentiles, and picks the first candidate close to the
 * candidates' mean. The cold pixel may also come from the largest body of
 * water, found by a flood fill (module Water).
 */
module Chooser {
  import opened Wrappers
  import opened Grid
  import opened Tiling
  import opened Homogeneity
  import opened Ranking
  import opened Picks
  import opened Water
  import opened Pools

  /** A count that a loop bound of n runs to: n itself, or none for a negative n. */
  function NonNeg(n: int): nat
  {
    if n < 0 then 0 else n
  }

  /** Every position of idx addresses an element of a list of length n. */
  predicate InRange(idx: seq<int>, n: int)
  {
    forall k :: 0 <= k < |idx| ==> 0 <= idx[k] < n
  }

  lemma PrefixInRange(p: seq<int>, q: seq<int>, n: int)
    requires p <= q && InRange(q, n)
    ensures InRange(p, n)
  {
    assert forall k :: 0 <= k < |p| ==> p[k] == q[k];
  }

  /** The empty start of the cluster loop addresses nothing out of range. */
  lemma ClusterStart(pixels: seq<Pixel>, first: int, w: int, cw: nat, ch: nat)
    requires InRange(ClusterIndices(first, w, cw, ch), |pixels|)
    ensures InRange(ClusterIndices(first, w, 0, ch), |pixels|)
  {
    ClusterIndicesPrefix(first, w, 0, cw, ch);
    PrefixInRange(ClusterIndices(first, w, 0, ch), ClusterIndices(first, w, cw, ch), |pixels|);
  }

  /** A common start keeps a prefix a prefix. */
  lemma PrefixAfter(a: seq<int>, p: seq<int>, q: seq<int>)
    requires p <= q
    ensures a + p <= a + q
  {
    assert a + q == (a + p) + q[|p|..];
  }

  /**
   * The positions visited by the cluster loop up to column di, row j + 1,
   * address pixels in range; the last of them is first + di + j * w.
   */
  lemma ClusterStepInRange(pixels: seq<Pixel>, first: int, w: int, cw: nat, ch: nat, di: nat, j: nat)
    requires di < cw && j < ch && InRange(ClusterIndices(first, w, cw, ch), |pixels|)
    ensures 0 <= first + di + j * w < |pixels|
    ensures InRange(ClusterIndices(first, w, di, ch) + Column(first + di, w, j + 1), |pixels|)
  {
    var done := ClusterIndices(first, w, di, ch);
    var next := ClusterIndices(first, w, di + 1, ch);
    ClusterIndicesSnoc(first, w, di, ch);
    ClusterIndicesPrefix(first, w, di + 1, cw, ch);
    PrefixInRange(next, ClusterIndices(first, w, cw, ch), |pixels|);
    ColumnPrefix(first + di, w, j + 1, ch);
    var grown := done + Column(first + di, w, j + 1);
    PrefixAfter(done, Column(first + di, w, j + 1), Column(first + di, w, ch));
    PrefixInRange(grown, next, |pixels|);
    ColumnSnoc(first + di, w, j);
    assert grown[|grown| - 1] == first + di + j * w;
  }

  /**
   * One step of the cluster loop at column di, row j: the next position is
   * first + di + j * w, it is in range, and appending its pixel extends the
   * pixels of the positions visited so far.
   */
  lemma ClusterStep(pixels: seq<Pixel>, first: int, w: int, cw: nat, ch: nat, di: nat, j: nat)
    requires di < cw && j < ch && InRange(ClusterIndices(first, w, cw, ch), |pixels|)
    requires InRange(ClusterIndices(first, w, di, ch) + Column(first + di, w, j), |pixels|)
    ensures 0 <= first + di + j * w < |pixels|
    ensures InRange(ClusterIndices(first, w, di, ch) + Column(first + di, w, j + 1), |pixels|)
    ensures PixelsAt(pixels, ClusterIndices(first, w, di, ch) + Column(first + di, w, j + 1))
         == PixelsAt(pixels, ClusterIndices(first, w, di, ch) + Column(first + di, w, j)) + [pixels[first + di + j * w]]
  {
    var done := ClusterIndices(first, w, di, ch);
    var x := first + di + j * w;
    ClusterStepInRange(pixels, first, w, cw, ch, di, j);
    ColumnSnoc(first + di, w, j);
    AppendAssoc(done, Column(first + di, w, j), [x]);
    PixelsAtAppend(pixels, done + Column(first + di, w, j), [x]);
  }

  /** The arguments the tile loop passes to the cluster builder describe the clipped tile at (x0, y0). */
  lemma TileArguments(img: Image, cfg: Config, x0: int, y0: int)
    requires ValidImage(img) && ValidConfig(cfg) && 0 <= x0 < img.width && 0 <= y0 < img.height
    ensures var bw, bh := NonNeg(Min(cfg.clusterWidth, img.width - x0)), NonNeg(Min(cfg.clusterHeight, img.height - y0));
      ClusterIndices(Linear(x0, y0, img.width), img.width, bw, bh) == TileCluster(img, cfg, x0, y0)
      && InRange(TileCluster(img, cfg, x0, y0), |img.pixels|)
  {
  }

  /** Below the last tile of a band nothing is pending. */
  lemma TilesDone(img: Image, cfg: Config, test: seq<Pixel> -> bool, x0: int, y0: int, done: seq<Pixel>)
    requires ValidImage(img) && ValidConfig(cfg) && 0 <= x0 < img.width && img.height <= y0
    ensures done + PixelsAt(img.pixels, PoolColumn(img, cfg, test, x0, y0)) == done
  {
    assert PoolColumn(img, cfg, test, x0, y0) == [];
  }

  lemma AppendAssoc<T>(a: seq<T>, b: seq<T>, c: seq<T>)
    ensures (a + b) + c == a + (b + c)
  {
  }

  /** Before the tile loop nothing is pooled and every band is pending. */
  lemma PoolBands(img: Image, cfg: Config, done: seq<Pixel>)
    requires ValidImage(img) && ValidConfig(cfg) && done == []
    ensures Pool(img, cfg) == done + PixelsAt(img.pixels, PoolFrom(img, cfg, HomogeneityTest(cfg), 0))
  {
  }

  /** After the last band nothing is pending. */
  lemma BandsDone(img: Image, cfg: Config, test: seq<Pixel> -> bool, x0: int, done: seq<Pixel>)
    requires ValidImage(img) && ValidConfig(cfg) && img.width <= x0
    ensures done + PixelsAt(img.pixels, PoolFrom(img, cfg, test, x0)) == done
  {
    assert PoolFrom(img, cfg, test, x0) == [];
  }

  /** One band of the tile loop: band x0's pool moves from the pending part of the image to the done part. */
  lemma BandStep(img: Image, cfg: Config, test: seq<Pixel> -> bool, x0: int, done: seq<Pixel>)
    requires ValidImage(img) && ValidConfig(cfg) && 0 <= x0 < img.width
    ensures done + PixelsAt(img.pixels, PoolFrom(img, cfg, test, x0))
         == (done + PixelsAt(img.pixels, PoolColumn(img, cfg, test, x0, 0)))
            + PixelsAt(img.pixels, PoolFrom(img, cfg, test, x0 + cfg.clusterWidth))
  {
    PoolFromPixels(img, cfg, test, x0);
    AppendAssoc(done, PixelsAt(img.pixels, PoolColumn(img, cfg, test, x0, 0)),
                PixelsAt(img.pixels, PoolFrom(img, cfg, test, x0 + cfg.clusterWidth)));
  }

  /**
   * One step of the removal loop over a copy of the sorted pool: removing the
   * first occurrence of a non-positive pixel takes out that pixel itself,
   * because the pixels already kept are all positive.
   */
  lemma NonPositiveStep(copy: seq<Pixel>, i: nat, elems: seq<Pixel>)
    requires i < |copy| && elems == PositiveNdvi(copy[..i]) + copy[i..]
    ensures copy[i].ndvi <= 0.0 ==> RemoveFirst(elems, copy[i]) == PositiveNdvi(copy[..i + 1]) + copy[i + 1..]
    ensures copy[i].ndvi > 0.0 ==> elems == PositiveNdvi(copy[..i + 1]) + copy[i + 1..]
  {
    var x := copy[i];
    var kept := PositiveNdvi(copy[..i]);
    assert copy[..i + 1][..i] == copy[..i];
    assert copy[i..] == [x] + copy[i + 1..];
    if x.ndvi <= 0.0 {
      PositiveNdviPositive(copy[..i]);
      RemoveFirstAfter(kept, copy[i..], x);
      assert PositiveNdvi(copy[..i + 1]) == kept + [];
    } else {
      assert PositiveNdvi(copy[..i + 1]) == kept + [x];
      AppendAssoc(kept, [x], copy[i + 1..]);
    }
  }

  /** A list of pixels the chooser appends to, sorts and filters in place. */
  class PixelList {
    var elems: seq<Pixel>

    constructor ()
      ensures elems == []
    {
      elems := [];
    }
  }

  class ClusteredChooser {
    const cfg: Config
    var pixelFrio: Option<Pixel>
    var pixelQuente: Option<Pixel>

    constructor (config: Config)
      ensures cfg == config && pixelFrio == None && pixelQuente == None
    {
      cfg := config;
      pixelFrio := None;
      pixelQuente := None;
    }

    // ------------------------------------------------------------ the tile loop

    /**
     * choosePixelsQuenteFrio: the cold pixel in the water first, then the tile
     * loop that fills both pools, then the cold pixel (the in-water one against
     * the out-of-water one) and the hot one. The in-water pixel is returned as
     * a ghost value for the contract.
     */
    method ChoosePixelsQuenteFrio(img: Image) returns (ghost inWater: Option<Pixel>)
      requires ValidImage(img) && ValidConfig(cfg)
      modifies this
      ensures inWater.Some? ==> inWater.value in img.pixels && inWater.value.ndvi < 0.0
      ensures pixelFrio == ColdChoice(inWater, FrioOutOfWater(Pool(img, cfg), cfg))
      ensures pixelQuente == if Quente(Pool(img, cfg), cfg).Some? then Quente(Pool(img, cfg), cfg) else old(pixelQuente)
    {
      var found := FindPixelFrioInTheWater(img);
      inWater := found;
      var frio, quente := ProcessTiles(img);
      SelectPixelFrioOutOfWater(found, frio);
      SelectPixelQuente(quente);
    }

    /** The tile loop over the column bands: both pools end up holding the pool of the image. */
    method ProcessTiles(img: Image) returns (frio: PixelList, quente: PixelList)
      requires ValidImage(img) && ValidConfig(cfg)
      ensures fresh(frio) && fresh(quente) && frio != quente
      ensures frio.elems == Pool(img, cfg) && quente.elems == Pool(img, cfg)
    {
      frio := new PixelList();
      quente := new PixelList();
      PoolBands(img, cfg, frio.elems);
      var x0 := 0;
      while x0 < img.width
        invariant 0 <= x0
        invariant frio.elems == quente.elems
        invariant Pool(img, cfg) == frio.elems + PixelsAt(img.pixels, PoolFrom(img, cfg, HomogeneityTest(cfg), x0))
        decreases img.width - x0
      {
        var next := x0 + cfg.clusterWidth;
        BandStep(img, cfg, HomogeneityTest(cfg), x0, frio.elems);
        ProcessColumn(img, x0, frio, quente);
        x0 := next;
      }
      BandsDone(img, cfg, HomogeneityTest(cfg), x0, frio.elems);
    }

    /** The inner tile loop down column band x0: each passing tile is appended to both pools. */
    method ProcessColumn(img: Image, x0: int, frio: PixelList, quente: PixelList)
      requires ValidImage(img) && ValidConfig(cfg) && 0 <= x0 < img.width
      requires frio != quente && frio.elems == quente.elems
      modifies frio, quente
      ensures frio.elems == quente.elems
      ensures frio.elems == old(frio.elems) + PixelsAt(img.pixels, PoolColumn(img, cfg, HomogeneityTest(cfg), x0, 0))
    {
      ghost var test := HomogeneityTest(cfg);
      ghost var band := old(frio.elems) + PixelsAt(img.pixels, PoolColumn(img, cfg, test, x0, 0));
      var y0 := 0;
      while y0 < img.height
        invariant 0 <= y0
        invariant frio.elems == quente.elems
        invariant band == frio.elems + PixelsAt(img.pixels, PoolColumn(img, cfg, test, x0, y0))
        decreases img.height - y0
      {
        var next := y0 + cfg.clusterHeight;
        ghost var pending := PixelsAt(img.pixels, PoolColumn(img, cfg, test, x0, next));
        PoolColumnPixels(img, cfg, test, x0, y0);
        AppendAssoc(frio.elems, Kept(img, cfg, test, x0, y0), pending);
        ProcessTile(img, x0, y0, frio, quente);
        y0 := next;
      }
      TilesDone(img, cfg, test, x0, y0, frio.elems);
    }

    /** The body of the inner tile loop: build the clipped tile at (x0, y0) and let it join the pools. */
    method ProcessTile(img: Image, x0: int, y0: int, frio: PixelList, quente: PixelList)
      requires ValidImage(img) && ValidConfig(cfg) && 0 <= x0 < img.width && 0 <= y0 < img.height && frio != quente
      modifies frio, quente
      ensures frio.elems == old(frio.elems) + Kept(img, cfg, HomogeneityTest(cfg), x0, y0)
      ensures quente.elems == old(quente.elems) + Kept(img, cfg, HomogeneityTest(cfg), x0, y0)
    {
      TileArguments(img, cfg, x0, y0);
      var cluster := CreateCluster(img.pixels, Linear(x0, y0, img.width), img.width,
        Min(cfg.clusterWidth, img.width - x0), Min(cfg.clusterHeight, img.height - y0));
      ProcessCluster(frio, quente, cluster);
    }

    /**
     * createCluster: the pixels at firstIndex + i + j * imageWidth for i below
     * clusterWidth (outer) and j below clusterHeight (inner).
     */
    method CreateCluster(pixels: seq<Pixel>, firstIndex: int, imageWidth: int, clusterWidth: int, clusterHeight: int)
      returns (cluster: seq<Pixel>)
      requires InRange(ClusterIndices(firstIndex, imageWidth, NonNeg(clusterWidth), NonNeg(clusterHeight)), |pixels|)
      ensures cluster == PixelsAt(pixels, ClusterIndices(firstIndex, imageWidth, NonNeg(clusterWidth), NonNeg(clusterHeight)))
    {
      ghost var cw, ch := NonNeg(clusterWidth), NonNeg(clusterHeight);
      cluster := [];
      var i := firstIndex;
      ClusterStart(pixels, firstIndex, imageWidth, cw, ch);
      while i < firstIndex + clusterWidth
        invariant firstIndex <= i <= firstIndex + cw
        invariant InRange(ClusterIndices(firstIndex, imageWidth, i - firstIndex, ch), |pixels|)
        invariant cluster == PixelsAt(pixels, ClusterIndices(firstIndex, imageWidth, i - firstIndex, ch))
      {
        ghost var done := ClusterIndices(firstIndex, imageWidth, i - firstIndex, ch);
        assert done + Column(i, imageWidth, 0) == done;
        var j := 0;
        while j < clusterHeight
          invariant 0 <= j <= ch
          invariant InRange(done + Column(i, imageWidth, j), |pixels|)
          invariant cluster == PixelsAt(pixels, done + Column(i, imageWidth, j))
        {
          ClusterStep(pixels, firstIndex, imageWidth, cw, ch, i - firstIndex, j);
          cluster := cluster + [pixels[i + j * imageWidth]];
          j := j + 1;
        }
        ClusterIndicesSnoc(firstIndex, imageWidth, i - firstIndex, ch);
        i := i + 1;
      }
    }

    /** proccessCluster: a cluster that passes the homogeneity test joins both pools. */
    method ProcessCluster(frio: PixelList, quente: PixelList, cluster: seq<Pixel>)
      requires frio != quente
      modifies frio, quente
      ensures HomogeneityTest(cfg)(cluster) ==> frio.elems == old(frio.elems) + cluster && quente.elems == old(quente.elems) + cluster
      ensures !HomogeneityTest(cfg)(cluster) ==> frio.elems == old(frio.elems) && quente.elems == old(quente.elems)
    {
      var cv := CalcCvForNdvi(cluster);
      if Accepts(cv, cfg.maxCvForNdvi) {
        frio.elems := frio.elems + cluster;
        quente.elems := quente.elems + cluster;
      }
    }

    /**
     * calcCVForNDVI: scans the cluster counting invalid pixels, returns the
     * sentinel the moment the count hits the limit, and otherwise the
     * statistic of the valid NDVI values.
     */
    method CalcCvForNdvi(cluster: seq<Pixel>) returns (cv: Cv)
      ensures cv == CvOf(cluster, cfg.maxInvalidNdviValues)
    {
      var valid: seq<real> := [];
      var invalid := 0;
      var index := 0;
      while index < |cluster|
        invariant 0 <= index <= |cluster|
        invariant invalid == InvalidCount(cluster[..index])
        invariant valid == ValidNdvis(cluster[..index])
        invariant !(1 <= cfg.maxInvalidNdviValues <= invalid)
      {
        assert cluster[..index + 1][..index] == cluster[..index];
        var p := cluster[index];
        if p.cloud || p.ndvi <= 0.0 {
          invalid := invalid + 1;
          if invalid == cfg.maxInvalidNdviValues {
            InvalidCountAppend(cluster[..index + 1], cluster[index + 1..]);
            assert cluster[..index + 1] + cluster[index + 1..] == cluster;
            return Sentinel;
          }
          index := index + 1;
          continue;
        }
        valid := valid + [p.ndvi];
        index := index + 1;
      }
      assert cluster[..index] == cluster;
      var values := new real[|valid|](k requires 0 <= k < |valid| => valid[k]);
      assert values[..] == valid;
      var mean := CalcMean(values);
      match mean
      case None =>
        cv := Undefined;
      case Some(m) =>
        cv := Ratio(SampleVariance(valid), m);
    }

    // ------------------------------------------------------------ the cold pixel in the water

    /**
     * findPixelFrioInTheWater: flood-fill the water, drop the small samples,
     * take a largest one and pick its pixel nearest the mean temperature.
     */
    method FindPixelFrioInTheWater(img: Image) returns (r: Option<Pixel>)
      requires ValidImage(img)
      ensures r.Some? ==> r.value in img.pixels && r.value.ndvi < 0.0
    {
      var search := new WaterSearch(img);
      search.FindWater();
      var samples := search.samples;
      if samples == map[] {
        return None;
      }
      samples := RefineSamples(samples);
      var best := SelectBestSample(samples);
      if best.None? {
        return None;
      }
      r := SelectPixelFrioInTheWater(best.value);
      if r.Some? {
        var k :| k in samples && samples[k] == best.value;
        var n := FirstMeetingIsFirst(best.value.pixels, TsBand(Sum(TsValues(best.value.pixels)) / (|best.value.pixels| as real), cfg.maxDiffFromTsMean));
        SamplePixelsAreWater(img, search.visited[..], search.samples, search.order, search.owner, k, n);
      }
    }

    /** refineSamples: every sample below one of the three minimum sizes is removed. */
    method RefineSamples(samples: map<Cell, Sample>) returns (refined: map<Cell, Sample>)
      ensures refined == Refined(samples, cfg.minTotalWater, cfg.minLonWater, cfg.minLatWater)
    {
      refined := samples;
      var keys := samples.Keys;
      while keys != {}
        invariant keys <= samples.Keys
        invariant forall k :: k in refined <==>
          k in samples && (k in keys || LargeEnough(samples[k], cfg.minTotalWater, cfg.minLonWater, cfg.minLatWater))
        invariant forall k :: k in refined ==> refined[k] == samples[k]
        decreases |keys|
      {
        var key :| key in keys;
        var sample := refined[key];
        if |sample.pixels| < cfg.minTotalWater || LonCount(sample) < cfg.minLonWater || LatCount(sample) < cfg.minLatWater {
          refined := refined - {key};
        }
        keys := keys - {key};
      }
    }

    /** selectPixelFrioInTheWater: the first pixel of the sample within the Ts band around its mean. */
    method SelectPixelFrioInTheWater(sample: Sample) returns (r: Option<Pixel>)
      ensures r == TsPick(sample.pixels, cfg.maxDiffFromTsMean)
    {
      var tsValues := TsArray(sample.pixels);
      var mean := CalcMean(tsValues);
      match mean
      case None =>
        r := None;
      case Some(m) =>
        r := FirstInBand(sample.pixels, TsBand(m, cfg.maxDiffFromTsMean));
    }

    // ------------------------------------------------------------ the pools' picks

    /**
     * selectPixelQuente: the hot pixel among the 20% hottest of the 10% least
     * vegetated candidates; the field is left as it was when none qualifies.
     */
    method SelectPixelQuente(quente: PixelList)
      modifies this, quente
      ensures pixelFrio == old(pixelFrio)
      ensures quente.elems == PositiveNdvi(SortBy(old(quente.elems), Ndvi))
      ensures pixelQuente == if Quente(old(quente.elems), cfg).Some? then Quente(old(quente.elems), cfg) else old(pixelQuente)
    {
      var smallest := FilterSmallestNdvi(quente, 10.0);
      var candidates := FilterBiggestTs(smallest, 20.0);
      var tsValues := TsArray(candidates.elems);
      var mean := CalcMean(tsValues);
      if mean.Some? {
        var pick := FirstInBand(candidates.elems, TsBand(mean.value, cfg.maxDiffFromTsMean));
        if pick.Some? {
          pixelQuente := pick;
        }
      }
    }

    /**
     * selectPixelFrioOutOfWater: the cold pixel among the 20% coldest of the 5%
     * most vegetated candidates, within both the Ts and the albedo band, then
     * the colder of it and the in-water pixel.
     */
    method SelectPixelFrioOutOfWater(inWater: Option<Pixel>, frio: PixelList)
      modifies this, frio
      ensures pixelQuente == old(pixelQuente)
      ensures frio.elems == Reverse(SortBy(old(frio.elems), Ndvi))
      ensures pixelFrio == ColdChoice(inWater, FrioOutOfWater(old(frio.elems), cfg))
    {
      var config := cfg;
      ghost var pool := frio.elems;
      var biggest := FilterBiggestNdvi(frio, 5.0);
      var candidates := FilterSmallestTs(biggest, 20.0);
      var chosen := candidates.elems;
      assert chosen == FrioCandidates(pool);
      var tsValues := TsArray(chosen);
      var alphaValues := new real[|chosen|];
      var i := 0;
      while i < |chosen|
        invariant 0 <= i <= |chosen|
        invariant alphaValues[..i] == AlbedoValues(chosen)[..i]
        modifies alphaValues
      {
        alphaValues[i] := chosen[i].alpha;
        i := i + 1;
      }
      assert alphaValues[..] == AlbedoValues(chosen)[..i];
      assert AlbedoValues(chosen)[..i] == AlbedoValues(chosen);
      assert tsValues[..] == TsValues(chosen);
      var tsMean := CalcMean(tsValues);
      var alphaMean := CalcMean(alphaValues);
      assert tsMean == MeanOf(TsValues(chosen));
      assert alphaMean == MeanOf(AlbedoValues(chosen));
      var outOfWater: Option<Pixel> := None;
      if tsMean.Some? && alphaMean.Some? {
        outOfWater := FirstInBand(chosen,
          TsAlbedoBand(tsMean.value, config.maxDiffFromTsMean, alphaMean.value, config.maxDiffFromAlbedoMean));
      }
      assert outOfWater == FrioOutOfWater(pool, config);
      pixelFrio := ColdChoice(inWater, outOfWater);
    }

    /** The scan for the first pixel in list order within the band. */
    method FirstInBand(s: seq<Pixel>, band: Band) returns (r: Option<Pixel>)
      ensures r == FirstMeeting(s, band)
    {
      var k := 0;
      while k < |s|
        invariant 0 <= k <= |s|
        invariant FirstMeeting(s[k..], band) == FirstMeeting(s, band)
      {
        assert s[k..][1..] == s[k + 1..];
        if Meets(s[k], band) {
          return Some(s[k]);
        }
        k := k + 1;
      }
      return None;
    }

    /** A fresh array of the surface temperatures of a list, in order. */
    method TsArray(s: seq<Pixel>) returns (values: array<real>)
      ensures fresh(values) && values[..] == TsValues(s)
    {
      values := new real[|s|];
      var i := 0;
      while i < |s|
        invariant 0 <= i <= |s|
        invariant values[..i] == TsValues(s)[..i]
      {
        values[i] := s[i].ts;
        i := i + 1;
      }
      assert values[..] == values[..i];
    }

    // ------------------------------------------------------------ the percentile filters

    /** filterBiggestTS: sorts the list by Ts, reverses it, and copies its first percent. */
    method FilterBiggestTs(pixels: PixelList, percent: real) returns (r: PixelList)
      requires 0.0 <= percent <= 100.0
      modifies pixels
      ensures pixels.elems == Reverse(SortBy(old(pixels.elems), Ts))
      ensures fresh(r) && r.elems == Biggest(old(pixels.elems), Ts, percent)
    {
      SortByPermutation(pixels.elems, Ts);
      ReverseLength(SortBy(pixels.elems, Ts));
      pixels.elems := SortBy(pixels.elems, Ts);
      pixels.elems := Reverse(pixels.elems);
      FilterCountBounds(|pixels.elems|, percent);
      r := TakeFirst(pixels, FilterCount(|pixels.elems|, percent));
    }

    /** filterBiggestNDVI: sorts the list by NDVI, reverses it, and copies its first percent. */
    method FilterBiggestNdvi(pixels: PixelList, percent: real) returns (r: PixelList)
      requires 0.0 <= percent <= 100.0
      modifies pixels
      ensures pixels.elems == Reverse(SortBy(old(pixels.elems), Ndvi))
      ensures fresh(r) && r.elems == Biggest(old(pixels.elems), Ndvi, percent)
    {
      SortByPermutation(pixels.elems, Ndvi);
      ReverseLength(SortBy(pixels.elems, Ndvi));
      pixels.elems := SortBy(pixels.elems, Ndvi);
      pixels.elems := Reverse(pixels.elems);
      FilterCountBounds(|pixels.elems|, percent);
      r := TakeFirst(pixels, FilterCount(|pixels.elems|, percent));
    }

    /** filterSmallestTS: sorts the list by Ts and copies its first percent. */
    method FilterSmallestTs(pixels: PixelList, percent: real) returns (r: PixelList)
      requires 0.0 <= percent <= 100.0
      modifies pixels
      ensures pixels.elems == SortBy(old(pixels.elems), Ts)
      ensures fresh(r) && r.elems == Smallest(old(pixels.elems), Ts, percent)
    {
      SortByPermutation(pixels.elems, Ts);
      pixels.elems := SortBy(pixels.elems, Ts);
      FilterCountBounds(|pixels.elems|, percent);
      r := TakeFirst(pixels, FilterCount(|pixels.elems|, percent));
    }

    /**
     * filterSmallestNDVI: sorts the list by NDVI, removes from it every pixel
     * whose NDVI is not positive (scanning a copy), and copies its first percent.
     */
    method FilterSmallestNdvi(pixels: PixelList, percent: real) returns (r: PixelList)
      requires 0.0 <= percent <= 100.0
      modifies pixels
      ensures pixels.elems == PositiveNdvi(SortBy(old(pixels.elems), Ndvi))
      ensures fresh(r) && r.elems == SmallestPositiveNdvi(old(pixels.elems), percent)
    {
      pixels.elems := SortBy(pixels.elems, Ndvi);
      var copy := pixels.elems;
      var i := 0;
      while i < |copy|
        invariant 0 <= i <= |copy|
        invariant pixels.elems == PositiveNdvi(copy[..i]) + copy[i..]
      {
        var imagePixel := copy[i];
        NonPositiveStep(copy, i, pixels.elems);
        if imagePixel.ndvi <= 0.0 {
          pixels.elems := RemoveFirst(pixels.elems, imagePixel);
        }
        i := i + 1;
      }
      assert copy[..i] == copy;
      assert pixels.elems == PositiveNdvi(copy);
      FilterCountBounds(|pixels.elems|, percent);
      r := TakeFirst(pixels, FilterCount(|pixels.elems|, percent));
    }

    /** The filters' copy loop: a fresh list of the first count entries. */
    method TakeFirst(pixels: PixelList, count: int) returns (r: PixelList)
      requires 0 <= count <= |pixels.elems|
      ensures fresh(r) && r.elems == pixels.elems[..count]
    {
      r := new PixelList();
      var index := 0;
      while index < count
        invariant 0 <= index <= count
        invariant r.elems == pixels.elems[..index]
      {
        r.elems := r.elems + [pixels.elems[index]];
        index := index + 1;
      }
    }
  }
}
