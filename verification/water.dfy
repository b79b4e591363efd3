/**
 * Water detection: a scan of the grid (x outer, y inner) that starts a flood
 * fill at every unvisited, cloud-free cell whose water test holds. The fill
 * marks each cell it reaches as visited, adds it to the current sample when
 * its NDVI is negative, and only then spreads to the four neighbours (right,
 * left, down, up). Then the samples that are too small are dropped and the
 * largest remaining one is chosen.
 *
 * A sample is keyed by the cell where its fill started (the source keys it by
 * the string "x_y" of that cell, an injective renaming).
 */
module Water {
  import opened Wrappers
  import opened Grid

  datatype Cell = Cell(x: int, y: int)

  /** A water body: its pixels and their cells, both in the order they joined. */
  datatype Sample = Sample(pixels: seq<Pixel>, cells: seq<Cell>)

  /** How many distinct columns (longitudes) the sample spans. */
  function LonCount(s: Sample): nat
  {
    |set c | c in s.cells :: c.x|
  }

  /** How many distinct rows (latitudes) the sample spans. */
  function LatCount(s: Sample): nat
  {
    |set c | c in s.cells :: c.y|
  }

  predicate InGrid(img: Image, c: Cell)
  {
    0 <= c.x < img.width && 0 <= c.y < img.height
  }

  /** Where an in-grid cell sits in the pixel list. */
  function Index(img: Image, c: Cell): (r: int)
    requires InGrid(img, c)
    ensures 0 <= r < img.width * img.height
  {
    LinearInGrid(c.x, c.y, img.width, img.height);
    Linear(c.x, c.y, img.width)
  }

  /** Distinct in-grid cells sit at distinct places of the pixel list. */
  lemma IndexInjective(img: Image, c: Cell, d: Cell)
    requires InGrid(img, c) && InGrid(img, d) && Index(img, c) == Index(img, d)
    ensures c == d
  {
    LinearInjective(c.x, c.y, d.x, d.y, img.width);
  }

  function CellPixel(img: Image, c: Cell): Pixel
    requires ValidImage(img) && InGrid(img, c)
  {
    img.pixels[Index(img, c)]
  }

  /** Where the scan starts a fill: a cloud-free cell whose water test holds. */
  predicate IsSeed(img: Image, c: Cell)
    requires ValidImage(img)
  {
    InGrid(img, c) && !CellPixel(img, c).cloud && CellPixel(img, c).waterTest
  }

  /** The 4-neighbourhood. */
  predicate Adjacent(a: Cell, b: Cell)
  {
    (a.y == b.y && (a.x - b.x == 1 || b.x - a.x == 1)) || (a.x == b.x && (a.y - b.y == 1 || b.y - a.y == 1))
  }

  predicate Distinct(cells: seq<Cell>)
  {
    forall n, m :: 0 <= n < m < |cells| ==> cells[n] != cells[m]
  }

  /** Every cell after the first joined next to an earlier one. */
  predicate Connected(cells: seq<Cell>)
  {
    forall n :: 0 < n < |cells| ==> JoinsEarlier(cells, n)
  }

  /** The cell at position n is next to some cell before it. */
  predicate JoinsEarlier(cells: seq<Cell>, n: int)
    requires 0 <= n < |cells|
  {
    exists m :: 0 <= m < n && Adjacent(cells[m], cells[n])
  }

  /** How many entries are set. */
  function TrueCount(s: seq<bool>): nat
  {
    if s == [] then 0 else TrueCount(s[..|s| - 1]) + (if s[|s| - 1] then 1 else 0)
  }

  lemma {:induction false} TrueCountBound(s: seq<bool>)
    ensures TrueCount(s) <= |s|
  {
    if s != [] {
      TrueCountBound(s[..|s| - 1]);
    }
  }

  /** Setting an unset entry adds one. */
  lemma {:induction false} TrueCountSet(s: seq<bool>, i: int)
    requires 0 <= i < |s| && !s[i]
    ensures TrueCount(s[i := true]) == TrueCount(s) + 1
  {
    var t := s[i := true];
    if i < |s| - 1 {
      TrueCountSet(s[..|s| - 1], i);
      assert t[..|t| - 1] == s[..|s| - 1][i := true];
    } else {
      assert t[..|t| - 1] == s[..|s| - 1];
    }
  }

  /** Setting more entries never lowers the count. */
  lemma {:induction false} TrueCountMonotone(a: seq<bool>, b: seq<bool>)
    requires |a| == |b| && forall k :: 0 <= k < |a| && a[k] ==> b[k]
    ensures TrueCount(a) <= TrueCount(b)
  {
    if a != [] {
      TrueCountMonotone(a[..|a| - 1], b[..|b| - 1]);
    }
  }

  /** The total number of pixels of the samples listed in order. */
  function Total(order: seq<Cell>, m: map<Cell, Sample>): nat
    requires forall n :: 0 <= n < |order| ==> order[n] in m
  {
    if order == [] then 0 else Total(order[..|order| - 1], m) + |m[order[|order| - 1]].pixels|
  }

  /** Changing a sample that is not listed leaves the total alone. */
  lemma {:induction false} TotalOther(order: seq<Cell>, m: map<Cell, Sample>, k: Cell, v: Sample)
    requires forall n :: 0 <= n < |order| ==> order[n] in m && order[n] != k
    ensures Total(order, m[k := v]) == Total(order, m)
  {
    if order != [] {
      TotalOther(order[..|order| - 1], m, k, v);
    }
  }

  /** Adding a new sample at the end of the list adds its size. */
  lemma TotalNew(order: seq<Cell>, m: map<Cell, Sample>, k: Cell, v: Sample)
    requires forall n :: 0 <= n < |order| ==> order[n] in m && order[n] != k
    ensures forall n :: 0 <= n < |order + [k]| ==> (order + [k])[n] in m[k := v]
    ensures Total(order + [k], m[k := v]) == Total(order, m) + |v.pixels|
  {
    var longer, m2 := order + [k], m[k := v];
    forall n | 0 <= n < |longer|
      ensures longer[n] in m2
    {
      if n < |order| {
        assert longer[n] == order[n];
      }
    }
    assert longer[..|order|] == order;
    assert longer[|longer| - 1] == k;
    assert Total(longer, m2) == Total(order, m2) + |v.pixels|;
    TotalOther(order, m, k, v);
  }

  /** Replacing the last listed sample changes the total by the difference in size. */
  lemma TotalLast(order: seq<Cell>, m: map<Cell, Sample>, v: Sample)
    requires |order| > 0 && forall n :: 0 <= n < |order| ==> order[n] in m
    requires forall n :: 0 <= n < |order| - 1 ==> order[n] != order[|order| - 1]
    ensures Total(order, m[order[|order| - 1] := v]) + |m[order[|order| - 1]].pixels| == Total(order, m) + |v.pixels|
  {
    TotalOther(order[..|order| - 1], m, order[|order| - 1], v);
  }

  /** The samples the refinement keeps: big enough, and spanning enough columns and rows. */
  predicate LargeEnough(s: Sample, minTotal: int, minLon: int, minLat: int)
  {
    !(|s.pixels| < minTotal || LonCount(s) < minLon || LatCount(s) < minLat)
  }

  function Refined(m: map<Cell, Sample>, minTotal: int, minLon: int, minLat: int): map<Cell, Sample>
  {
    map k | k in m && LargeEnough(m[k], minTotal, minLon, minLat) :: m[k]
  }

  /** Refinement keeps exactly the large-enough samples, unchanged, and refining again changes nothing. */
  lemma RefinedKeeps(m: map<Cell, Sample>, minTotal: int, minLon: int, minLat: int)
    ensures var r := Refined(m, minTotal, minLon, minLat);
      (forall k :: k in r <==> k in m && LargeEnough(m[k], minTotal, minLon, minLat))
      && (forall k :: k in r ==> r[k] == m[k])
      && Refined(r, minTotal, minLon, minLat) == r
  {
  }

  /** selectBestSample: some sample of greatest size, none for an empty map. */
  method SelectBestSample(samples: map<Cell, Sample>) returns (best: Option<Sample>)
    ensures best.None? <==> samples == map[]
    ensures best.Some? ==> best.value in samples.Values
    ensures best.Some? ==> forall k :: k in samples ==> |samples[k].pixels| <= |best.value.pixels|
  {
    best := None;
    var rest := samples.Keys;
    while rest != {}
      invariant rest <= samples.Keys
      invariant best.None? <==> rest == samples.Keys
      invariant best.Some? ==> best.value in samples.Values
      invariant best.Some? ==> forall k :: k in samples && k !in rest ==> |samples[k].pixels| <= |best.value.pixels|
      decreases |rest|
    {
      var k :| k in rest;
      var sample := samples[k];
      if best.None? || |sample.pixels| > |best.value.pixels| {
        best := Some(sample);
      }
      rest := rest - {k};
    }
    if samples != map[] {
      var k :| k in samples;
      assert k in samples.Keys;
    }
  }

  // ---------------------------------------------------------------- the search invariant, on values

  /** Cell c, holding pixel p, is a member of the sample seeded at s. */
  ghost predicate Member(img: Image, vis: seq<bool>, owner: map<Cell, Cell>, c: Cell, p: Pixel, s: Cell)
    requires ValidImage(img) && |vis| == |img.pixels|
  {
    InGrid(img, c) && p == CellPixel(img, c) && p.ndvi < 0.0 && vis[Index(img, c)] && c in owner && owner[c] == s
  }

  /** The sample seeded at s: non-empty, started at its seed, made of distinct connected member cells. */
  ghost predicate SampleOk(img: Image, vis: seq<bool>, owner: map<Cell, Cell>, s: Cell, smp: Sample)
    requires ValidImage(img) && |vis| == |img.pixels|
  {
    |smp.cells| == |smp.pixels| > 0 && smp.cells[0] == s && IsSeed(img, s)
    && (forall n :: 0 <= n < |smp.cells| ==> Member(img, vis, owner, smp.cells[n], smp.pixels[n], s))
    && Distinct(smp.cells) && Connected(smp.cells)
  }

  ghost predicate SamplesOk(img: Image, vis: seq<bool>, owner: map<Cell, Cell>, samples: map<Cell, Sample>)
    requires ValidImage(img) && |vis| == |img.pixels|
  {
    forall s :: s in samples ==> SampleOk(img, vis, owner, s, samples[s])
  }

  /** The seeds are listed once each, in creation order. */
  ghost predicate SeedsOk(samples: map<Cell, Sample>, order: seq<Cell>)
  {
    (forall n :: 0 <= n < |order| ==> order[n] in samples)
    && (forall s :: s in samples ==> s in order)
    && Distinct(order)
  }

  /** Owned cells are visited, and every visited cell with negative NDVI is owned. */
  ghost predicate OwnersOk(img: Image, vis: seq<bool>, owner: map<Cell, Cell>)
    requires ValidImage(img) && |vis| == |img.pixels|
  {
    (forall c :: c in owner ==> InGrid(img, c) && vis[Index(img, c)])
    && (forall c :: InGrid(img, c) && vis[Index(img, c)] && CellPixel(img, c).ndvi < 0.0 ==> c in owner)
  }

  /** What holds between two steps of the search. */
  ghost predicate Search(img: Image, vis: seq<bool>, samples: map<Cell, Sample>, order: seq<Cell>, owner: map<Cell, Cell>)
  {
    ValidImage(img) && |vis| == |img.pixels|
    && SeedsOk(samples, order) && SamplesOk(img, vis, owner, samples) && OwnersOk(img, vis, owner)
    && Total(order, samples) <= TrueCount(vis)
  }

  /** What holds right after a cell c is marked and before it joins a sample. */
  ghost predicate Pending(img: Image, vis: seq<bool>, samples: map<Cell, Sample>, order: seq<Cell>, owner: map<Cell, Cell>, c: Cell)
  {
    ValidImage(img) && |vis| == |img.pixels|
    && SeedsOk(samples, order) && SamplesOk(img, vis, owner, samples)
    && InGrid(img, c) && vis[Index(img, c)] && c !in owner
    && (forall d :: d in owner ==> InGrid(img, d) && vis[Index(img, d)])
    && (forall d :: InGrid(img, d) && vis[Index(img, d)] && CellPixel(img, d).ndvi < 0.0 ==> d in owner || d == c)
    && Total(order, samples) + 1 <= TrueCount(vis)
  }

  /** More visited marks keep every sample's members members. */
  lemma SamplesOkMonotone(img: Image, vis: seq<bool>, vis2: seq<bool>, owner: map<Cell, Cell>, samples: map<Cell, Sample>)
    requires ValidImage(img) && |vis| == |img.pixels| == |vis2|
    requires forall k :: 0 <= k < |vis| && vis[k] ==> vis2[k]
    requires SamplesOk(img, vis, owner, samples)
    ensures SamplesOk(img, vis2, owner, samples)
  {
    forall s | s in samples ensures SampleOk(img, vis2, owner, s, samples[s]) {
      var smp := samples[s];
      assert SampleOk(img, vis, owner, s, smp);
      forall n | 0 <= n < |smp.cells| ensures Member(img, vis2, owner, smp.cells[n], smp.pixels[n], s) {
        assert Member(img, vis, owner, smp.cells[n], smp.pixels[n], s);
      }
    }
  }

  /** Marking an unvisited cell: it is pending, and if its NDVI is not negative the invariant already holds. */
  lemma MarkStep(img: Image, vis: seq<bool>, samples: map<Cell, Sample>, order: seq<Cell>, owner: map<Cell, Cell>, c: Cell)
    requires Search(img, vis, samples, order, owner)
    requires InGrid(img, c) && !vis[Index(img, c)]
    ensures Pending(img, vis[Index(img, c) := true], samples, order, owner, c)
    ensures CellPixel(img, c).ndvi >= 0.0 ==> Search(img, vis[Index(img, c) := true], samples, order, owner)
  {
    var k := Index(img, c);
    var vis2 := vis[k := true];
    TrueCountSet(vis, k);
    SamplesOkMonotone(img, vis, vis2, owner, samples);
    forall d | InGrid(img, d) && vis2[Index(img, d)] ensures vis[Index(img, d)] || d == c {
      if Index(img, d) == k {
        IndexInjective(img, c, d);
      }
    }
  }

  /** A pending seed cell with negative NDVI opens a new sample. */
  lemma CreateStep(img: Image, vis: seq<bool>, samples: map<Cell, Sample>, order: seq<Cell>, owner: map<Cell, Cell>, c: Cell)
    requires Pending(img, vis, samples, order, owner, c)
    requires IsSeed(img, c) && c !in samples && CellPixel(img, c).ndvi < 0.0
    ensures Search(img, vis, samples[c := Sample([CellPixel(img, c)], [c])], order + [c], owner[c := c])
  {
    var smp := Sample([CellPixel(img, c)], [c]);
    TotalNew(order, samples, c, smp);
    NewSeedOk(samples, order, c, smp);
    NewSampleOk(img, vis, owner, samples, c);
    assert OwnersOk(img, vis, owner[c := c]);
  }

  /** Listing a new seed keeps the seed list in step with the samples. */
  lemma NewSeedOk(samples: map<Cell, Sample>, order: seq<Cell>, c: Cell, smp: Sample)
    requires SeedsOk(samples, order) && c !in samples
    ensures SeedsOk(samples[c := smp], order + [c])
  {
    var longer := order + [c];
    forall n, m | 0 <= n < m < |longer| ensures longer[n] != longer[m] {
      assert longer[n] == order[n];
      if m < |order| {
        assert longer[m] == order[m];
      }
    }
  }

  /** The one-cell sample of a visited unowned seed is valid, and the others stay valid. */
  lemma NewSampleOk(img: Image, vis: seq<bool>, owner: map<Cell, Cell>, samples: map<Cell, Sample>, c: Cell)
    requires ValidImage(img) && |vis| == |img.pixels| && SamplesOk(img, vis, owner, samples)
    requires IsSeed(img, c) && vis[Index(img, c)] && c !in owner && CellPixel(img, c).ndvi < 0.0
    ensures SamplesOk(img, vis, owner[c := c], samples[c := Sample([CellPixel(img, c)], [c])])
  {
    var smp := Sample([CellPixel(img, c)], [c]);
    var samples2, owner2 := samples[c := smp], owner[c := c];
    assert SampleOk(img, vis, owner2, c, smp) by {
      assert Member(img, vis, owner2, c, CellPixel(img, c), c);
    }
    forall s | s in samples2 ensures SampleOk(img, vis, owner2, s, samples2[s]) {
      if s != c {
        OwnerExtended(img, vis, owner, c, c, s, samples[s]);
      }
    }
  }

  /** A pending cell with negative NDVI next to a member of the newest sample joins it. */
  lemma ExtendStep(img: Image, vis: seq<bool>, samples: map<Cell, Sample>, order: seq<Cell>, owner: map<Cell, Cell>,
                   c: Cell, seed: Cell, parent: Cell)
    requires Pending(img, vis, samples, order, owner, c) && CellPixel(img, c).ndvi < 0.0
    requires seed in samples && |order| > 0 && seed == order[|order| - 1]
    requires parent in samples[seed].cells && Adjacent(parent, c)
    ensures var smp := samples[seed];
      Search(img, vis, samples[seed := Sample(smp.pixels + [CellPixel(img, c)], smp.cells + [c])], order, owner[c := seed])
  {
    var smp := samples[seed];
    var grown := Sample(smp.pixels + [CellPixel(img, c)], smp.cells + [c]);
    var samples2, owner2 := samples[seed := grown], owner[c := seed];
    TotalLast(order, samples, grown);
    OwnerExtended(img, vis, owner, c, seed, seed, smp);
    GrowSample(img, vis, owner, seed, smp, c, parent);
    forall s | s in samples2 ensures SampleOk(img, vis, owner2, s, samples2[s]) {
      if s != seed {
        OwnerExtended(img, vis, owner, c, seed, s, samples[s]);
      }
    }
  }

  /** A sample grown by an unowned, visited, negative-NDVI cell next to one of its members stays valid. */
  lemma GrowSample(img: Image, vis: seq<bool>, owner: map<Cell, Cell>, s: Cell, smp: Sample, c: Cell, parent: Cell)
    requires ValidImage(img) && |vis| == |img.pixels| && SampleOk(img, vis, owner, s, smp)
    requires InGrid(img, c) && vis[Index(img, c)] && c !in owner && CellPixel(img, c).ndvi < 0.0
    requires parent in smp.cells && Adjacent(parent, c)
    ensures SampleOk(img, vis, owner[c := s], s, Sample(smp.pixels + [CellPixel(img, c)], smp.cells + [c]))
  {
    var owner2 := owner[c := s];
    var cells, pixels := smp.cells + [c], smp.pixels + [CellPixel(img, c)];
    OwnerExtended(img, vis, owner, c, s, s, smp);
    forall n | 0 <= n < |cells| ensures Member(img, vis, owner2, cells[n], pixels[n], s) {
      if n < |smp.cells| {
        assert cells[n] == smp.cells[n] && pixels[n] == smp.pixels[n];
      }
    }
    AppendDistinct(smp.cells, c);
    AppendConnected(smp.cells, c, parent);
  }

  /** A cell not yet in a list of distinct cells keeps them distinct when appended. */
  lemma AppendDistinct(cells: seq<Cell>, c: Cell)
    requires Distinct(cells) && c !in cells
    ensures Distinct(cells + [c])
  {
    var longer := cells + [c];
    forall n, m | 0 <= n < m < |longer| ensures longer[n] != longer[m] {
      assert longer[n] == cells[n];
      if m < |cells| {
        assert longer[m] == cells[m];
      }
    }
  }

  /** A cell next to a member of a connected list keeps it connected when appended. */
  lemma AppendConnected(cells: seq<Cell>, c: Cell, parent: Cell)
    requires Connected(cells) && parent in cells && Adjacent(parent, c)
    ensures Connected(cells + [c])
  {
    var longer := cells + [c];
    var i :| 0 <= i < |cells| && cells[i] == parent;
    forall n | 0 < n < |longer| ensures JoinsEarlier(longer, n) {
      if n == |cells| {
        assert longer[i] == parent && longer[n] == c;
        assert 0 <= i < n && Adjacent(longer[i], longer[n]);
      } else {
        assert JoinsEarlier(cells, n);
        var m :| 0 <= m < n && Adjacent(cells[m], cells[n]);
        assert longer[m] == cells[m] && longer[n] == cells[n];
        assert 0 <= m < n && Adjacent(longer[m], longer[n]);
      }
    }
  }

  /** Giving the unowned cell c an owner leaves every existing sample valid. */
  lemma OwnerExtended(img: Image, vis: seq<bool>, owner: map<Cell, Cell>, c: Cell, o: Cell, s: Cell, smp: Sample)
    requires ValidImage(img) && |vis| == |img.pixels| && c !in owner
    requires SampleOk(img, vis, owner, s, smp)
    ensures SampleOk(img, vis, owner[c := o], s, smp)
    ensures c !in smp.cells
  {
    forall n | 0 <= n < |smp.cells| ensures Member(img, vis, owner[c := o], smp.cells[n], smp.pixels[n], s) {
      assert Member(img, vis, owner, smp.cells[n], smp.pixels[n], s);
    }
  }

  /** The seed of a sample is a visited grid cell. */
  lemma SampleSeedVisited(img: Image, vis: seq<bool>, owner: map<Cell, Cell>, s: Cell, smp: Sample)
    requires ValidImage(img) && |vis| == |img.pixels| && SampleOk(img, vis, owner, s, smp)
    ensures InGrid(img, s) && vis[Index(img, s)]
  {
    assert Member(img, vis, owner, smp.cells[0], smp.pixels[0], s);
  }

  /** Every seed of the search is visited, so an unvisited cell is not yet a seed. */
  lemma SeedsVisited(img: Image, vis: seq<bool>, samples: map<Cell, Sample>, order: seq<Cell>, owner: map<Cell, Cell>, c: Cell)
    requires Search(img, vis, samples, order, owner)
    requires InGrid(img, c) && !vis[Index(img, c)]
    ensures c !in samples
  {
    if c in samples {
      SampleSeedVisited(img, vis, owner, c, samples[c]);
    }
  }

  // ---------------------------------------------------------------- what the search guarantees

  /** No cell belongs to two samples. */
  lemma SamplesDisjoint(img: Image, vis: seq<bool>, samples: map<Cell, Sample>, order: seq<Cell>, owner: map<Cell, Cell>,
                        s1: Cell, s2: Cell, c: Cell)
    requires Search(img, vis, samples, order, owner)
    requires s1 in samples && s2 in samples && c in samples[s1].cells && c in samples[s2].cells
    ensures s1 == s2
  {
    var n1 :| 0 <= n1 < |samples[s1].cells| && samples[s1].cells[n1] == c;
    var n2 :| 0 <= n2 < |samples[s2].cells| && samples[s2].cells[n2] == c;
    assert SampleOk(img, vis, owner, s1, samples[s1]);
    assert SampleOk(img, vis, owner, s2, samples[s2]);
    assert Member(img, vis, owner, samples[s1].cells[n1], samples[s1].pixels[n1], s1);
    assert Member(img, vis, owner, samples[s2].cells[n2], samples[s2].pixels[n2], s2);
  }

  /** The samples hold at most width * height pixels in all. */
  lemma MembershipBound(img: Image, vis: seq<bool>, samples: map<Cell, Sample>, order: seq<Cell>, owner: map<Cell, Cell>)
    requires Search(img, vis, samples, order, owner)
    ensures Total(order, samples) <= img.width * img.height
  {
    TrueCountBound(vis);
  }

  /** Every pixel of every sample is the image pixel of a cell with negative NDVI. */
  lemma SamplePixelsAreWater(img: Image, vis: seq<bool>, samples: map<Cell, Sample>, order: seq<Cell>, owner: map<Cell, Cell>,
                             s: Cell, n: int)
    requires Search(img, vis, samples, order, owner)
    requires s in samples && 0 <= n < |samples[s].pixels|
    ensures |samples[s].cells| == |samples[s].pixels| && InGrid(img, samples[s].cells[n])
    ensures samples[s].pixels[n] == CellPixel(img, samples[s].cells[n]) && samples[s].pixels[n].ndvi < 0.0
    ensures samples[s].pixels[n] in img.pixels
  {
    assert SampleOk(img, vis, owner, s, samples[s]);
    assert Member(img, vis, owner, samples[s].cells[n], samples[s].pixels[n], s);
  }

  /** Every sample starts at a cloud-free water-test cell and is 4-connected. */
  lemma SamplesStartAtSeeds(img: Image, vis: seq<bool>, samples: map<Cell, Sample>, order: seq<Cell>, owner: map<Cell, Cell>, s: Cell)
    requires Search(img, vis, samples, order, owner) && s in samples
    ensures |samples[s].cells| > 0 && samples[s].cells[0] == s && IsSeed(img, s)
    ensures Connected(samples[s].cells) && Distinct(samples[s].cells)
  {
    assert SampleOk(img, vis, owner, s, samples[s]);
  }

  /** m1 differs from m0 at most in the sample of seed, which may be new or longer. */
  ghost predicate Extends(m0: map<Cell, Sample>, m1: map<Cell, Sample>, seed: Cell)
  {
    (forall s :: s in m0 && s != seed ==> s in m1 && m1[s] == m0[s])
    && (seed in m0 ==> seed in m1 && m0[seed].cells <= m1[seed].cells)
    && m1.Keys <= m0.Keys + {seed}
  }

  lemma ExtendsTrans(m0: map<Cell, Sample>, m1: map<Cell, Sample>, m2: map<Cell, Sample>, seed: Cell)
    requires Extends(m0, m1, seed) && Extends(m1, m2, seed)
    ensures Extends(m0, m2, seed)
  {
  }

  /** v1 keeps every mark of v0. */
  ghost predicate Grows(v0: seq<bool>, v1: seq<bool>)
  {
    |v0| == |v1| && forall k :: 0 <= k < |v0| && v0[k] ==> v1[k]
  }

  /** Every seed the scan has passed, before column i or above row j of it, is visited. */
  ghost predicate SeedsVisitedBefore(img: Image, vis: seq<bool>, i: int, j: int)
    requires ValidImage(img)
  {
    |vis| == img.width * img.height
    && forall c :: IsSeed(img, c) && (c.x < i || (c.x == i && c.y < j)) ==> vis[Index(img, c)]
  }

  /** One scan step: the cell (i, j) is visited or no seed, and visiting only grows. */
  lemma NextSeedVisited(img: Image, v0: seq<bool>, v1: seq<bool>, i: int, j: int)
    requires ValidImage(img) && 0 <= i < img.width && 0 <= j < img.height
    requires SeedsVisitedBefore(img, v0, i, j) && Grows(v0, v1)
    requires IsSeed(img, Cell(i, j)) ==> v1[Index(img, Cell(i, j))]
    ensures SeedsVisitedBefore(img, v1, i, j + 1)
  {
  }

  /** A column scanned to its bottom counts as passed. */
  lemma ColumnDone(img: Image, vis: seq<bool>, i: int)
    requires ValidImage(img) && SeedsVisitedBefore(img, vis, i, img.height)
    ensures SeedsVisitedBefore(img, vis, i + 1, 0)
  {
  }

  lemma GrowsAt(v0: seq<bool>, v1: seq<bool>, k: int)
    requires Grows(v0, v1) && 0 <= k < |v0| && v0[k]
    ensures k < |v1| && v1[k]
  {
  }

  lemma GrowsTrans(v0: seq<bool>, v1: seq<bool>, v2: seq<bool>)
    requires Grows(v0, v1) && Grows(v1, v2)
    ensures Grows(v0, v2) && TrueCount(v1) <= TrueCount(v2)
  {
    TrueCountMonotone(v1, v2);
  }

  // ---------------------------------------------------------------- the search, in place

  /** The fill's working state: the grid, the visited marks and the samples found so far. */
  class WaterSearch {
    const img: Image
    const visited: array<bool>
    var samples: map<Cell, Sample>
    /** The samples' seeds in the order their fills created them. */
    ghost var order: seq<Cell>
    /** For every cell that joined a sample, that sample's seed. */
    ghost var owner: map<Cell, Cell>

    ghost predicate Valid()
      reads this, visited
    {
      Search(img, visited[..], samples, order, owner)
    }

    constructor (image: Image)
      requires ValidImage(image)
      ensures fresh(visited) && visited.Length == |image.pixels|
      ensures forall k :: 0 <= k < visited.Length ==> !visited[k]
      ensures Valid() && img == image && samples == map[]
    {
      img := image;
      visited := new bool[|image.pixels|](_ => false);
      samples := map[];
      order := [];
      owner := map[];
      new;
      assert forall c :: InGrid(img, c) ==> !visited[Index(img, c)];
    }

    /** The state a fill step may start from: the seed itself, or a neighbour of a member of the newest sample. */
    ghost predicate FillPre(c: Cell, seed: Cell, parent: Cell)
      reads this, visited
      requires Valid()
    {
      if seed in samples then
        |order| > 0 && seed == order[|order| - 1] && parent in samples[seed].cells && Adjacent(parent, c)
      else
        c == seed && IsSeed(img, seed) && !visited[Index(img, seed)]
    }

    /**
     * The flood fill from (i, j) for the sample seeded at seed: a cell off the
     * grid or already visited stops it; otherwise the cell is marked, and only a
     * cell with negative NDVI joins the sample and spreads to its right, left,
     * lower and upper neighbours.
     */
    method Fill(i: int, j: int, seed: Cell, ghost parent: Cell)
      requires Valid() && FillPre(Cell(i, j), seed, parent)
      modifies this, visited
      ensures Valid()
      ensures Extends(old(samples), samples, seed)
      ensures seed in old(samples) ==> order == old(order)
      ensures seed !in old(samples) ==> order == old(order) || (seed in samples && order == old(order) + [seed])
      ensures Grows(old(visited[..]), visited[..])
      ensures InGrid(img, Cell(i, j)) ==> visited[Index(img, Cell(i, j))]
      decreases visited.Length - TrueCount(visited[..]), 1
    {
      if i < 0 || i > img.width - 1 || j < 0 || j > img.height - 1 {
        return;
      }
      var c := Cell(i, j);
      if visited[Index(img, c)] == true {
        return;
      }
      Flood(c, seed, parent);
    }

    /** The fill from an unvisited grid cell c: mark it, and spread from it when it joins the sample. */
    method Flood(c: Cell, seed: Cell, ghost parent: Cell)
      requires Valid() && InGrid(img, c) && !visited[Index(img, c)] && FillPre(c, seed, parent)
      modifies this, visited
      ensures Valid()
      ensures Extends(old(samples), samples, seed)
      ensures seed in old(samples) ==> order == old(order)
      ensures seed !in old(samples) ==> order == old(order) || (seed in samples && order == old(order) + [seed])
      ensures Grows(old(visited[..]), visited[..])
      ensures visited[Index(img, c)]
      decreases visited.Length - TrueCount(visited[..]), 0
    {
      ghost var m0, v0 := samples, visited[..];
      var joined := Visit(c, seed, parent);
      if joined {
        ghost var m1, v1 := samples, visited[..];
        TrueCountBound(v1);
        Spread(c.x, c.y, seed);
        GrowsTrans(v0, v1, visited[..]);
        GrowsAt(v1, visited[..], Index(img, c));
        ExtendsTrans(m0, m1, samples, seed);
      }
    }

    /** The fills from the four neighbours of the member (i, j): right, left, lower, upper. */
    method Spread(i: int, j: int, seed: Cell)
      requires SpreadPre(i, j, seed)
      modifies this, visited
      ensures Valid()
      ensures Extends(old(samples), samples, seed) && order == old(order)
      ensures Grows(old(visited[..]), visited[..])
      decreases visited.Length - TrueCount(visited[..]), 3
    {
      ghost var m0, v0 := samples, visited[..];
      SpreadAcross(i, j, seed);
      ghost var m1, v1 := samples, visited[..];
      GrowsTrans(v0, v0, v1);
      TrueCountBound(v1);
      SpreadAlong(i, j, seed);
      GrowsTrans(v0, v1, visited[..]);
      ExtendsTrans(m0, m1, samples, seed);
    }

    /** The state the spreading from the member (i, j) of the newest sample starts from. */
    ghost predicate SpreadPre(i: int, j: int, seed: Cell)
      reads this, visited
    {
      Valid() && seed in samples && |order| > 0 && seed == order[|order| - 1] && Cell(i, j) in samples[seed].cells
    }

    /** The fills from the right and left neighbours of (i, j). */
    method SpreadAcross(i: int, j: int, seed: Cell)
      requires SpreadPre(i, j, seed)
      modifies this, visited
      ensures SpreadPre(i, j, seed)
      ensures Extends(old(samples), samples, seed) && order == old(order)
      ensures Grows(old(visited[..]), visited[..])
      decreases visited.Length - TrueCount(visited[..]), 2
    {
      ghost var m0, v0 := samples, visited[..];
      Fill(i + 1, j, seed, Cell(i, j));
      ghost var m1, v1 := samples, visited[..];
      GrowsTrans(v0, v0, v1);
      TrueCountBound(v1);
      Fill(i - 1, j, seed, Cell(i, j));
      GrowsTrans(v0, v1, visited[..]);
      ExtendsTrans(m0, m1, samples, seed);
    }

    /** The fills from the lower and upper neighbours of (i, j). */
    method SpreadAlong(i: int, j: int, seed: Cell)
      requires SpreadPre(i, j, seed)
      modifies this, visited
      ensures SpreadPre(i, j, seed)
      ensures Extends(old(samples), samples, seed) && order == old(order)
      ensures Grows(old(visited[..]), visited[..])
      decreases visited.Length - TrueCount(visited[..]), 2
    {
      ghost var m0, v0 := samples, visited[..];
      Fill(i, j + 1, seed, Cell(i, j));
      ghost var m1, v1 := samples, visited[..];
      GrowsTrans(v0, v0, v1);
      TrueCountBound(v1);
      Fill(i, j - 1, seed, Cell(i, j));
      GrowsTrans(v0, v1, visited[..]);
      ExtendsTrans(m0, m1, samples, seed);
    }

    /** The scan: x outer, y inner; every unvisited cloud-free water-test cell starts a fill keyed by itself. */
    method FindWater()
      requires Valid()
      modifies this, visited
      ensures Valid()
      ensures forall c :: IsSeed(img, c) ==> visited[Index(img, c)]
    {
      var i := 0;
      while i < img.width
        invariant 0 <= i <= img.width
        invariant Valid()
        invariant SeedsVisitedBefore(img, visited[..], i, 0)
      {
        ScanColumn(i);
        i := i + 1;
      }
    }

    /** The inner scan loop down column i. */
    method ScanColumn(i: int)
      requires Valid() && 0 <= i < img.width && SeedsVisitedBefore(img, visited[..], i, 0)
      modifies this, visited
      ensures Valid() && SeedsVisitedBefore(img, visited[..], i + 1, 0)
    {
      var j := 0;
      while j < img.height
        invariant 0 <= j <= img.height
        invariant Valid()
        invariant SeedsVisitedBefore(img, visited[..], i, j)
      {
        var c := Cell(i, j);
        ghost var before := visited[..];
        if visited[Index(img, c)] == true {
          NextSeedVisited(img, before, before, i, j);
          j := j + 1;
          continue;
        }
        var p := img.pixels[Index(img, c)];
        if !p.cloud && p.waterTest {
          SeedsVisited(img, visited[..], samples, order, owner, c);
          Fill(i, j, c, c);
        }
        NextSeedVisited(img, before, visited[..], i, j);
        j := j + 1;
      }
      ColumnDone(img, visited[..], i);
    }

    /** Marks c visited and adds it to the seed's sample when its NDVI is negative. */
    method Visit(c: Cell, seed: Cell, ghost parent: Cell) returns (joined: bool)
      requires Valid() && InGrid(img, c) && !visited[Index(img, c)] && FillPre(c, seed, parent)
      modifies this, visited
      ensures joined <==> CellPixel(img, c).ndvi < 0.0
      ensures !joined ==> samples == old(samples) && order == old(order)
      ensures joined && seed in old(samples) ==> order == old(order)
      ensures joined && seed !in old(samples) ==> order == old(order) + [seed]
      ensures Extends(old(samples), samples, seed)
      ensures Grows(old(visited[..]), visited[..]) && TrueCount(visited[..]) == TrueCount(old(visited[..])) + 1
      ensures visited[Index(img, c)]
      ensures Valid()
      ensures joined ==> SpreadPre(c.x, c.y, seed)
    {
      assert seed !in samples ==> c == seed && IsSeed(img, c);
      assert seed in samples ==> |order| > 0 && seed == order[|order| - 1] && parent in samples[seed].cells && Adjacent(parent, c);
      Mark(c);
      var p := img.pixels[Index(img, c)];
      if p.ndvi < 0.0 {
        if seed !in samples {
          Open(c);
        } else {
          Grow(c, seed, parent);
        }
        joined := true;
      } else {
        joined := false;
      }
    }

    /** Sets the visited mark of c. */
    method Mark(c: Cell)
      requires Valid() && InGrid(img, c) && !visited[Index(img, c)]
      modifies visited
      ensures visited[..] == old(visited[..])[Index(img, c) := true]
      ensures Grows(old(visited[..]), visited[..]) && TrueCount(visited[..]) == TrueCount(old(visited[..])) + 1
      ensures Pending(img, visited[..], samples, order, owner, c)
      ensures CellPixel(img, c).ndvi >= 0.0 ==> Valid()
    {
      var k := Index(img, c);
      MarkStep(img, visited[..], samples, order, owner, c);
      TrueCountSet(visited[..], k);
      ghost var vis := visited[..];
      visited[k] := true;
      assert visited[..] == vis[k := true];
    }

    /** Opens the sample of the pending seed cell c with c as its first member. */
    method Open(c: Cell)
      requires Pending(img, visited[..], samples, order, owner, c) && CellPixel(img, c).ndvi < 0.0
      requires c !in samples && IsSeed(img, c)
      modifies this
      ensures order == old(order) + [c]
      ensures samples == old(samples)[c := Sample([CellPixel(img, c)], [c])]
      ensures Extends(old(samples), samples, c) && c in samples[c].cells
      ensures Valid()
    {
      CreateStep(img, visited[..], samples, order, owner, c);
      samples := samples[c := Sample([img.pixels[Index(img, c)]], [c])];
      order := order + [c];
      owner := owner[c := c];
    }

    /** Adds the pending cell c, next to the member parent, to the newest sample, seeded at seed. */
    method Grow(c: Cell, seed: Cell, ghost parent: Cell)
      requires Pending(img, visited[..], samples, order, owner, c) && CellPixel(img, c).ndvi < 0.0
      requires seed in samples && |order| > 0 && seed == order[|order| - 1]
      requires parent in samples[seed].cells && Adjacent(parent, c)
      modifies this
      ensures order == old(order)
      ensures samples == old(samples)[seed := Sample(old(samples[seed]).pixels + [CellPixel(img, c)], old(samples[seed]).cells + [c])]
      ensures Extends(old(samples), samples, seed) && c in samples[seed].cells
      ensures Valid()
    {
      var smp := samples[seed];
      ExtendStep(img, visited[..], samples, order, owner, c, seed, parent);
      samples := samples[seed := Sample(smp.pixels + [img.pixels[Index(img, c)]], smp.cells + [c])];
      owner := owner[c := seed];
      assert samples[seed].cells == smp.cells + [c];
    }
  }
}
