# Clustered hot/cold anchor-pixel chooser and weather-station selection

This project models two parts of the SEBAL processing code.

**The clustered chooser of the anchor pixels** (`ClusteredPixelQuenteFrioChooser`). It picks a hot pixel (*quente*) and a cold pixel (*frio*) from a satellite image whose per-pixel NDVI, surface temperature (Ts), albedo, cloud flag and water test are already computed. The model covers each step:

- **The tile loop.** The image is cut into `clusterWidth x clusterHeight` tiles, clipped at its edges. The loop walks column band by column band, and down each band tile by tile.
- **The homogeneity test.** For each tile it computes the coefficient of variation of the NDVI of the valid pixels. A sentinel 1 is returned as soon as the number of invalid pixels reaches a limit. Every tile that passes is appended to both candidate pools. The model proves that the loop visits every pixel of the grid exactly once, so no pixel enters a pool twice.
- **The water search.** Before the tile loop, a flood fill over the cloud-free water-test pixels collects 4-connected bodies of negative-NDVI pixels. The bodies that are too small are dropped, and a largest one is chosen. The cold pixel in the water is the first pixel of that body whose Ts lies within a fixed distance of the body's mean Ts.
- **The percentile filters.** Each filter sorts the pool by NDVI or Ts, possibly reverses it, and keeps `Math.round(n * p / 100 + 0.4)` entries. The NDVI "smallest" filter first drops the pixels whose NDVI is not positive.
- **The picks.**
  - The hot pixel comes from the 20% hottest of the 10% least vegetated candidates.
  - The cold pixel outside the water comes from the 20% coldest of the 5% most vegetated candidates. It must lie within both a Ts band and an albedo band around the candidates' means.
  - The colder of the in-water and out-of-water cold pixels wins.

**The weather-station selection** (`WeatherStation`). For the stations near a scene, in the order they are given:

- the station's records are read;
- a copy is made in which a wind speed below 0.3 is raised to 0.3 and a record faster than 31.0 is dropped;
- the incomplete records are removed in place;
- the first station that keeps at least three records, one of them at 1200, is formatted as text.

The text has one line per record: fourteen `;`-terminated fields, the empty optional ones written as `NA`. The lines are concatenated and then trimmed.

Modules:

| module | contents |
|---|---|
| `Wrappers` | `Option` and `Result` for Java's null and exceptions |
| `Grid` | pixels, images, configuration, linear positions, `calcMean` |
| `Tiling` | cluster positions and the proof that the tile loop covers the grid exactly once |
| `Homogeneity` | the NDVI coefficient of variation, with its sentinel and its square-root-free comparison |
| `Pools` | the candidate pool the tile loop builds, as a function of the image |
| `Ranking` | the stable sorts, reversal, the kept count, the clean-up of non-positive NDVI |
| `Picks` | the band picks and the combination of the two cold pixels |
| `Water` | the flood fill (class `WaterSearch`) and the refinement and selection of water bodies |
| `Chooser` | the chooser class with its in-place list operations |
| `Records` | station records, the wind-speed correction, completeness and acceptance |
| `Format` | the text a station's records become |
| `Weather` | the record array class and the station-side methods |

## Model

| member | source | states |
|---|---|---|
| `Grid.LinearInGrid` | src/main/java/org/fogbowcloud/sebal/ClusteredPixelQuenteFrioChooser.java:116-118 | the linear position of an in-grid cell lies in `[0, width*height)` |
| `Grid.LinearInjective` | src/main/java/org/fogbowcloud/sebal/ClusteredPixelQuenteFrioChooser.java:116-118 | distinct in-grid cells have distinct linear positions |
| `Grid.PixelsAtAppend` | src/main/java/org/fogbowcloud/sebal/ClusteredPixelQuenteFrioChooser.java:370-374 | gathering the pixels of two runs of positions one after the other gives the two gatherings concatenated, so the cluster loop's appends build the cluster |
| `Grid.CalcMean` | src/main/java/org/fogbowcloud/sebal/ClusteredPixelQuenteFrioChooser.java:359-365 | the loop's total over the array divided by its length is the mean of the array; there is no mean (NaN) for an empty array |
| `Grid.MeanBounds` | src/main/java/org/fogbowcloud/sebal/ClusteredPixelQuenteFrioChooser.java:359-365 | the mean of a non-empty array lies between any lower and upper bound of its elements |
| `Grid.MeanPositive` | src/main/java/org/fogbowcloud/sebal/ClusteredPixelQuenteFrioChooser.java:146 | the mean of strictly positive values is defined and strictly positive |
| `Grid.TsMeanBetween` | src/main/java/org/fogbowcloud/sebal/ClusteredPixelQuenteFrioChooser.java:168-172 | the mean Ts of a non-empty candidate list is defined and lies between the Ts of its coldest and of its hottest candidate |
| `Grid.AlbedoMeanBetween` | src/main/java/org/fogbowcloud/sebal/ClusteredPixelQuenteFrioChooser.java:287-294 | the mean albedo of a non-empty candidate list is defined and lies between its smallest and largest albedo |
| `Tiling.ColumnAt` | src/main/java/org/fogbowcloud/sebal/ClusteredPixelQuenteFrioChooser.java:371-373 | the inner cluster loop's j-th position is `i + j * imageWidth` |
| `Tiling.ClusterIndicesLength` | src/main/java/org/fogbowcloud/sebal/ClusteredPixelQuenteFrioChooser.java:367-376 | a cluster of `cw x ch` holds `cw*ch` positions |
| `Tiling.ClusterIndicesAt` | src/main/java/org/fogbowcloud/sebal/ClusteredPixelQuenteFrioChooser.java:367-376 | cluster entry `di*ch + dj` is pixel `first + di + dj*w`: clusters are column-major |
| `Tiling.ClusterIndicesSnoc` | src/main/java/org/fogbowcloud/sebal/ClusteredPixelQuenteFrioChooser.java:370-374 | one more outer iteration appends the next column of `ch` positions |
| `Tiling.ClusterIndicesBounds` | src/main/java/org/fogbowcloud/sebal/ClusteredPixelQuenteFrioChooser.java:367-376 | every cluster position lies between the first pixel and the last, `first + (cw-1) + (ch-1)*w` |
| `Tiling.ClusterIsBlock` | src/main/java/org/fogbowcloud/sebal/ClusteredPixelQuenteFrioChooser.java:367-376 | a cluster lists exactly the positions of its rectangle, each once |
| `Tiling.TileColumnIsBlock` | src/main/java/org/fogbowcloud/sebal/ClusteredPixelQuenteFrioChooser.java:90-97 | the clipped tiles of one column band list exactly the positions of that band, each once |
| `Tiling.TileOrderFromIsBlock` | src/main/java/org/fogbowcloud/sebal/ClusteredPixelQuenteFrioChooser.java:89-98 | the tile loop from band `x0` on lists exactly the positions of columns `x0 .. w-1` |
| `Tiling.TileOrderCount` | src/main/java/org/fogbowcloud/sebal/ClusteredPixelQuenteFrioChooser.java:89-98 | the tile loop reaches every grid position exactly once and no other position |
| `Tiling.TileOrderCoversOnce` | src/main/java/org/fogbowcloud/sebal/ClusteredPixelQuenteFrioChooser.java:89-98 | the multiset of positions the tile loop visits is the grid `[0, w*h)` with multiplicity one |
| `Tiling.TileClusterInGrid` | src/main/java/org/fogbowcloud/sebal/ClusteredPixelQuenteFrioChooser.java:91-94 | the clipped cluster at `(x0, y0)` only reads pixels inside the image |
| `Tiling.LastClusterPixelInGrid` | src/main/java/org/fogbowcloud/sebal/ClusteredPixelQuenteFrioChooser.java:91-94 | the last pixel of a clipped cluster lies inside the image |
| `Pools.TileCluster` | src/main/java/org/fogbowcloud/sebal/ClusteredPixelQuenteFrioChooser.java:91-94 | the tile at `(x0, y0)`, clipped by `Math.min`, holds only in-range positions |
| `Pools.PoolColumn` | src/main/java/org/fogbowcloud/sebal/ClusteredPixelQuenteFrioChooser.java:90-97 | the pooled positions of a column band are all image positions |
| `Pools.PoolFrom` | src/main/java/org/fogbowcloud/sebal/ClusteredPixelQuenteFrioChooser.java:89-98 | the pooled positions of the bands from `x0` on are all image positions |
| `Pools.PoolColumnPixels` | src/main/java/org/fogbowcloud/sebal/ClusteredPixelQuenteFrioChooser.java:90-97 | down a band, the tile at `y0` contributes its pixels when it passes and nothing otherwise, before the tiles below it |
| `Pools.PoolFromPixels` | src/main/java/org/fogbowcloud/sebal/ClusteredPixelQuenteFrioChooser.java:89-98 | across the image, band `x0`'s contribution comes before that of the bands to its right |
| `Pools.PoolPositionsOnce` | src/main/java/org/fogbowcloud/sebal/ClusteredPixelQuenteFrioChooser.java:89-98 | no image position enters a pool twice, and only image positions enter it |
| `Homogeneity.InvalidCountBound` | src/main/java/org/fogbowcloud/sebal/ClusteredPixelQuenteFrioChooser.java:134-141 | the invalid-pixel count never exceeds the cluster's size |
| `Homogeneity.InvalidCountAppend` | src/main/java/org/fogbowcloud/sebal/ClusteredPixelQuenteFrioChooser.java:134-141 | the invalid count of a concatenation is the sum of the parts' counts |
| `Homogeneity.ValidNdvisCount` | src/main/java/org/fogbowcloud/sebal/ClusteredPixelQuenteFrioChooser.java:134-144 | each pixel is either counted invalid or contributes exactly one NDVI value |
| `Homogeneity.ValidNdvisPositive` | src/main/java/org/fogbowcloud/sebal/ClusteredPixelQuenteFrioChooser.java:136-143 | every value feeding the statistic is a strictly positive NDVI of a cloud-free pixel |
| `Homogeneity.SquaredDeviationsNonNegative` | src/main/java/org/fogbowcloud/sebal/ClusteredPixelQuenteFrioChooser.java:147 | the variance's sum of squared deviations is never negative |
| `Homogeneity.SentinelIffLimitReached` | src/main/java/org/fogbowcloud/sebal/ClusteredPixelQuenteFrioChooser.java:134-141 | the statistic is the sentinel 1 exactly when, at some pixel, the running invalid count just reached the limit |
| `Homogeneity.SentinelIgnoresSuffix` | src/main/java/org/fogbowcloud/sebal/ClusteredPixelQuenteFrioChooser.java:138-139 | once the sentinel fires, the pixels after it cannot change the outcome |
| `Homogeneity.RatioWellFormed` | src/main/java/org/fogbowcloud/sebal/ClusteredPixelQuenteFrioChooser.java:146-150 | a defined coefficient has a strictly positive mean and a non-negative variance |
| `Homogeneity.UndefinedIffAllInvalid` | src/main/java/org/fogbowcloud/sebal/ClusteredPixelQuenteFrioChooser.java:146-150 | the coefficient is NaN (0/0) exactly when every pixel is invalid and the limit was not reached |
| `Homogeneity.RatioTestIsQuotientTest` | src/main/java/org/fogbowcloud/sebal/ClusteredPixelQuenteFrioChooser.java:148-150 | the square-root-free test on (variance, mean) decides `sd / mean < c` for every `sd >= 0` with `sd*sd == variance` |
| `Ranking.FilterCountBounds` | src/main/java/org/fogbowcloud/sebal/ClusteredPixelQuenteFrioChooser.java:317 | for `0 <= p <= 100`, the kept count `Math.round(n*p/100 + 0.4)` lies in `[0, n]`, so the copy loop stays in range |
| `Ranking.FilterCountExamples` | src/main/java/org/fogbowcloud/sebal/ClusteredPixelQuenteFrioChooser.java:317 | the +0.4 bias: 5% of 1 keeps 0, 10% of 23 keeps 3, 50% of 6 keeps 3, anything of 0 keeps 0 |
| `Ranking.InsertSorted` | src/main/java/org/fogbowcloud/sebal/ClusteredPixelQuenteFrioChooser.java:314 | inserting into a sorted list keeps it sorted and adds one entry |
| `Ranking.InsertPermutation` | src/main/java/org/fogbowcloud/sebal/ClusteredPixelQuenteFrioChooser.java:314 | inserting adds exactly the inserted pixel to the multiset |
| `Ranking.SortByPermutation` | src/main/java/org/fogbowcloud/sebal/ClusteredPixelQuenteFrioChooser.java:314 | sorting by the comparator's attribute gives an ascending permutation of the list |
| `Ranking.ReverseAt` | src/main/java/org/fogbowcloud/sebal/ClusteredPixelQuenteFrioChooser.java:315 | reversal moves entry i to position `n-1-i` |
| `Ranking.ReversePermutation` | src/main/java/org/fogbowcloud/sebal/ClusteredPixelQuenteFrioChooser.java:315 | reversal keeps every pixel with its multiplicity |
| `Ranking.ReverseDescending` | src/main/java/org/fogbowcloud/sebal/ClusteredPixelQuenteFrioChooser.java:314-315 | sort-then-reverse gives a descending list |
| `Ranking.PositiveNdviMembers` | src/main/java/org/fogbowcloud/sebal/ClusteredPixelQuenteFrioChooser.java:326-331 | the clean-up keeps each positive-NDVI pixel as often as it occurs and removes every other pixel |
| `Ranking.PositiveNdviPositive` | src/main/java/org/fogbowcloud/sebal/ClusteredPixelQuenteFrioChooser.java:326-331 | every pixel left after the clean-up has positive NDVI |
| `Ranking.PositiveNdviSorted` | src/main/java/org/fogbowcloud/sebal/ClusteredPixelQuenteFrioChooser.java:324-331 | the clean-up keeps a sorted list sorted |
| `Ranking.PositiveNdviSubset` | src/main/java/org/fogbowcloud/sebal/ClusteredPixelQuenteFrioChooser.java:326-331 | every pixel left after the clean-up was in the list |
| `Ranking.RemoveFirstAfter` | src/main/java/org/fogbowcloud/sebal/ClusteredPixelQuenteFrioChooser.java:329 | `remove(Object)` of a pixel absent from the front part leaves the front part alone |
| `Ranking.SmallestKeepsLowest` | src/main/java/org/fogbowcloud/sebal/ClusteredPixelQuenteFrioChooser.java:340-347 | the "smallest" filter keeps `FilterCount(n, p)` pixels of the list, and no dropped pixel has a smaller key than a kept one |
| `Ranking.BiggestKeepsHighest` | src/main/java/org/fogbowcloud/sebal/ClusteredPixelQuenteFrioChooser.java:313-321 | the "biggest" filter keeps `FilterCount(n, p)` pixels of the list, and no dropped pixel has a bigger key than a kept one |
| `Ranking.DescendingPrefixDominates` | src/main/java/org/fogbowcloud/sebal/ClusteredPixelQuenteFrioChooser.java:349-357 | in a descending list every kept prefix entry is at least every later entry |
| `Ranking.SmallestPositiveNdviSize` | src/main/java/org/fogbowcloud/sebal/ClusteredPixelQuenteFrioChooser.java:323-338 | the NDVI "smallest" filter keeps `FilterCount` of the positive-NDVI pixels only, all taken from the list and all with positive NDVI |
| `Ranking.SmallestPositiveNdviKeepsLowest` | src/main/java/org/fogbowcloud/sebal/ClusteredPixelQuenteFrioChooser.java:323-338 | no positive-NDVI pixel it drops, including a dropped duplicate of a kept one, has a smaller NDVI than one it keeps |
| `Ranking.PositiveNdviSameCount` | src/main/java/org/fogbowcloud/sebal/ClusteredPixelQuenteFrioChooser.java:324-331 | sorting before the clean-up does not change how many pixels survive it |
| `Picks.FirstMeeting` | src/main/java/org/fogbowcloud/sebal/ClusteredPixelQuenteFrioChooser.java:174-180 | the pick is a list member inside the band; there is none exactly when no member is inside the band |
| `Picks.FirstMeetingIsFirst` | src/main/java/org/fogbowcloud/sebal/ClusteredPixelQuenteFrioChooser.java:174-180 | the pick sits at some index i, and no pixel before i is inside the band |
| `Picks.FirstMeetingAt` | src/main/java/org/fogbowcloud/sebal/ClusteredPixelQuenteFrioChooser.java:174-180 | conversely, a pixel inside the band with none before it inside the band is the pick |
| `Picks.UniformTsPicksFirst` | src/main/java/org/fogbowcloud/sebal/ClusteredPixelQuenteFrioChooser.java:167-181 | when all Ts are equal and the distance is not negative, the first pixel is picked |
| `Picks.TsPickInBand` | src/main/java/org/fogbowcloud/sebal/ClusteredPixelQuenteFrioChooser.java:167-181 | a Ts pick is a candidate whose Ts is within the distance of the candidates' mean Ts |
| `Picks.TsAlbedoPickInBand` | src/main/java/org/fogbowcloud/sebal/ClusteredPixelQuenteFrioChooser.java:293-304 | an out-of-water pick is within both the Ts band and the albedo band around the candidates' means |
| `Picks.QuenteFromPool` | src/main/java/org/fogbowcloud/sebal/ClusteredPixelQuenteFrioChooser.java:254-275 | the hot pixel comes from the pool and has positive NDVI |
| `Picks.FrioOutOfWaterFromPool` | src/main/java/org/fogbowcloud/sebal/ClusteredPixelQuenteFrioChooser.java:277-304 | the out-of-water cold pixel comes from the pool |
| `Picks.ColdChoice` | src/main/java/org/fogbowcloud/sebal/ClusteredPixelQuenteFrioChooser.java:305-310 | the cold pixel is one of the two candidates and no hotter than either that exists; the in-water one wins only when strictly colder; there is none only when neither exists |
| `Picks.ColdChoiceAgreement` | src/main/java/org/fogbowcloud/sebal/ClusteredPixelQuenteFrioChooser.java:305-310 | the code as written fails exactly when the in-water pixel exists and the out-of-water one does not; otherwise it agrees with `ColdChoice` |
| `Picks.ColdChoiceAsWrittenFails` | src/main/java/org/fogbowcloud/sebal/ClusteredPixelQuenteFrioChooser.java:305-307 | a concrete water pixel with no out-of-water pixel makes the written code dereference null |
| `Water.Index` | src/main/java/org/fogbowcloud/sebal/ClusteredPixelQuenteFrioChooser.java:213 | an in-grid cell's `visited` index lies in `[0, width*height)` |
| `Water.IndexInjective` | src/main/java/org/fogbowcloud/sebal/ClusteredPixelQuenteFrioChooser.java:213 | distinct in-grid cells use distinct `visited` entries |
| `Water.RefinedKeeps` | src/main/java/org/fogbowcloud/sebal/ClusteredPixelQuenteFrioChooser.java:183-193 | refinement keeps exactly the large-enough samples, unchanged, and refining again changes nothing |
| `Water.SelectBestSample` | src/main/java/org/fogbowcloud/sebal/ClusteredPixelQuenteFrioChooser.java:195-203 | it returns a sample of the map at least as large as every other; it returns none exactly for an empty map |
| `Water.SamplesDisjoint` | src/main/java/org/fogbowcloud/sebal/ClusteredPixelQuenteFrioChooser.java:228-252 | between steps of the search no cell belongs to two samples |
| `Water.MembershipBound` | src/main/java/org/fogbowcloud/sebal/ClusteredPixelQuenteFrioChooser.java:228-252 | the samples hold at most `width*height` pixels in all |
| `Water.SamplePixelsAreWater` | src/main/java/org/fogbowcloud/sebal/ClusteredPixelQuenteFrioChooser.java:239-243 | every sample pixel is the image pixel of its in-grid cell and has negative NDVI |
| `Water.SamplesStartAtSeeds` | src/main/java/org/fogbowcloud/sebal/ClusteredPixelQuenteFrioChooser.java:216-220 | every sample starts at its cloud-free water-test seed, and its cells are distinct and 4-connected |
| `Water.SeedsVisited` | src/main/java/org/fogbowcloud/sebal/ClusteredPixelQuenteFrioChooser.java:213-215 | an unvisited cell is not yet the key of a sample |
| `Water.WaterSearch.constructor` | src/main/java/org/fogbowcloud/sebal/ClusteredPixelQuenteFrioChooser.java:206-209 | the search starts with an empty sample map and a fresh `visited` array of one entry per pixel, all false |
| `Water.WaterSearch.FindWater` | src/main/java/org/fogbowcloud/sebal/ClusteredPixelQuenteFrioChooser.java:205-226 | the scan keeps the search invariant, and at its end every cloud-free water-test cell is visited |
| `Water.WaterSearch.ScanColumn` | src/main/java/org/fogbowcloud/sebal/ClusteredPixelQuenteFrioChooser.java:212-222 | after column i, every seed in columns up to i is visited |
| `Water.WaterSearch.Fill` | src/main/java/org/fogbowcloud/sebal/ClusteredPixelQuenteFrioChooser.java:228-252 | the fill keeps the invariant and changes only the seed's sample, which is new or longer; the visited marks only grow; an in-grid start cell ends visited |
| `Water.WaterSearch.Flood` | src/main/java/org/fogbowcloud/sebal/ClusteredPixelQuenteFrioChooser.java:234-252 | from an unvisited cell: mark it, and spread only when it joins the sample |
| `Water.WaterSearch.Spread` | src/main/java/org/fogbowcloud/sebal/ClusteredPixelQuenteFrioChooser.java:248-251 | the four neighbour fills extend only the current sample and keep the seed order |
| `Water.WaterSearch.SpreadAcross` | src/main/java/org/fogbowcloud/sebal/ClusteredPixelQuenteFrioChooser.java:248-249 | the right then left fills extend only the current sample |
| `Water.WaterSearch.SpreadAlong` | src/main/java/org/fogbowcloud/sebal/ClusteredPixelQuenteFrioChooser.java:250-251 | the lower then upper fills extend only the current sample |
| `Water.WaterSearch.Visit` | src/main/java/org/fogbowcloud/sebal/ClusteredPixelQuenteFrioChooser.java:234-246 | the cell becomes visited (one more mark); it joins the seed's sample, creating it if absent, exactly when its NDVI is negative |
| `Water.WaterSearch.Mark` | src/main/java/org/fogbowcloud/sebal/ClusteredPixelQuenteFrioChooser.java:237 | exactly the cell's `visited` entry is set |
| `Water.WaterSearch.Open` | src/main/java/org/fogbowcloud/sebal/ClusteredPixelQuenteFrioChooser.java:240-243 | a new sample keyed by the seed holds just the seed's pixel |
| `Water.WaterSearch.Grow` | src/main/java/org/fogbowcloud/sebal/ClusteredPixelQuenteFrioChooser.java:243 | the cell's pixel and cell are appended to the seed's sample; nothing else changes |
| `Chooser.ClusteredChooser.constructor` | src/main/java/org/fogbowcloud/sebal/ClusteredPixelQuenteFrioChooser.java:22-30 | the chooser holds the given parameters and no chosen pixel |
| `Chooser.ClusteredChooser.ChoosePixelsQuenteFrio` | src/main/java/org/fogbowcloud/sebal/ClusteredPixelQuenteFrioChooser.java:79-114 | the cold pixel is the combination of a water pixel of the image with the out-of-water pick from the image's pool; the hot pixel is the pool's hot pick, or unchanged when there is none |
| `Chooser.ClusteredChooser.ProcessTiles` | src/main/java/org/fogbowcloud/sebal/ClusteredPixelQuenteFrioChooser.java:89-98 | both fresh pools end up holding the pool of the image: the pixels of every passing tile, in tile order |
| `Chooser.ClusteredChooser.ProcessColumn` | src/main/java/org/fogbowcloud/sebal/ClusteredPixelQuenteFrioChooser.java:90-97 | one column band appends that band's passing tiles to both pools |
| `Chooser.ClusteredChooser.ProcessTile` | src/main/java/org/fogbowcloud/sebal/ClusteredPixelQuenteFrioChooser.java:91-96 | the clipped tile at `(x0, y0)` is appended to both pools exactly when it passes |
| `Chooser.ClusteredChooser.CreateCluster` | src/main/java/org/fogbowcloud/sebal/ClusteredPixelQuenteFrioChooser.java:367-376 | the cluster is the pixels at the column-major cluster positions, in loop order |
| `Chooser.ClusteredChooser.ProcessCluster` | src/main/java/org/fogbowcloud/sebal/ClusteredPixelQuenteFrioChooser.java:120-129 | a passing cluster is appended to both lists; otherwise neither changes |
| `Chooser.ClusteredChooser.CalcCvForNdvi` | src/main/java/org/fogbowcloud/sebal/ClusteredPixelQuenteFrioChooser.java:131-151 | the scan's early return and final quotient equal the cluster's statistic `CvOf` |
| `Chooser.ClusteredChooser.FindPixelFrioInTheWater` | src/main/java/org/fogbowcloud/sebal/ClusteredPixelQuenteFrioChooser.java:153-165 | a found pixel is an image pixel with negative NDVI |
| `Chooser.ClusteredChooser.RefineSamples` | src/main/java/org/fogbowcloud/sebal/ClusteredPixelQuenteFrioChooser.java:183-193 | removing the small samples key by key leaves exactly the refined map |
| `Chooser.ClusteredChooser.SelectPixelFrioInTheWater` | src/main/java/org/fogbowcloud/sebal/ClusteredPixelQuenteFrioChooser.java:167-181 | the result is the Ts-band pick of the sample |
| `Chooser.ClusteredChooser.SelectPixelQuente` | src/main/java/org/fogbowcloud/sebal/ClusteredPixelQuenteFrioChooser.java:254-275 | the hot pixel is set to the hot pick when there is one and left as it was otherwise; the caller's list is left sorted by NDVI and cleaned up |
| `Chooser.ClusteredChooser.SelectPixelFrioOutOfWater` | src/main/java/org/fogbowcloud/sebal/ClusteredPixelQuenteFrioChooser.java:277-311 | the cold pixel is the corrected combination of the in-water pixel with the out-of-water pick; the caller's list is left sorted by NDVI, descending |
| `Chooser.ClusteredChooser.FirstInBand` | src/main/java/org/fogbowcloud/sebal/ClusteredPixelQuenteFrioChooser.java:296-304 | the scan returns the first pixel in the band |
| `Chooser.ClusteredChooser.TsArray` | src/main/java/org/fogbowcloud/sebal/ClusteredPixelQuenteFrioChooser.java:263-266 | a fresh array of the candidates' Ts, in order |
| `Chooser.ClusteredChooser.FilterBiggestTs` | src/main/java/org/fogbowcloud/sebal/ClusteredPixelQuenteFrioChooser.java:313-321 | the list is left sorted by Ts and reversed; the result is its kept prefix |
| `Chooser.ClusteredChooser.FilterBiggestNdvi` | src/main/java/org/fogbowcloud/sebal/ClusteredPixelQuenteFrioChooser.java:349-357 | the list is left sorted by NDVI and reversed; the result is its kept prefix |
| `Chooser.ClusteredChooser.FilterSmallestTs` | src/main/java/org/fogbowcloud/sebal/ClusteredPixelQuenteFrioChooser.java:340-347 | the list is left sorted by Ts; the result is its kept prefix |
| `Chooser.ClusteredChooser.FilterSmallestNdvi` | src/main/java/org/fogbowcloud/sebal/ClusteredPixelQuenteFrioChooser.java:323-338 | the list is left sorted by NDVI without its non-positive pixels; the result is its kept prefix |
| `Chooser.ClusteredChooser.TakeFirst` | src/main/java/org/fogbowcloud/sebal/ClusteredPixelQuenteFrioChooser.java:316-319 | the copy loop gives a fresh list of the first `count` entries |
| `Chooser.NonPositiveStep` | src/main/java/org/fogbowcloud/sebal/ClusteredPixelQuenteFrioChooser.java:327-331 | removing a non-positive pixel found in the copy removes that very pixel from the list, since the kept front is all positive |
| `Chooser.TileArguments` | src/main/java/org/fogbowcloud/sebal/ClusteredPixelQuenteFrioChooser.java:91-94 | the arguments the tile loop passes to `createCluster` describe the clipped tile at `(x0, y0)` |
| `Records.WindCorrectedSucceeds` | src/main/java/org/fogbowcloud/sebal/parsers/WeatherStation.java:140-158 | the correction succeeds exactly when every record's wind speed parses |
| `Records.WindCorrectedAppend` | src/main/java/org/fogbowcloud/sebal/parsers/WeatherStation.java:140-158 | the correction works record by record, so the surviving records keep their order |
| `Records.WindFailureStays` | src/main/java/org/fogbowcloud/sebal/parsers/WeatherStation.java:143-144 | a parse failure aborts the whole correction, whatever records follow |
| `Records.WindCorrectedSingle` | src/main/java/org/fogbowcloud/sebal/parsers/WeatherStation.java:143-157 | a single record is raised to "0.3", dropped or kept, or makes the correction fail |
| `Records.WindCorrectedInRange` | src/main/java/org/fogbowcloud/sebal/parsers/WeatherStation.java:148-157 | every record left by a successful correction has a wind speed within `[0.3, 31.0]` |
| `Records.WindCorrectedIdempotent` | src/main/java/org/fogbowcloud/sebal/parsers/WeatherStation.java:134-164 | correcting corrected records changes nothing |
| `Records.WindCorrectedLength` | src/main/java/org/fogbowcloud/sebal/parsers/WeatherStation.java:154-156 | exactly the records faster than 31.0 are removed |
| `Records.CompleteRecordsAppend` | src/main/java/org/fogbowcloud/sebal/parsers/WeatherStation.java:100-107 | the completeness filter works record by record and keeps the order |
| `Records.CompleteRecordsCount` | src/main/java/org/fogbowcloud/sebal/parsers/WeatherStation.java:100-107 | each complete record is kept as often as it occurs, and no incomplete one is kept |
| `Records.CompleteRecordsIdempotent` | src/main/java/org/fogbowcloud/sebal/parsers/WeatherStation.java:100-107 | filtering twice keeps what filtering once keeps |
| `Records.AcceptableAtNoon` | src/main/java/org/fogbowcloud/sebal/parsers/WeatherStation.java:109-117 | acceptance means at least three records, one of them at time "1200" |
| `Format.StationDataCorrection` | src/main/java/org/fogbowcloud/sebal/parsers/WeatherStation.java:224-229 | an empty field becomes the non-empty "NA"; any other text is kept |
| `Format.StationDataCorrectionIdempotent` | src/main/java/org/fogbowcloud/sebal/parsers/WeatherStation.java:224-229 | correcting a corrected field changes nothing |
| `Format.RecordLineFields` | src/main/java/org/fogbowcloud/sebal/parsers/WeatherStation.java:192-222 | when no field holds a ';', a record's line splits back into its fourteen columns and the line separator |
| `Format.SplitJoin` | src/main/java/org/fogbowcloud/sebal/parsers/WeatherStation.java:218-221 | splitting `;`-terminated fields followed by a `;`-free tail gives back the fields and the tail |
| `Format.TrimBounds` | src/main/java/org/fogbowcloud/sebal/parsers/WeatherStation.java:189 | trimming cuts a slice whose removed ends are blank and whose kept ends are not |
| `Format.TrimIdempotent` | src/main/java/org/fogbowcloud/sebal/parsers/WeatherStation.java:189 | trimming a trimmed text changes nothing |
| `Format.StationTextEmpty` | src/main/java/org/fogbowcloud/sebal/parsers/WeatherStation.java:183-190 | the station text is empty exactly when there are no records |
| `Weather.RecordArray.constructor` | src/main/java/org/fogbowcloud/sebal/parsers/WeatherStation.java:138 | the copy holds the given records |
| `Weather.ContainsNeededStationValues` | src/main/java/org/fogbowcloud/sebal/parsers/WeatherStation.java:166-181 | the loop's answer is true exactly when all seven needed fields are non-empty |
| `Weather.HasRecord` | src/main/java/org/fogbowcloud/sebal/parsers/WeatherStation.java:122-132 | the early-stopping scan answers whether some record's field reads the value |
| `Weather.CheckRecords` | src/main/java/org/fogbowcloud/sebal/parsers/WeatherStation.java:96-120 | the in-place removal leaves exactly the complete records, in order; the answer is whether those are acceptable; a null array is rejected |
| `Weather.WindSpeedCorrection` | src/main/java/org/fogbowcloud/sebal/parsers/WeatherStation.java:134-164 | a fresh array of the corrected records, or the parse failure; a null array gives an empty one; the argument is untouched |
| `Weather.GenerateStationData` | src/main/java/org/fogbowcloud/sebal/parsers/WeatherStation.java:183-190 | the builder loop gives the trimmed concatenation of the record lines |
| `Weather.FirstPassingNone` | src/main/java/org/fogbowcloud/sebal/parsers/WeatherStation.java:58-94 | the selection gives null exactly when no station passes |
| `Weather.FirstPassingIsFirst` | src/main/java/org/fogbowcloud/sebal/parsers/WeatherStation.java:58-94 | a selected text is that of some passing station with no passing station before it |
| `Weather.SelectStation` | src/main/java/org/fogbowcloud/sebal/parsers/WeatherStation.java:58-94 | the loop returns the first passing station's text; exceptions skip a station; a null or empty list gives null |

## Left out

- Logging, timing and console output in both classes are not modelled.
- `Chooser.ClusteredChooser.constructor`: takes a ready `Config`. The parsing of the `Properties` object, with its `Integer.parseInt` and `Double.parseDouble` failures, is not modelled. `Grid.DefaultConfig` holds the default values.
- Both cluster sizes must be at least 1. With a size of 0 or less, the Java tile loop never terminates.
- Pixel attributes are reals, not doubles: there is no rounding, and no NaN or infinity inside pixel values. The NaN means of empty arrays are modelled as absent means.
- The variance and square root of `calcCVForNDVI` are not computed as doubles. The coefficient is kept as (variance, mean). `Homogeneity.RatioTestIsQuotientTest` proves that its test is the quotient comparison.
- The sample variance is written out as the bias-corrected formula of the statistics library. The library's code is not part of this model.
- Java `Collections.sort` is modelled by a stable insertion sort on the attribute. The comparator classes are not part of this model and are taken to compare that one attribute.
- `Chooser.ClusteredChooser.FilterBiggestTs`, `FilterBiggestNdvi`, `FilterSmallestTs`, `FilterSmallestNdvi`: they require `0 <= percent <= 100`. The code only calls them with 5, 10 and 20.
- The water samples are keyed by their seed cell instead of the string `i + "_" + j`. Both naming schemes are one-to-one.
- The `PixelSample` class is not part of this model. Its longitude and latitude counts are taken to be the numbers of distinct columns and rows of the sample.
- `Water.SelectBestSample`: it promises *some* largest sample. The code returns the first largest one in `HashMap` iteration order, which is not modelled.
- `Water.WaterSearch.FindWater`: it states the invariant kept by the search and that every seed is visited. It does not give the sample map as a closed-form function of the image.
- The recursion depth of the fill is not modelled: a large water body can overflow the Java stack.
- `Chooser.ClusteredChooser.FindPixelFrioInTheWater`: it only states that a found pixel is a negative-NDVI pixel of the image. The steps it chains each have a full contract of their own.
- `Chooser.ClusteredChooser.ChoosePixelsQuenteFrio`, `Chooser.ClusteredChooser.SelectPixelFrioOutOfWater`: the first returns the in-water pixel as a ghost value that is characterised only as above. The second combines that pixel with the out-of-water pixel using the corrected rule `Picks.ColdChoice` (see Findings), not the null dereference of the written code.
- `Chooser.ClusteredChooser.ProcessTiles`, `ProcessColumn`, `ProcessTile`, `Water.WaterSearch.ScanColumn`, `Flood`, `Spread`, `SpreadAcross`, `SpreadAlong`, `Visit`, `Mark`, `Open`, `Grow`: these split the source's loops and recursive method into parts. The statements are the same and in the same order.
- `Chooser.ClusteredChooser.ProcessColumn`: it requires both pools to hold the same list, which holds at every call from the tile loop.
- Network access (`findNearestStation`, `readStation`) is left out. Reading a station is a function parameter that gives the records, a null array or an exception. The dates of the reading window are not modelled.
- `Double.parseDouble` is a function parameter; the NumberFormatException it may throw is the `None` case. The wind-speed bounds are the reals 0.3 and 31.0.
- A JSON array is a list of field maps. A non-object element, which `optJSONObject` turns into null and the code would then dereference, is not modelled.
- The station distance is given as the text `Double.toString` would print.
- `System.lineSeparator()` is a single newline.
- `String.trim` removes the characters up to U+0020, as in Java. Strings are sequences of characters without any encoding.

## Findings

| source | as written | input that shows it | evidently intended | confidence | as-written member | corrected member |
|---|---|---|---|---|---|---|
| src/main/java/org/fogbowcloud/sebal/ClusteredPixelQuenteFrioChooser.java:305-307 | when a cold pixel was found in the water, the out-of-water pixel is dereferenced even when no candidate met the bands and it is null | an image with one water body and no out-of-water candidate inside the Ts and albedo bands (e.g. an empty candidate pool): a water pixel with Ts 290 and no out-of-water pixel | the in-water pixel is the cold pixel when there is no out-of-water pixel | not executed | `Picks.ColdChoiceAsWrittenFails` | `Picks.ColdChoice` |
