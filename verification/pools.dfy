/**
 * The candidate pools the tile loop collects: the positions of every tile
 * whose NDVI homogeneity test passes, in tile order. Both pools (hot and cold
 * candidates) receive exactly these pixels.
 */
module Pools {
  import opened Grid
  import opened Tiling
  import opened Homogeneity

  /** The positions of the tile at (x0, y0), clipped at the image edge, column by column. */
  function TileCluster(img: Image, cfg: Config, x0: int, y0: int): (r: seq<int>)
    requires ValidImage(img) && ValidConfig(cfg) && 0 <= x0 < img.width && 0 <= y0 < img.height
    ensures forall k :: 0 <= k < |r| ==> 0 <= r[k] < |img.pixels|
  {
    var bw, bh := Min(cfg.clusterWidth, img.width - x0), Min(cfg.clusterHeight, img.height - y0);
    TileClusterInGrid(img.width, img.height, x0, y0, bw, bh);
    ClusterIndices(Linear(x0, y0, img.width), img.width, bw, bh)
  }

  /** The homogeneity test a tile must pass to join the pools. */
  predicate Homogeneous(cfg: Config, cluster: seq<Pixel>)
  {
    Accepts(CvOf(cluster, cfg.maxInvalidNdviValues), cfg.maxCvForNdvi)
  }

  /**
   * The same test as a value. The pool functions below take the test as a
   * parameter, so that their structural lemmas hold for any test.
   */
  function HomogeneityTest(cfg: Config): seq<Pixel> -> bool
  {
    cluster => Homogeneous(cfg, cluster)
  }

  /** The pooled positions of the tiles of column band x0, from row y0 down. */
  function PoolColumn(img: Image, cfg: Config, test: seq<Pixel> -> bool, x0: int, y0: int): (r: seq<int>)
    requires ValidImage(img) && ValidConfig(cfg) && 0 <= x0 < img.width && 0 <= y0
    ensures forall k :: 0 <= k < |r| ==> 0 <= r[k] < |img.pixels|
    decreases img.height - y0
  {
    if y0 >= img.height then []
    else
      var idx := TileCluster(img, cfg, x0, y0);
      (if test(PixelsAt(img.pixels, idx)) then idx else [])
      + PoolColumn(img, cfg, test, x0, y0 + cfg.clusterHeight)
  }

  /** The pooled positions of the column bands from x0 on. */
  function PoolFrom(img: Image, cfg: Config, test: seq<Pixel> -> bool, x0: int): (r: seq<int>)
    requires ValidImage(img) && ValidConfig(cfg) && 0 <= x0
    ensures forall k :: 0 <= k < |r| ==> 0 <= r[k] < |img.pixels|
    decreases img.width - x0
  {
    if x0 >= img.width then []
    else PoolColumn(img, cfg, test, x0, 0) + PoolFrom(img, cfg, test, x0 + cfg.clusterWidth)
  }

  /** The candidate pool of an image. */
  function Pool(img: Image, cfg: Config): seq<Pixel>
    requires ValidImage(img) && ValidConfig(cfg)
  {
    PixelsAt(img.pixels, PoolFrom(img, cfg, HomogeneityTest(cfg), 0))
  }

  /** What the tile at (x0, y0) adds to a pool: its pixels when it passes the test, nothing otherwise. */
  function Kept(img: Image, cfg: Config, test: seq<Pixel> -> bool, x0: int, y0: int): seq<Pixel>
    requires ValidImage(img) && ValidConfig(cfg) && 0 <= x0 < img.width && 0 <= y0 < img.height
  {
    var cluster := PixelsAt(img.pixels, TileCluster(img, cfg, x0, y0));
    if test(cluster) then cluster else []
  }

  /** One step down a column band: the tile at y0, when it passes, comes before the rest of the band. */
  lemma PoolColumnPixels(img: Image, cfg: Config, test: seq<Pixel> -> bool, x0: int, y0: int)
    requires ValidImage(img) && ValidConfig(cfg) && 0 <= x0 < img.width && 0 <= y0 < img.height
    ensures PixelsAt(img.pixels, PoolColumn(img, cfg, test, x0, y0))
         == Kept(img, cfg, test, x0, y0) + PixelsAt(img.pixels, PoolColumn(img, cfg, test, x0, y0 + cfg.clusterHeight))
  {
    var tile := TileCluster(img, cfg, x0, y0);
    var rest := PoolColumn(img, cfg, test, x0, y0 + cfg.clusterHeight);
    if test(PixelsAt(img.pixels, tile)) {
      PixelsAtAppend(img.pixels, tile, rest);
    } else {
      assert PoolColumn(img, cfg, test, x0, y0) == rest;
    }
  }

  /** One step across the image: column band x0 comes before the bands to its right. */
  lemma PoolFromPixels(img: Image, cfg: Config, test: seq<Pixel> -> bool, x0: int)
    requires ValidImage(img) && ValidConfig(cfg) && 0 <= x0 < img.width
    ensures PixelsAt(img.pixels, PoolFrom(img, cfg, test, x0))
         == PixelsAt(img.pixels, PoolColumn(img, cfg, test, x0, 0)) + PixelsAt(img.pixels, PoolFrom(img, cfg, test, x0 + cfg.clusterWidth))
  {
    var column := PoolColumn(img, cfg, test, x0, 0);
    var rest := PoolFrom(img, cfg, test, x0 + cfg.clusterWidth);
    assert PoolFrom(img, cfg, test, x0) == column + rest;
    PixelsAtAppend(img.pixels, column, rest);
  }

  /** The tile at y0 contributes to a column band's pool at most what it holds. */
  lemma PoolColumnHeadCount(img: Image, cfg: Config, test: seq<Pixel> -> bool, x0: int, y0: int, k: int)
    requires ValidImage(img) && ValidConfig(cfg) && 0 <= x0 < img.width && 0 <= y0 < img.height
    ensures Count(PoolColumn(img, cfg, test, x0, y0), k)
         <= Count(TileCluster(img, cfg, x0, y0), k) + Count(PoolColumn(img, cfg, test, x0, y0 + cfg.clusterHeight), k)
  {
    var idx := TileCluster(img, cfg, x0, y0);
    var pool := PoolColumn(img, cfg, test, x0, y0 + cfg.clusterHeight);
    if test(PixelsAt(img.pixels, idx)) {
      assert PoolColumn(img, cfg, test, x0, y0) == idx + pool;
      CountAppend(idx, pool, k);
    } else {
      assert PoolColumn(img, cfg, test, x0, y0) == pool;
    }
  }

  /** A column band's tiles from y0 down count the tile at y0 and those below it. */
  lemma TileColumnHeadCount(img: Image, cfg: Config, x0: int, y0: int, k: int)
    requires ValidImage(img) && ValidConfig(cfg) && 0 <= x0 < img.width && 0 <= y0 < img.height
    ensures Count(TileColumn(img.width, img.height, cfg.clusterWidth, cfg.clusterHeight, x0, y0), k)
         == Count(TileCluster(img, cfg, x0, y0), k)
            + Count(TileColumn(img.width, img.height, cfg.clusterWidth, cfg.clusterHeight, x0, y0 + cfg.clusterHeight), k)
  {
    var w, h, cw, ch := img.width, img.height, cfg.clusterWidth, cfg.clusterHeight;
    TileColumnUnfold(w, h, cw, ch, x0, y0);
    CountAppend(TileCluster(img, cfg, x0, y0), TileColumn(w, h, cw, ch, x0, y0 + ch), k);
  }

  lemma {:induction false} PoolColumnCount(img: Image, cfg: Config, test: seq<Pixel> -> bool, x0: int, y0: int, k: int)
    requires ValidImage(img) && ValidConfig(cfg) && 0 <= x0 < img.width && 0 <= y0
    ensures Count(PoolColumn(img, cfg, test, x0, y0), k)
         <= Count(TileColumn(img.width, img.height, cfg.clusterWidth, cfg.clusterHeight, x0, y0), k)
    decreases img.height - y0
  {
    if y0 < img.height {
      var below := y0 + cfg.clusterHeight;
      PoolColumnCount(img, cfg, test, x0, below, k);
      var pooled, tiled := Count(PoolColumn(img, cfg, test, x0, below), k),
                           Count(TileColumn(img.width, img.height, cfg.clusterWidth, cfg.clusterHeight, x0, below), k);
      assert pooled <= tiled;
      PoolColumnHeadCount(img, cfg, test, x0, y0, k);
      TileColumnHeadCount(img, cfg, x0, y0, k);
    } else {
      assert PoolColumn(img, cfg, test, x0, y0) == [];
      assert TileColumn(img.width, img.height, cfg.clusterWidth, cfg.clusterHeight, x0, y0) == [];
    }
  }

  /** The pool from band x0 on is band x0's pool followed by the pool of the bands to its right. */
  lemma PoolFromUnfold(img: Image, cfg: Config, test: seq<Pixel> -> bool, x0: int)
    requires ValidImage(img) && ValidConfig(cfg) && 0 <= x0 < img.width
    ensures PoolFrom(img, cfg, test, x0) == PoolColumn(img, cfg, test, x0, 0) + PoolFrom(img, cfg, test, x0 + cfg.clusterWidth)
  {
  }

  lemma {:induction false} PoolFromCount(img: Image, cfg: Config, test: seq<Pixel> -> bool, x0: int, k: int)
    requires ValidImage(img) && ValidConfig(cfg) && 0 <= x0
    ensures Count(PoolFrom(img, cfg, test, x0), k)
         <= Count(TileOrderFrom(img.width, img.height, cfg.clusterWidth, cfg.clusterHeight, x0), k)
    decreases img.width - x0
  {
    var w, h, cw, ch := img.width, img.height, cfg.clusterWidth, cfg.clusterHeight;
    if x0 < w {
      PoolFromUnfold(img, cfg, test, x0);
      TileOrderFromUnfold(w, h, cw, ch, x0);
      PoolColumnCount(img, cfg, test, x0, 0, k);
      PoolFromCount(img, cfg, test, x0 + cw, k);
      CountAppendLe(PoolColumn(img, cfg, test, x0, 0), PoolFrom(img, cfg, test, x0 + cw),
                    TileColumn(w, h, cw, ch, x0, 0), TileOrderFrom(w, h, cw, ch, x0 + cw), k);
    } else {
      assert PoolFrom(img, cfg, test, x0) == [];
      assert TileOrderFrom(w, h, cw, ch, x0) == [];
    }
  }

  /** No image position enters a pool twice, and only image positions enter it. */
  lemma PoolPositionsOnce(img: Image, cfg: Config, k: int)
    requires ValidImage(img) && ValidConfig(cfg)
    ensures Count(PoolFrom(img, cfg, HomogeneityTest(cfg), 0), k) <= if 0 <= k < img.width * img.height then 1 else 0
  {
    PoolFromCount(img, cfg, HomogeneityTest(cfg), 0, k);
    TileOrderCount(img.width, img.height, cfg.clusterWidth, cfg.clusterHeight, k);
  }
}
