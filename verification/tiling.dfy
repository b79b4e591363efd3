/**
 * The cut of the grid into clusters: which linear positions each cluster holds,
 * in the order the cluster lists them, and the proof that the tile loop
 * reaches every position of the grid exactly once.
 *
 * Positions are built by stepping (one to the right, w down) rather than by
 * multiplying, so that the proofs about them stay linear.
 */
module Tiling {
  import opened Grid

  /** The positions s, s + w, s + 2w, ... of one grid column segment of length n. */
  function Column(s: int, w: int, n: nat): seq<int>
    decreases n
  {
    if n == 0 then [] else [s] + Column(s + w, w, n - 1)
  }

  /** Column s of length n has n entries and its entry j is s + j * w. */
  lemma {:induction false} ColumnAt(s: int, w: int, n: nat, j: nat)
    requires j < n
    ensures |Column(s, w, n)| == n && Column(s, w, n)[j] == s + j * w
    decreases j
  {
    ColumnLength(s, w, n);
    if j > 0 {
      ColumnAt(s + w, w, n - 1, j - 1);
      assert j * w == w + (j - 1) * w;
    }
  }

  lemma {:induction false} ColumnLength(s: int, w: int, n: nat)
    ensures |Column(s, w, n)| == n
    decreases n
  {
    if n > 0 {
      ColumnLength(s + w, w, n - 1);
    }
  }

  /** A column one pixel longer ends with the pixel n rows below its first. */
  lemma {:induction false} ColumnSnoc(s: int, w: int, n: nat)
    ensures Column(s, w, n + 1) == Column(s, w, n) + [s + n * w]
    decreases n
  {
    if n > 0 {
      ColumnSnoc(s + w, w, n - 1);
      assert s + w + (n - 1) * w == s + n * w;
    }
  }

  /**
   * The positions a cluster of cw x ch pixels starting at linear position first
   * collects: column by column, each column top to bottom.
   */
  function ClusterIndices(first: int, w: int, cw: nat, ch: nat): seq<int>
    decreases cw
  {
    if cw == 0 then [] else Column(first, w, ch) + ClusterIndices(first + 1, w, cw - 1, ch)
  }

  lemma {:induction false} ClusterIndicesLength(first: int, w: int, cw: nat, ch: nat)
    ensures |ClusterIndices(first, w, cw, ch)| == cw * ch
    decreases cw
  {
    if cw > 0 {
      ClusterIndicesLength(first + 1, w, cw - 1, ch);
      ColumnLength(first, w, ch);
      assert ch + (cw - 1) * ch == cw * ch;
    }
  }

  /** Cluster position di * ch + dj holds pixel (first + di) + dj * w: the cluster is column-major. */
  lemma ClusterIndicesAt(first: int, w: int, cw: nat, ch: nat, di: nat, dj: nat)
    requires di < cw && dj < ch
    ensures |ClusterIndices(first, w, cw, ch)| == cw * ch
    ensures di * ch + dj < cw * ch
    ensures ClusterIndices(first, w, cw, ch)[di * ch + dj] == first + di + dj * w
  {
    ClusterIndicesLength(first, w, cw, ch);
    ClusterPositionAt(first, w, cw, ch, di, dj, di * ch + dj);
    MulMonotone(di + 1, cw, ch);
  }

  lemma {:induction false} ClusterPositionAt(first: int, w: int, cw: nat, ch: nat, di: nat, dj: nat, p: nat)
    requires di < cw && dj < ch && p == di * ch + dj
    ensures p < |ClusterIndices(first, w, cw, ch)| && ClusterIndices(first, w, cw, ch)[p] == first + di + dj * w
    decreases di
  {
    ColumnMajorIndex(di, dj, ch, p);
    var col, rest := Column(first, w, ch), ClusterIndices(first + 1, w, cw - 1, ch);
    assert ClusterIndices(first, w, cw, ch) == col + rest;
    ColumnAt(first, w, ch, dj);
    ColumnLength(first, w, ch);
    if di > 0 {
      ClusterPositionAt(first + 1, w, cw - 1, ch, di - 1, dj, p - ch);
    }
  }

  /** The arithmetic of column-major positions: position p = di * ch + dj lies past the first column when di > 0. */
  lemma ColumnMajorIndex(di: nat, dj: nat, ch: nat, p: int)
    requires p == di * ch + dj
    ensures di == 0 ==> p == dj
    ensures di > 0 ==> p - ch == (di - 1) * ch + dj && p >= ch
  {
    if di > 0 {
      assert di * ch == (di - 1) * ch + ch;
      MulMonotone(0, di - 1, ch);
    }
  }

  /** A cluster one column wider ends with the column cw to the right of its first pixel. */
  lemma {:induction false} ClusterIndicesSnoc(first: int, w: int, cw: nat, ch: nat)
    ensures ClusterIndices(first, w, cw + 1, ch) == ClusterIndices(first, w, cw, ch) + Column(first + cw, w, ch)
    decreases cw
  {
    if cw > 0 {
      ClusterIndicesSnoc(first + 1, w, cw - 1, ch);
    }
  }

  /** Every position a cluster lists lies between first and its last pixel first + (cw - 1) + (ch - 1) * w. */
  lemma {:induction false} ClusterIndicesBounds(first: int, w: nat, cw: nat, ch: nat)
    requires cw > 0 && ch > 0
    ensures forall k :: 0 <= k < |ClusterIndices(first, w, cw, ch)| ==>
      first <= ClusterIndices(first, w, cw, ch)[k] <= first + (cw - 1) + (ch - 1) * w
    decreases cw
  {
    var col := Column(first, w, ch);
    var rest := ClusterIndices(first + 1, w, cw - 1, ch);
    assert ClusterIndices(first, w, cw, ch) == col + rest;
    ColumnLength(first, w, ch);
    if cw > 1 {
      ClusterIndicesBounds(first + 1, w, cw - 1, ch);
    }
    forall j | 0 <= j < |col|
      ensures first <= col[j] <= first + (cw - 1) + (ch - 1) * w
    {
      ColumnAt(first, w, ch, j);
      MulMonotone(j, ch - 1, w);
      MulMonotone(0, j, w);
    }
  }

  /** A shorter column from the same start is a prefix of a longer one. */
  lemma {:induction false} ColumnPrefix(s: int, w: int, m: nat, n: nat)
    requires m <= n
    ensures Column(s, w, m) <= Column(s, w, n)
    decreases n
  {
    if m < n {
      ColumnPrefix(s, w, m, n - 1);
      ColumnSnoc(s, w, n - 1);
    }
  }

  /** A narrower cluster from the same first position is a prefix of a wider one. */
  lemma {:induction false} ClusterIndicesPrefix(first: int, w: int, a: nat, b: nat, ch: nat)
    requires a <= b
    ensures ClusterIndices(first, w, a, ch) <= ClusterIndices(first, w, b, ch)
    decreases b
  {
    if a < b {
      ClusterIndicesPrefix(first, w, a, b - 1, ch);
      ClusterIndicesSnoc(first, w, b - 1, ch);
    }
  }

  /** The tiles of the column band starting at x0, from row y0 down, as the inner tile loop visits them. */
  function TileColumn(w: nat, h: nat, cw: int, ch: int, x0: int, y0: int): seq<int>
    requires cw >= 1 && ch >= 1 && 0 <= x0 < w && 0 <= y0
    decreases h - y0
  {
    if y0 >= h then []
    else ClusterIndices(Linear(x0, y0, w), w, Min(cw, w - x0), Min(ch, h - y0))
         + TileColumn(w, h, cw, ch, x0, y0 + ch)
  }

  /** The positions visited by the tile loop from column band x0 onwards. */
  function TileOrderFrom(w: nat, h: nat, cw: int, ch: int, x0: int): seq<int>
    requires cw >= 1 && ch >= 1 && 0 <= x0
    decreases w - x0
  {
    if x0 >= w then [] else TileColumn(w, h, cw, ch, x0, 0) + TileOrderFrom(w, h, cw, ch, x0 + cw)
  }

  /** A column band from y0 down is the tile at y0 followed by the tiles below it. */
  lemma TileColumnUnfold(w: nat, h: nat, cw: int, ch: int, x0: int, y0: int)
    requires cw >= 1 && ch >= 1 && 0 <= x0 < w && 0 <= y0 < h
    ensures TileColumn(w, h, cw, ch, x0, y0)
         == ClusterIndices(Linear(x0, y0, w), w, Min(cw, w - x0), Min(ch, h - y0)) + TileColumn(w, h, cw, ch, x0, y0 + ch)
  {
  }

  /** The positions from band x0 on are band x0's, then those of the bands to its right. */
  lemma TileOrderFromUnfold(w: nat, h: nat, cw: int, ch: int, x0: int)
    requires cw >= 1 && ch >= 1 && 0 <= x0 < w
    ensures TileOrderFrom(w, h, cw, ch, x0) == TileColumn(w, h, cw, ch, x0, 0) + TileOrderFrom(w, h, cw, ch, x0 + cw)
  {
  }

  /** Every position, in the order the whole tile loop collects them. */
  function TileOrder(w: nat, h: nat, cw: int, ch: int): seq<int>
    requires cw >= 1 && ch >= 1
  {
    TileOrderFrom(w, h, cw, ch, 0)
  }

  /** The n integers a, a + 1, ..., a + n - 1. */
  function Interval(a: int, n: nat): seq<int>
    decreases n
  {
    if n == 0 then [] else Interval(a, n - 1) + [a + n - 1]
  }

  /** How often k occurs in xs. */
  function Count(xs: seq<int>, k: int): nat
  {
    if xs == [] then 0 else (if xs[0] == k then 1 else 0) + Count(xs[1..], k)
  }

  lemma {:induction false} CountAppend(xs: seq<int>, ys: seq<int>, k: int)
    ensures Count(xs + ys, k) == Count(xs, k) + Count(ys, k)
  {
    if xs == [] {
      assert xs + ys == ys;
    } else {
      CountAppend(xs[1..], ys, k);
      assert (xs + ys)[1..] == xs[1..] + ys;
    }
  }

  /** Counts add up over concatenation, so bounds on the parts bound the whole. */
  lemma CountAppendLe(xs: seq<int>, ys: seq<int>, us: seq<int>, vs: seq<int>, k: int)
    requires Count(xs, k) <= Count(us, k) && Count(ys, k) <= Count(vs, k)
    ensures Count(xs + ys, k) <= Count(us + vs, k)
  {
    CountAppend(xs, ys, k);
    CountAppend(us, vs, k);
  }

  /** Count is the multiplicity of the sequence's multiset. */
  lemma {:induction false} CountIsMultiplicity(xs: seq<int>, k: int)
    ensures multiset(xs)[k] == Count(xs, k)
  {
    if xs != [] {
      CountIsMultiplicity(xs[1..], k);
      assert xs == [xs[0]] + xs[1..];
    }
  }

  /** Each integer of [a, a + n) occurs once in Interval(a, n), and nothing else occurs. */
  lemma {:induction false} IntervalCount(a: int, n: nat, k: int)
    ensures Count(Interval(a, n), k) == if a <= k < a + n then 1 else 0
    decreases n
  {
    if n > 0 {
      IntervalCount(a, n - 1, k);
      CountAppend(Interval(a, n - 1), [a + n - 1], k);
      assert [a + n - 1][1..] == [];
    }
  }

  /** The first m + n integers from a are the first m followed by the n from a + m. */
  lemma {:induction false} IntervalSplit(a: int, m: nat, n: nat)
    ensures Interval(a, m + n) == Interval(a, m) + Interval(a + m, n)
    decreases n
  {
    if n > 0 {
      IntervalSplit(a, m, n - 1);
    }
  }

  /** The bw x bh rectangle whose top-left pixel is at position s, row by row. */
  function Block(s: int, bw: nat, bh: nat, w: int): seq<int>
    decreases bh
  {
    if bh == 0 then [] else Interval(s, bw) + Block(s + w, bw, bh - 1, w)
  }

  /** A rectangle one pixel wide is a column. */
  lemma {:induction false} BlockOneColumn(s: int, bh: nat, w: int)
    ensures Block(s, 1, bh, w) == Column(s, w, bh)
    decreases bh
  {
    if bh > 0 {
      BlockOneColumn(s + w, bh - 1, w);
      assert Interval(s, 1) == [s];
    }
  }

  lemma {:induction false} BlockEmpty(s: int, bh: nat, w: int)
    ensures Block(s, 0, bh, w) == []
    decreases bh
  {
    if bh > 0 {
      BlockEmpty(s + w, bh - 1, w);
    }
  }

  /** A rectangle of width a + b holds the positions of the width-a part and of the width-b part to its right. */
  lemma {:induction false} BlockSplitColumns(s: int, a: nat, b: nat, bh: nat, w: int, k: int)
    ensures Count(Block(s, a + b, bh, w), k) == Count(Block(s, a, bh, w), k) + Count(Block(s + a, b, bh, w), k)
    decreases bh
  {
    if bh > 0 {
      BlockSplitColumns(s + w, a, b, bh - 1, w, k);
      IntervalSplit(s, a, b);
      CountAppend(Interval(s, a), Interval(s + a, b), k);
      CountAppend(Interval(s, a + b), Block(s + w, a + b, bh - 1, w), k);
      CountAppend(Interval(s, a), Block(s + w, a, bh - 1, w), k);
      CountAppend(Interval(s + a, b), Block(s + a + w, b, bh - 1, w), k);
      assert s + a + w == s + w + a;
    }
  }

  /** A cluster lists exactly the positions of its rectangle (in column order instead of row order). */
  lemma {:induction false} ClusterIsBlock(s: int, w: int, bw: nat, bh: nat, k: int)
    ensures Count(ClusterIndices(s, w, bw, bh), k) == Count(Block(s, bw, bh, w), k)
    decreases bw
  {
    if bw == 0 {
      BlockEmpty(s, bh, w);
    } else {
      ClusterIsBlock(s + 1, w, bw - 1, bh, k);
      CountAppend(Column(s, w, bh), ClusterIndices(s + 1, w, bw - 1, bh), k);
      BlockSplitColumns(s, 1, bw - 1, bh, w, k);
      BlockOneColumn(s, bh, w);
    }
  }

  /** A rectangle of height a + b is the rectangle of height a followed by the one of height b below it. */
  lemma {:induction false} BlockSplitRows(s: int, bw: nat, a: nat, b: nat, w: int)
    ensures Block(s, bw, a + b, w) == Block(s, bw, a, w) + Block(s + a * w, bw, b, w)
    decreases a
  {
    if a > 0 {
      BlockSplitRows(s + w, bw, a - 1, b, w);
      assert s + w + (a - 1) * w == s + a * w;
    }
  }

  /** The full-width rectangle of h rows from position s is the range [s, s + w * h). */
  lemma {:induction false} FullBlock(s: int, w: nat, h: nat)
    ensures Block(s, w, h, w) == Interval(s, w * h)
    decreases h
  {
    if h > 0 {
      FullBlock(s + w, w, h - 1);
      assert w * h == w + w * (h - 1);
      MulMonotone(0, h - 1, w);
      IntervalSplit(s, w, w * (h - 1));
    }
  }

  /** The tiles of one column band list exactly the positions of that band from row y0 down. */
  lemma {:induction false} TileColumnIsBlock(w: nat, h: nat, cw: int, ch: int, x0: int, y0: int, k: int)
    requires cw >= 1 && ch >= 1 && 0 <= x0 < w && 0 <= y0 <= h
    ensures Count(TileColumn(w, h, cw, ch, x0, y0), k) == Count(Block(Linear(x0, y0, w), Min(cw, w - x0), h - y0, w), k)
    decreases h - y0
  {
    var bw := Min(cw, w - x0);
    var start := Linear(x0, y0, w);
    if y0 == h {
      assert Block(start, bw, 0, w) == [];
    } else {
      var bh := Min(ch, h - y0);
      var cluster := ClusterIndices(start, w, bw, bh);
      var rest := TileColumn(w, h, cw, ch, x0, y0 + ch);
      assert TileColumn(w, h, cw, ch, x0, y0) == cluster + rest;
      CountAppend(cluster, rest, k);
      ClusterIsBlock(start, w, bw, bh, k);
      if y0 + ch >= h {
        assert rest == [];
      } else {
        TileColumnIsBlock(w, h, cw, ch, x0, y0 + ch, k);
        var below := start + ch * w;
        LinearDown(x0, y0, ch, w);
        BlockSplitRows(start, bw, ch, h - y0 - ch, w);
        CountAppend(Block(start, bw, ch, w), Block(below, bw, h - y0 - ch, w), k);
      }
    }
  }

  /** Moving d rows down moves the linear position by d * w. */
  lemma LinearDown(x: int, y: int, d: int, w: int)
    ensures Linear(x, y + d, w) == Linear(x, y, w) + d * w
  {
    assert (y + d) * w == y * w + d * w;
  }

  /** The tile loop from band x0 onwards lists exactly the positions of columns x0 .. w - 1. */
  lemma {:induction false} TileOrderFromIsBlock(w: nat, h: nat, cw: int, ch: int, x0: int, k: int)
    requires cw >= 1 && ch >= 1 && 0 <= x0 <= w
    ensures Count(TileOrderFrom(w, h, cw, ch, x0), k) == Count(Block(x0, w - x0, h, w), k)
    decreases w - x0
  {
    if x0 == w {
      BlockEmpty(x0, h, w);
    } else {
      var band := TileColumn(w, h, cw, ch, x0, 0);
      var rest := TileOrderFrom(w, h, cw, ch, x0 + cw);
      assert TileOrderFrom(w, h, cw, ch, x0) == band + rest;
      CountAppend(band, rest, k);
      TileColumnIsBlock(w, h, cw, ch, x0, 0, k);
      assert Linear(x0, 0, w) == x0;
      if x0 + cw >= w {
        assert rest == [];
      } else {
        TileOrderFromIsBlock(w, h, cw, ch, x0 + cw, k);
        BlockSplitColumns(x0, cw, w - x0 - cw, h, w, k);
      }
    }
  }

  /**
   * The tile loop with clipped cluster sizes visits every linear position of the
   * grid exactly once, and nothing outside it.
   */
  lemma TileOrderCoversOnce(w: nat, h: nat, cw: int, ch: int)
    requires cw >= 1 && ch >= 1
    ensures forall k :: multiset(TileOrder(w, h, cw, ch))[k] == if 0 <= k < w * h then 1 else 0
  {
    forall k ensures multiset(TileOrder(w, h, cw, ch))[k] == if 0 <= k < w * h then 1 else 0 {
      TileOrderCount(w, h, cw, ch, k);
      CountIsMultiplicity(TileOrder(w, h, cw, ch), k);
    }
  }

  /** The tile loop lists position k once if it lies in the grid and never otherwise. */
  lemma TileOrderCount(w: nat, h: nat, cw: int, ch: int, k: int)
    requires cw >= 1 && ch >= 1
    ensures Count(TileOrder(w, h, cw, ch), k) == if 0 <= k < w * h then 1 else 0
  {
    TileOrderFromIsBlock(w, h, cw, ch, 0, k);
    FullBlock(0, w, h);
    IntervalCount(0, w * h, k);
  }

  /** The clipped cluster of the tile at (x0, y0) only reaches pixels of the grid. */
  lemma TileClusterInGrid(w: nat, h: nat, x0: int, y0: int, bw: int, bh: int)
    requires 0 <= x0 < w && 0 <= y0 < h && 1 <= bw <= w - x0 && 1 <= bh <= h - y0
    ensures forall k :: 0 <= k < |ClusterIndices(Linear(x0, y0, w), w, bw, bh)| ==>
      0 <= ClusterIndices(Linear(x0, y0, w), w, bw, bh)[k] < w * h
  {
    ClusterIndicesBounds(Linear(x0, y0, w), w, bw, bh);
    LastClusterPixelInGrid(w, h, x0, y0, bw, bh);
  }

  /** The last pixel first + (cw - 1) + (ch - 1) * w of a clipped cluster lies in the grid. */
  lemma LastClusterPixelInGrid(w: nat, h: nat, x0: int, y0: int, bw: int, bh: int)
    requires 0 <= x0 < w && 0 <= y0 < h && 1 <= bw <= w - x0 && 1 <= bh <= h - y0
    ensures 0 <= Linear(x0, y0, w) && Linear(x0, y0, w) + (bw - 1) + (bh - 1) * w < w * h
  {
    LinearInGrid(x0 + bw - 1, y0 + bh - 1, w, h);
    assert Linear(x0, y0, w) + (bw - 1) + (bh - 1) * w == Linear(x0 + bw - 1, y0 + bh - 1, w);
    MulMonotone(0, y0, w);
  }
}
