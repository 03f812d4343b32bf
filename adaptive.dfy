/** Tiled adaptive equalisation, `adaptive_histogram_equalization` of
    src/histogram.py:64-103: the image is cut into a grid of tiles, each
    tile's histogram is clipped at clip_limit times its mean, the clipped
    excess is shared out evenly (remainder dropped), and the tile is
    remapped through its own normalised cdf. The clip threshold is the
    integer floor of clip_limit * mean; see README for why. */
module Adaptive {
  import opened Wrappers
  import opened Images
  import opened Histogram

  // ----- tiles (src/histogram.py:68-80) -----

  /** First row (or column) of tile t: t * (extent // grid). */
  function TileStart(t: nat, extent: nat, grid: nat): (start: nat)
    requires grid >= 1
    ensures t < grid ==> start + extent / grid <= extent
  {
    var size := extent / grid;
    if t < grid then
      MulBounds(t + 1, size, t + 1, grid);
      t * size
    else t * size
  }

  /** One past the last row of tile t: each tile but the last ends where
      the next one starts, and the last tile reaches the edge. */
  function TileEnd(t: nat, extent: nat, grid: nat): (end: nat)
    requires grid >= 1
    ensures t < grid ==> TileStart(t, extent, grid) <= end <= extent
    ensures t < grid - 1 ==> end == TileStart(t + 1, extent, grid)
    ensures t == grid - 1 ==> end == extent
  {
    var start := TileStart(t, extent, grid);
    if t < grid - 1 then (t + 1) * (extent / grid) else extent
  }

  /** The tile holding position p. */
  function TileOf(p: nat, extent: nat, grid: nat): nat
    requires grid >= 1
  {
    var size := extent / grid;
    if size == 0 then grid - 1
    else if p / size < grid - 1 then p / size
    else grid - 1
  }

  lemma DivExact(p: nat, size: nat, t: nat)
    requires size >= 1 && t * size <= p < (t + 1) * size
    ensures p / size == t
  {
    var q := p / size;
    assert q * size <= p < (q + 1) * size;
    if q < t {
      MulBounds(q + 1, size, q + 1, t);
    } else if q > t {
      MulBounds(t + 1, size, t + 1, q);
    }
  }

  /** Tiles lie inside the axis and are ordered. */
  lemma TileBounds(t: nat, extent: nat, grid: nat)
    requires grid >= 1 && t < grid
    ensures TileStart(t, extent, grid) <= TileEnd(t, extent, grid) <= extent
  {
    var size := extent / grid;
    MulBounds(t, size, t, grid - 1);
    MulBounds(grid, size, grid, grid);
    assert grid * size <= extent;
    if t < grid - 1 {
      MulBounds(t + 1, size, t + 1, grid);
    }
  }

  /** The tiles partition the axis: p lies in tile t exactly when
      TileOf(p) == t, so every position is covered exactly once. */
  lemma TilePartition(p: nat, extent: nat, grid: nat, t: nat)
    requires grid >= 1 && t < grid && p < extent
    ensures TileOf(p, extent, grid) < grid
    ensures TileStart(t, extent, grid) <= p < TileEnd(t, extent, grid) <==> TileOf(p, extent, grid) == t
  {
    var size := extent / grid;
    TileBounds(t, extent, grid);
    if size > 0 {
      var q := p / size;
      assert q * size <= p < (q + 1) * size;
      if TileStart(t, extent, grid) <= p < TileEnd(t, extent, grid) {
        if t < grid - 1 {
          DivExact(p, size, t);
        } else if q < grid - 1 {
          MulBounds(q + 1, size, q + 1, grid - 1);
        }
      }
      if TileOf(p, extent, grid) == t {
        if q < grid - 1 {
          assert t == q;
        } else {
          assert t == grid - 1;
          MulBounds(grid - 1, size, grid - 1, q);
        }
      }
    }
  }

  /** `img[y_start:y_end, x_start:x_end]`. */
  function SubGrid(img: Grid, y0: nat, y1: nat, x0: nat, x1: nat): (tile: Grid)
    requires IsRect(img) && y0 <= y1 <= Height(img) && x0 <= x1 <= Width(img)
    ensures |tile| == y1 - y0 && forall r :: 0 <= r < |tile| ==> tile[r] == img[y0 + r][x0..x1]
  {
    seq(y1 - y0, r requires 0 <= r < y1 - y0 => img[y0 + r][x0..x1])
  }

  /** The slice of the tile that holds (y, x) contains that pixel, at its
      offset from the tile's corner: the histogram that remaps a pixel
      counts the pixel itself. */
  lemma TileHoldsPixel(img: Grid, gridH: nat, gridW: nat, y: nat, x: nat)
    requires IsRect(img) && gridH >= 1 && gridW >= 1 && y < Height(img) && x < Width(img)
    ensures var ty, tx := TileOf(y, Height(img), gridH), TileOf(x, Width(img), gridW);
      ty < gridH && tx < gridW &&
      var y0, y1 := TileStart(ty, Height(img), gridH), TileEnd(ty, Height(img), gridH);
      var x0, x1 := TileStart(tx, Width(img), gridW), TileEnd(tx, Width(img), gridW);
      y0 <= y < y1 <= Height(img) && x0 <= x < x1 <= Width(img) &&
      var tile := SubGrid(img, y0, y1, x0, x1);
      y - y0 < |tile| && x - x0 < |tile[y - y0]| && tile[y - y0][x - x0] == img[y][x]
  {
    var h, w := Height(img), Width(img);
    TilePartition(y, h, gridH, 0);
    TilePartition(x, w, gridW, 0);
    var ty, tx := TileOf(y, h, gridH), TileOf(x, w, gridW);
    TilePartition(y, h, gridH, ty);
    TilePartition(x, w, gridW, tx);
    var y0, y1 := TileStart(ty, h, gridH), TileEnd(ty, h, gridH);
    var x0, x1 := TileStart(tx, w, gridW), TileEnd(tx, w, gridW);
    var tile := SubGrid(img, y0, y1, x0, x1);
    assert tile[y - y0] == img[y][x0..x1];
  }

  lemma SubGridBytes(img: Grid, y0: nat, y1: nat, x0: nat, x1: nat)
    requires IsByteImage(img) && y0 <= y1 <= Height(img) && x0 <= x1 <= Width(img)
    ensures IsByteImage(SubGrid(img, y0, y1, x0, x1))
  {
    var tile := SubGrid(img, y0, y1, x0, x1);
    forall r, c | 0 <= r < |tile| && 0 <= c < |tile[r]|
      ensures IsByte(tile[r][c])
    {
      assert tile[r][c] == img[y0 + r][x0 + c];
    }
  }

  // ----- clipping and redistribution (src/histogram.py:84-92) -----

  /** floor(clip_limit * hist.mean()) for a histogram of `total` counts. */
  function ClipThreshold(clipLimit: real, total: nat): (c: nat)
    requires clipLimit >= 0.0
    ensures c as real <= clipLimit * total as real / 256.0 < c as real + 1.0
  {
    (clipLimit * total as real / 256.0).Floor
  }

  /** A count exceeds the real threshold exactly when it exceeds its floor,
      so the integer threshold clips the same bins. */
  lemma ThresholdExact(clipLimit: real, total: nat, n: int)
    requires clipLimit >= 0.0
    ensures n as real > clipLimit * total as real / 256.0 <==> n > ClipThreshold(clipLimit, total)
  {
  }

  lemma {:induction false} SumOfCounts(h: seq<nat>)
    ensures Sum(h) >= 0
  {
    if |h| > 0 {
      SumOfCounts(h[..|h| - 1]);
    }
  }

  /** `hist.sum()`, a count of pixels. */
  function Total(h: seq<nat>): (n: nat)
    ensures n == Sum(h)
  {
    SumOfCounts(h);
    Sum(h)
  }

  /** Every bin capped at c. */
  function ClippedBins(h: seq<nat>, c: nat): (r: seq<nat>)
    ensures |r| == |h|
  {
    seq(|h|, k requires 0 <= k < |h| => if h[k] > c then c else h[k])
  }

  /** Total count removed by capping every bin at c. */
  function ClipExcess(h: seq<nat>, c: nat): nat
  {
    if |h| == 0 then 0
    else ClipExcess(h[..|h| - 1], c) + (if h[|h| - 1] > c then h[|h| - 1] - c else 0)
  }

  /** Clipped bins plus the shared-out bonus excess / 256 in every bin. No
      bin ends above c + bonus, and the 256 bins total the original count
      less the undistributed remainder excess % 256. */
  function Redistributed(h: seq<nat>, c: nat): (r: seq<nat>)
    ensures |r| == |h|
    ensures forall k :: 0 <= k < |r| ==> r[k] <= c + ClipExcess(h, c) / 256
    ensures |h| == 256 ==> Sum(r) + ClipExcess(h, c) % 256 == Sum(h)
  {
    var clipped := ClippedBins(h, c);
    var bonus := ClipExcess(h, c) / 256;
    var r := seq(|h|, k requires 0 <= k < |h| => clipped[k] + bonus);
    ClipConserves(h, c);
    SumAddConstant(clipped, bonus, r);
    r
  }

  /** The clip loop of src/histogram.py:85-89: caps every bin above clipVal
      and accumulates what it removed. */
  method ClipHistogram(hist0: seq<nat>, clipVal: nat) returns (hist: seq<nat>, excess: nat)
    ensures hist == ClippedBins(hist0, clipVal)
    ensures excess == ClipExcess(hist0, clipVal)
  {
    hist := hist0;
    excess := 0;
    for k := 0 to |hist0|
      invariant |hist| == |hist0|
      invariant forall q :: 0 <= q < k ==> hist[q] == ClippedBins(hist0, clipVal)[q]
      invariant forall q :: k <= q < |hist0| ==> hist[q] == hist0[q]
      invariant excess == ClipExcess(hist0[..k], clipVal)
    {
      assert hist0[..k + 1][..k] == hist0[..k];
      if hist[k] > clipVal {
        excess := excess + hist[k] - clipVal;
        hist := hist[k := clipVal];
      }
    }
    assert hist0[..|hist0|] == hist0;
  }

  /** Capping keeps bins at or below c untouched and leaves every bin at most c. */
  lemma ClippedBinsBounded(h: seq<nat>, c: nat, k: nat)
    requires k < |h|
    ensures ClippedBins(h, c)[k] <= c && ClippedBins(h, c)[k] <= h[k]
    ensures h[k] <= c ==> ClippedBins(h, c)[k] == h[k]
  {
  }

  /** Nothing is lost by clipping: the clipped bins and the excess add up to
      the original total. */
  lemma {:induction false} ClipConserves(h: seq<nat>, c: nat)
    ensures Sum(ClippedBins(h, c)) + ClipExcess(h, c) == Sum(h)
  {
    if |h| > 0 {
      var init := h[..|h| - 1];
      assert ClippedBins(h, c)[..|h| - 1] == ClippedBins(init, c);
      ClipConserves(init, c);
    }
  }

  lemma {:induction false} SumAddConstant(x: seq<nat>, b: nat, r: seq<nat>)
    requires |r| == |x| && forall k :: 0 <= k < |x| ==> r[k] == x[k] + b
    ensures Sum(r) == Sum(x) + |x| * b
  {
    if |x| > 0 {
      SumAddConstant(x[..|x| - 1], b, r[..|r| - 1]);
    }
  }

  /** When no bin exceeds the threshold the histogram is left as it is. */
  lemma {:induction false} NoClipUnchanged(h: seq<nat>, c: nat)
    requires forall k :: 0 <= k < |h| ==> h[k] <= c
    ensures ClipExcess(h, c) == 0 && Redistributed(h, c) == h
  {
    if |h| > 0 {
      NoClipUnchanged(h[..|h| - 1], c);
    }
  }

  // ----- remapping a tile (src/histogram.py:94-101) -----

  /** The tile's lookup table: through the normalised cdf when its total is
      positive, the identity (tile copied through) otherwise. Every entry
      is a byte and the table is monotone. */
  function TileLut(final: seq<nat>): (lut: seq<int>)
    requires |final| == 256
    ensures |lut| == 256
    ensures forall v :: 0 <= v < 256 ==> IsByte(lut[v])
    ensures Sum(final) == 0 ==> forall v :: 0 <= v < 256 ==> lut[v] == v
    ensures forall a, b :: 0 <= a <= b < 256 ==> lut[a] <= lut[b]
  {
    var cdf := Cumsum(final);
    var lut := seq(256, v requires 0 <= v < 256 => if cdf[255] > 0 then EqualizedLevel(cdf, v) else v);
    CumsumLast(final);
    assert forall v :: 0 <= v < 256 ==> IsByte(lut[v]) by {
      forall v | 0 <= v < 256
        ensures IsByte(lut[v])
      {
        EqualizedLevelIsByte(final, v);
      }
    }
    assert forall a, b :: 0 <= a <= b < 256 ==> lut[a] <= lut[b] by {
      forall a, b | 0 <= a <= b < 256
        ensures lut[a] <= lut[b]
      {
        EqualizedLevelMonotone(final, a, b);
      }
    }
    lut
  }

  /** The clipped and redistributed histogram of tile (ti, tj). */
  function TileFinal(img: Grid, clipLimit: real, gridH: nat, gridW: nat, ti: nat, tj: nat): (r: seq<nat>)
    requires IsRect(img) && clipLimit >= 0.0 && 1 <= gridH && 1 <= gridW && ti < gridH && tj < gridW
    ensures |r| == 256
  {
    var h, w := Height(img), Width(img);
    TileBounds(ti, h, gridH);
    TileBounds(tj, w, gridW);
    var tile := SubGrid(img, TileStart(ti, h, gridH), TileEnd(ti, h, gridH), TileStart(tj, w, gridW), TileEnd(tj, w, gridW));
    var hist := CalculateHistogram(tile);
    Redistributed(hist, ClipThreshold(clipLimit, Total(hist)))
  }

  /** The adaptive result at (y, x): the pixel looked up in the table of the
      tile that holds it. */
  function AdaptiveAt(img: Grid, clipLimit: real, gridH: nat, gridW: nat, y: nat, x: nat): int
    requires IsByteImage(img) && clipLimit >= 0.0 && 1 <= gridH && 1 <= gridW
    requires y < Height(img) && x < Width(img)
  {
    TilePartition(y, Height(img), gridH, 0);
    TilePartition(x, Width(img), gridW, 0);
    var final := TileFinal(img, clipLimit, gridH, gridW, TileOf(y, Height(img), gridH), TileOf(x, Width(img), gridW));
    TileLut(final)[img[y][x]]
  }

  /** A grid holding AdaptiveAt at every pixel; its quantifier fires only on
      an explicit AdaptiveAt term. */
  lemma AdaptiveGrid(img: Grid, clipLimit: real, gridH: nat, gridW: nat) returns (g: Grid)
    requires IsByteImage(img) && clipLimit >= 0.0 && 1 <= gridH && 1 <= gridW
    ensures |g| == Height(img) && forall r :: 0 <= r < |g| ==> |g[r]| == Width(img)
    ensures forall y, x {:trigger AdaptiveAt(img, clipLimit, gridH, gridW, y, x)} ::
      0 <= y < Height(img) && 0 <= x < Width(img) ==> g[y][x] == AdaptiveAt(img, clipLimit, gridH, gridW, y, x)
  {
    g := seq(Height(img), y requires 0 <= y < Height(img) =>
      seq(Width(img), x requires 0 <= x < Width(img) => AdaptiveAt(img, clipLimit, gridH, gridW, y, x)));
  }

  /** `result[y_start:y_end, x_start:x_end] = lut[tile]`: writes the tile's
      block and nothing else. */
  method WriteTile(result: array2<int>, img: Grid, y0: nat, y1: nat, x0: nat, x1: nat, lut: seq<int>)
    requires IsByteImage(img) && result.Length0 == Height(img) && result.Length1 == Width(img)
    requires y0 <= y1 <= Height(img) && x0 <= x1 <= Width(img) && |lut| == 256
    modifies result
    ensures forall y, x :: 0 <= y < result.Length0 && 0 <= x < result.Length1 ==>
      result[y, x] == if y0 <= y < y1 && x0 <= x < x1 then lut[img[y][x]] else old(result[y, x])
  {
    for y := y0 to y1
      invariant forall yy, x :: 0 <= yy < result.Length0 && 0 <= x < result.Length1 ==>
        result[yy, x] == if y0 <= yy < y && x0 <= x < x1 then lut[img[yy][x]] else old(result[yy, x])
    {
      for x := x0 to x1
        invariant forall yy, xx :: 0 <= yy < result.Length0 && 0 <= xx < result.Length1 ==>
          result[yy, xx] == if (y0 <= yy < y || yy == y) && x0 <= xx < x1 && (yy < y || xx < x)
            then lut[img[yy][xx]] else old(result[yy, xx])
      {
        result[y, x] := lut[img[y][x]];
      }
    }
  }

  /** (y, x) lies in a tile visited before tile (ti, tj) in row-major order. */
  predicate Done(h: nat, w: nat, gridH: nat, gridW: nat, ti: nat, tj: nat, y: nat, x: nat)
    requires gridH >= 1 && gridW >= 1
  {
    TileOf(y, h, gridH) < ti || (TileOf(y, h, gridH) == ti && TileOf(x, w, gridW) < tj)
  }

  /** src/histogram.py `adaptive_histogram_equalization`, with the integer
      clip threshold: tile by tile, count, clip, redistribute, remap and
      write the block into a zero result. */
  method AdaptiveHistogramEqualization(img: Grid, clipLimit: real, gridH: nat, gridW: nat)
    returns (result: array2<int>)
    requires IsByteImage(img) && clipLimit >= 0.0 && gridH >= 1 && gridW >= 1
    ensures fresh(result)
    ensures result.Length0 == Height(img) && result.Length1 == Width(img)
    ensures forall y, x :: 0 <= y < result.Length0 && 0 <= x < result.Length1 ==>
      result[y, x] == AdaptiveAt(img, clipLimit, gridH, gridW, y, x)
  {
    var h, w := Height(img), Width(img);
    var tileH, tileW := h / gridH, w / gridW;
    ghost var expected := AdaptiveGrid(img, clipLimit, gridH, gridW);
    result := new int[h, w]((_, _) => 0);
    for ti := 0 to gridH
      invariant forall y, x :: 0 <= y < h && 0 <= x < w && Done(h, w, gridH, gridW, ti, 0, y, x) ==>
        result[y, x] == expected[y][x]
    {
      for tj := 0 to gridW
        invariant forall y, x :: 0 <= y < h && 0 <= x < w && Done(h, w, gridH, gridW, ti, tj, y, x) ==>
          result[y, x] == expected[y][x]
      {
        var y0 := ti * tileH;
        var y1 := if ti < gridH - 1 then (ti + 1) * tileH else h;
        var x0 := tj * tileW;
        var x1 := if tj < gridW - 1 then (tj + 1) * tileW else w;
        TileBounds(ti, h, gridH);
        TileBounds(tj, w, gridW);
        var tile := SubGrid(img, y0, y1, x0, x1);
        var hist := CalculateHistogram(tile);
        var clipVal := ClipThreshold(clipLimit, Total(hist));
        var clipped, excess := ClipHistogram(hist, clipVal);
        var bonus := excess / 256;
        var final := seq(256, k requires 0 <= k < 256 => clipped[k] + bonus);
        assert final == TileFinal(img, clipLimit, gridH, gridW, ti, tj);
        var cdf := Cumsum(final);
        var lut := seq(256, v requires 0 <= v < 256 => if cdf[255] > 0 then EqualizedLevel(cdf, v) else v);
        assert lut == TileLut(final);
        WriteTile(result, img, y0, y1, x0, x1, lut);
        forall y, x | 0 <= y < h && 0 <= x < w && Done(h, w, gridH, gridW, ti, tj + 1, y, x)
          ensures result[y, x] == expected[y][x]
        {
          TilePartition(y, h, gridH, ti);
          TilePartition(x, w, gridW, tj);
          if TileOf(y, h, gridH) == ti && TileOf(x, w, gridW) == tj {
            assert result[y, x] == AdaptiveAt(img, clipLimit, gridH, gridW, y, x);
          }
        }
      }
      forall y, x | 0 <= y < h && 0 <= x < w && Done(h, w, gridH, gridW, ti + 1, 0, y, x)
        ensures result[y, x] == expected[y][x]
      {
        TilePartition(x, w, gridW, 0);
      }
    }
    forall y, x | 0 <= y < h && 0 <= x < w
      ensures result[y, x] == AdaptiveAt(img, clipLimit, gridH, gridW, y, x)
    {
      TilePartition(y, h, gridH, 0);
      assert Done(h, w, gridH, gridW, gridH, 0, y, x);
    }
  }

  /** Every result pixel is a byte. */
  lemma AdaptiveIsByte(img: Grid, clipLimit: real, gridH: nat, gridW: nat, y: nat, x: nat)
    requires IsByteImage(img) && clipLimit >= 0.0 && 1 <= gridH && 1 <= gridW
    requires y < Height(img) && x < Width(img)
    ensures IsByte(AdaptiveAt(img, clipLimit, gridH, gridW, y, x))
  {
    TilePartition(y, Height(img), gridH, 0);
    TilePartition(x, Width(img), gridW, 0);
    var final := TileFinal(img, clipLimit, gridH, gridW, TileOf(y, Height(img), gridH), TileOf(x, Width(img), gridW));
  }

  /** A tile of fewer than 256 pixels whose threshold floors to 0 loses every
      count to clipping, gets no bonus back, and is copied through. */
  lemma SmallTileCopied(hist: seq<nat>, clipLimit: real)
    requires |hist| == 256 && clipLimit >= 0.0
    requires 0 < Sum(hist) < 256 && ClipThreshold(clipLimit, Total(hist)) == 0
    ensures Sum(Redistributed(hist, 0)) == 0
    ensures forall v :: 0 <= v < 256 ==> TileLut(Redistributed(hist, 0))[v] == v
  {
    ClipConserves(hist, 0);
    assert ClippedBins(hist, 0) == seq(256, _ => 0);
    SumOfZeros(256);
    assert ClipExcess(hist, 0) == Sum(hist);
    assert Sum(Redistributed(hist, 0)) == 0;
  }

  // ----- the clip step as the source writes it -----

  /** The clip step with numpy's types: clip_val is a float, so once a bin
      exceeds it `excess` becomes a float, `bonus = excess // 256` a float,
      and the in-place `hist += bonus` on the int64 histogram raises a
      casting error. With no bin above clip_val, excess stays the integer 0
      and the histogram is returned unchanged. */
  function ClipStepAsWritten(hist: seq<nat>, clipLimit: real): (r: Result<seq<nat>, string>)
    requires clipLimit >= 0.0
  {
    var clipVal := clipLimit * Sum(hist) as real / 256.0;
    if exists k :: 0 <= k < |hist| && hist[k] as real > clipVal
    then Failure("cannot cast ufunc 'add' output from float64 to int64")
    else Success(hist)
  }

  /** Any constant tile of n >= 1 pixels with clip_limit < 256 makes the
      written clip step fail: its one non-empty bin holds n > clip_limit * n / 256. */
  lemma ConstantTileFailsAsWritten(hist: seq<nat>, v: nat, clipLimit: real)
    requires |hist| == 256 && v < 256 && 0.0 <= clipLimit < 256.0
    requires hist[v] >= 1 && Sum(hist) == hist[v]
    ensures ClipStepAsWritten(hist, clipLimit).Failure?
  {
    var n := hist[v] as real;
    assert clipLimit * n < 256.0 * n;
    assert hist[v] as real > clipLimit * Sum(hist) as real / 256.0;
  }

  /** The concrete case: a 2 x 2 all-zero tile with the default clip_limit
      2.0 fails as written. */
  lemma FlatTileFailsAsWritten()
    ensures CalculateHistogram([[0, 0], [0, 0]])[0] == 4
    ensures ClipStepAsWritten(CalculateHistogram([[0, 0], [0, 0]]), 2.0).Failure?
  {
    var img: Grid := [[0, 0], [0, 0]];
    assert IsByteImage(img);
    CalculateHistogramCounts(img, 0);
    assert Flatten(img) == [0, 0, 0, 0] by {
      assert img[..1] == [[0, 0]];
      assert img[..1][..0] == [];
    }
    assert multiset([0, 0, 0, 0])[0] == 4;
    ConstantTileFailsAsWritten(CalculateHistogram(img), 0, 2.0);
  }

  /** Where the written clip step succeeds, the integer model agrees with it:
      nothing is clipped and the histogram is unchanged. */
  lemma AsWrittenAgrees(hist: seq<nat>, clipLimit: real)
    requires clipLimit >= 0.0
    requires ClipStepAsWritten(hist, clipLimit).Success?
    ensures Redistributed(hist, ClipThreshold(clipLimit, Total(hist))) == ClipStepAsWritten(hist, clipLimit).value
  {
    var c := ClipThreshold(clipLimit, Total(hist));
    forall k | 0 <= k < |hist|
      ensures hist[k] <= c
    {
      ThresholdExact(clipLimit, Total(hist), hist[k]);
    }
    NoClipUnchanged(hist, c);
  }
}
