/** The histogram engine of src/histogram.py: 256-bin counting, running
    sums, global and local equalisation, histogram matching and tiled
    adaptive equalisation. Normalised cdfs are real-valued in the source;
    here they stay as integer counts and every comparison or truncation is
    done exactly on them (see README for the float rounding not modelled). */
module Histogram {
  import opened Images
  import opened Utils
  import opened Sorting

  // ----- calculate_histogram (src/histogram.py:7-9) -----

  /** `np.histogram(values, bins=256, range=[0, 256])` on integer values, as
      one counting pass: each value v in [0, 256) adds one to bin v. The last
      bin [255, 256] is closed, so the value 256 is counted in bin 255; values
      below 0 or above 256 land in no bin. */
  function Bins(s: seq<int>): (h: seq<nat>)
    ensures |h| == 256
  {
    if |s| == 0 then seq(256, _ => 0)
    else
      var h := Bins(s[..|s| - 1]);
      var v := s[|s| - 1];
      if 0 <= v < 256 then h[v := h[v] + 1]
      else if v == 256 then h[255 := h[255] + 1]
      else h
  }

  /** Bin v holds the number of occurrences of v; the closed last bin also
      holds the occurrences of 256. */
  lemma {:induction false} BinsCount(s: seq<int>, v: int)
    requires 0 <= v < 256
    ensures Bins(s)[v] == multiset(s)[v] + (if v == 255 then multiset(s)[256] else 0)
  {
    if |s| > 0 {
      var init := s[..|s| - 1];
      assert s == init + [s[|s| - 1]];
      BinsCount(init, v);
    }
  }

  /** On byte values every bin v counts exactly the occurrences of v. */
  lemma HistogramCounts(s: seq<int>, v: int)
    requires AllBytes(s) && 0 <= v < 256
    ensures Bins(s)[v] == multiset(s)[v]
  {
    BinsCount(s, v);
    assert forall k :: 0 <= k < |s| ==> s[k] != 256;
    assert 256 !in s;
  }

  lemma {:induction false} SumUpdate(h: seq<int>, k: nat, x: int)
    requires k < |h|
    ensures Sum(h[k := x]) == Sum(h) - h[k] + x
  {
    var n := |h| - 1;
    if k == n {
      assert h[k := x][..n] == h[..n];
    } else {
      assert h[k := x][..n] == h[..n][k := x];
      SumUpdate(h[..n], k, x);
    }
  }

  lemma {:induction false} SumOfZeros(n: nat)
    ensures Sum(seq(n, _ => 0)) == 0
  {
    if n > 0 {
      assert seq(n, _ => 0)[..n - 1] == seq(n - 1, _ => 0);
      SumOfZeros(n - 1);
    }
  }

  /** Every byte value is counted exactly once: the bins sum to |s|. */
  lemma {:induction false} HistogramTotal(s: seq<int>)
    requires AllBytes(s)
    ensures Sum(Bins(s)) == |s|
  {
    if |s| == 0 {
      SumOfZeros(256);
    } else {
      var init := s[..|s| - 1];
      var v := s[|s| - 1];
      assert AllBytes(init) by {
        assert forall k :: 0 <= k < |init| ==> init[k] == s[k];
      }
      HistogramTotal(init);
      SumUpdate(Bins(init), v, Bins(init)[v] + 1);
    }
  }

  /** `calculate_histogram(img)`: the histogram of the flattened image. */
  function CalculateHistogram(img: Grid): (h: seq<nat>)
    ensures |h| == 256
  {
    Bins(Flatten(img))
  }

  /** The counts of a byte image sum to H * W, and bin v counts the pixels
      equal to v. */
  lemma CalculateHistogramCounts(img: Grid, v: int)
    requires IsByteImage(img) && 0 <= v < 256
    ensures Sum(CalculateHistogram(img)) == Height(img) * Width(img)
    ensures CalculateHistogram(img)[v] == multiset(Flatten(img))[v]
  {
    FlattenBytes(img);
    FlattenLength(img);
    HistogramTotal(Flatten(img));
    HistogramCounts(Flatten(img), v);
  }

  // ----- cumulative sums (`hist.cumsum()`) -----

  /** `hist.cumsum()`: the running sums in one left-to-right pass. */
  function Cumsum(h: seq<nat>): (c: seq<nat>)
    ensures |c| == |h|
  {
    if |h| == 0 then []
    else
      var c := Cumsum(h[..|h| - 1]);
      c + [(if |c| == 0 then 0 else c[|c| - 1]) + h[|h| - 1]]
  }

  /** Entry k of the running sums is the sum of bins 0..k. */
  lemma {:induction false} CumsumIsPrefixSum(h: seq<nat>, k: nat)
    requires k < |h|
    ensures Cumsum(h)[k] == Sum(h[..k + 1])
  {
    var n := |h| - 1;
    var init := h[..n];
    if k < n {
      CumsumIsPrefixSum(init, k);
      assert init[..k + 1] == h[..k + 1];
    } else if n == 0 {
      assert h[..1][..0] == [];
    } else {
      CumsumIsPrefixSum(init, n - 1);
      assert init[..n] == h[..k + 1][..n];
    }
  }

  /** Each running sum adds the next bin to the previous one. */
  lemma CumsumStep(h: seq<nat>, k: nat)
    requires 0 < k < |h|
    ensures Cumsum(h)[k] == Cumsum(h)[k - 1] + h[k]
  {
    CumsumIsPrefixSum(h, k);
    CumsumIsPrefixSum(h, k - 1);
    assert h[..k + 1][..k] == h[..k];
  }

  /** The running sums never decrease. */
  lemma {:induction false} CumsumMonotone(h: seq<nat>, k: nat, l: nat)
    requires k <= l < |h|
    ensures Cumsum(h)[k] <= Cumsum(h)[l]
    decreases l
  {
    if k < l {
      CumsumStep(h, l);
      CumsumMonotone(h, k, l - 1);
    }
  }

  /** The last running sum is the total. */
  lemma CumsumLast(h: seq<nat>)
    requires |h| >= 1
    ensures Cumsum(h)[|h| - 1] == Sum(h)
  {
    CumsumIsPrefixSum(h, |h| - 1);
    assert h[..|h|] == h;
  }

  /** Every running sum is at most the total. */
  lemma CumsumBounded(h: seq<nat>, k: nat)
    requires k < |h|
    ensures Cumsum(h)[k] <= Cumsum(h)[|h| - 1] == Sum(h)
  {
    CumsumMonotone(h, k, |h| - 1);
    CumsumLast(h);
  }

  function AtMost(v: int): int -> bool
  {
    x => x <= v
  }

  lemma {:induction false} SumPrefixUpdate(h: seq<int>, w: nat, x: int, m: nat)
    requires w < |h| && m <= |h|
    ensures Sum(h[w := x][..m]) == Sum(h[..m]) + (if w < m then x - h[w] else 0)
  {
    if w < m {
      assert h[w := x][..m] == h[..m][w := x];
      SumUpdate(h[..m], w, x);
    } else {
      assert h[w := x][..m] == h[..m];
    }
  }

  /** For a sequence of bytes, the cdf at v counts the values at most v. */
  lemma {:induction false} CdfCountsAtMost(s: seq<int>, v: nat)
    requires AllBytes(s) && v < 256
    ensures Cumsum(Bins(s))[v] == CountIf(s, AtMost(v))
  {
    CumsumIsPrefixSum(Bins(s), v);
    PrefixCountsAtMost(s, v);
  }

  lemma {:induction false} PrefixCountsAtMost(s: seq<int>, v: nat)
    requires AllBytes(s) && v < 256
    ensures Sum(Bins(s)[..v + 1]) == CountIf(s, AtMost(v))
  {
    if |s| == 0 {
      assert seq(256, _ => 0)[..v + 1] == seq(v + 1, _ => 0);
      SumOfZeros(v + 1);
    } else {
      var init := s[..|s| - 1];
      var w := s[|s| - 1];
      assert AllBytes(init) by {
        assert forall k :: 0 <= k < |init| ==> init[k] == s[k];
      }
      PrefixCountsAtMost(init, v);
      SumPrefixUpdate(Bins(init), w, Bins(init)[w] + 1, v + 1);
    }
  }

  // ----- histogram_equalization (src/histogram.py:12-20) -----

  /** `(cdf_normalized[v] * 255).astype(np.uint8)`, computed exactly on the
      counts: with a positive total it is the floor of the real
      cdf[v] / cdf[255] * 255. A zero total leaves the cdf unnormalised, as
      the local variant does. */
  function EqualizedLevel(cdf: seq<nat>, v: int): (level: int)
    requires |cdf| == 256 && 0 <= v < 256
    ensures cdf[255] > 0 ==>
      var x := cdf[v] as real / cdf[255] as real * 255.0;
      level as real <= x < level as real + 1.0
  {
    var total := cdf[255];
    if total > 0 then
      DivIsFloor(cdf[v] * 255, total);
      assert cdf[v] as real / total as real * 255.0 == (cdf[v] * 255) as real / total as real;
      cdf[v] * 255 / total
    else cdf[v] * 255
  }

  /** Equalised levels of a running-sum table are bytes. */
  lemma EqualizedLevelIsByte(h: seq<nat>, v: int)
    requires |h| == 256 && 0 <= v < 256
    ensures IsByte(EqualizedLevel(Cumsum(h), v))
  {
    var cdf := Cumsum(h);
    CumsumBounded(h, v);
    if cdf[255] > 0 {
      MulBounds(cdf[v], 255, 0, cdf[255]);
      DivBounds(cdf[v] * 255, cdf[255], 255);
    }
  }

  /** Equalisation preserves the order of intensities. */
  lemma EqualizedLevelMonotone(h: seq<nat>, a: int, b: int)
    requires |h| == 256 && 0 <= a <= b < 256
    ensures EqualizedLevel(Cumsum(h), a) <= EqualizedLevel(Cumsum(h), b)
  {
    var cdf := Cumsum(h);
    CumsumMonotone(h, a, b);
    MulBounds(cdf[a], 255, cdf[a], cdf[b]);
    if cdf[255] > 0 {
      DivMonotone(cdf[a] * 255, cdf[b] * 255, cdf[255]);
    }
  }

  /** The returned triple `(img_equalized, hist, cdf)`. */
  datatype Equalization = Equalization(image: Grid, hist: seq<nat>, cdf: seq<nat>)

  /** `histogram_equalization`: every pixel v becomes EqualizedLevel(cdf, v). */
  function HistogramEqualization(img: Grid): (e: Equalization)
    requires IsByteImage(img)
    ensures e.hist == CalculateHistogram(img) && e.cdf == Cumsum(e.hist)
    ensures SameShape(e.image, img) && IsByteImage(e.image)
  {
    var hist := CalculateHistogram(img);
    var cdf := Cumsum(hist);
    var image := seq(|img|, i requires 0 <= i < |img| =>
      seq(|img[i]|, j requires 0 <= j < |img[i]| => EqualizedLevel(cdf, img[i][j])));
    assert IsByteImage(image) by {
      forall i, j | 0 <= i < |image| && 0 <= j < |image[i]|
        ensures IsByte(image[i][j])
      {
        EqualizedLevelIsByte(hist, img[i][j]);
      }
    }
    Equalization(image, hist, cdf)
  }

  /** The cdf ends at H * W, and each pixel is floor(255 * #{pixels <= v} / (H * W)). */
  lemma EqualizedPixel(img: Grid, i: nat, j: nat)
    requires IsByteImage(img) && i < |img| && j < |img[i]|
    ensures HistogramEqualization(img).cdf[255] == Height(img) * Width(img)
    ensures HistogramEqualization(img).image[i][j] ==
      CountIf(Flatten(img), AtMost(img[i][j])) * 255 / (Height(img) * Width(img))
  {
    var e := HistogramEqualization(img);
    var n := Height(img) * Width(img);
    var v := img[i][j];
    CalculateHistogramCounts(img, 0);
    CumsumLast(e.hist);
    assert e.cdf[255] == n;
    FlattenBytes(img);
    CdfCountsAtMost(Flatten(img), v);
    var count := CountIf(Flatten(img), AtMost(v));
    assert e.cdf[v] == count;
    assert n > 0 by {
      assert Width(img) == |img[i]| > 0;
      MulBounds(1, Width(img), 1, Height(img));
    }
    assert e.image[i][j] == EqualizedLevel(e.cdf, v) == count * 255 / n;
  }

  /** The largest intensity present maps to 255, so a constant image becomes
      all 255. */
  lemma EqualizedMaximum(img: Grid, i: nat, j: nat)
    requires IsByteImage(img) && i < |img| && j < |img[i]|
    requires forall r, c :: 0 <= r < |img| && 0 <= c < |img[r]| ==> img[r][c] <= img[i][j]
    ensures HistogramEqualization(img).image[i][j] == 255
  {
    var e := HistogramEqualization(img);
    var v := img[i][j];
    var flat := Flatten(img);
    FlattenBytes(img);
    forall k | 0 <= k < |flat|
      ensures flat[k] <= v
    {
      FlattenedPixel(img, k);
    }
    CountIfAtMostAll(flat, v);
    EqualizedPixel(img, i, j);
    FlattenLength(img);
    DivCancel(255, Height(img) * Width(img));
  }

  /** Every flattened value is some pixel. */
  lemma {:induction false} FlattenedPixel(g: Grid, k: nat)
    requires k < |Flatten(g)|
    ensures exists r, c :: 0 <= r < |g| && 0 <= c < |g[r]| && Flatten(g)[k] == g[r][c]
  {
    var init := g[..|g| - 1];
    if k < |Flatten(init)| {
      FlattenedPixel(init, k);
      var r, c :| 0 <= r < |init| && 0 <= c < |init[r]| && Flatten(init)[k] == init[r][c];
      assert Flatten(g)[k] == g[r][c];
    } else {
      assert Flatten(g)[k] == g[|g| - 1][k - |Flatten(init)|];
    }
  }

  lemma {:induction false} CountIfAtMostAll(s: seq<int>, v: int)
    requires forall k :: 0 <= k < |s| ==> s[k] <= v
    ensures CountIf(s, AtMost(v)) == |s|
  {
    if |s| > 0 {
      CountIfAtMostAll(s[..|s| - 1], v);
    }
  }

  lemma EqualizedConstant(img: Grid, v: int, i: nat, j: nat)
    requires IsByteImage(img) && IsConstant(img, v) && i < |img| && j < |img[i]|
    ensures HistogramEqualization(img).image[i][j] == 255
  {
    EqualizedMaximum(img, i, j);
  }

  // ----- local_histogram_equalization (src/histogram.py:23-44) -----

  /** The equalised centre value of the ws x ws window at (i, j) of the image
      padded once by ws // 2: the centre looked up in the window's own cdf. */
  function LocalLevel(img: Grid, padded: Grid, ws: nat, i: nat, j: nat): int
    requires IsImage(img) && IsByteImage(img) && i < Height(img) && j < Width(img)
    requires padded == ReflectPad(img, ws / 2)
  {
    PaddedFits(img, ws, i, j);
    EqualizedLevel(Cumsum(Bins(Window(padded, i, j, ws))), img[i][j])
  }

  /** The locally equalised value of pixel (i, j). */
  function LocalEqualizedAt(img: Grid, ws: nat, i: nat, j: nat): int
    requires IsImage(img) && IsByteImage(img) && i < Height(img) && j < Width(img)
  {
    LocalLevel(img, ReflectPad(img, ws / 2), ws, i, j)
  }

  /** A grid holding LocalEqualizedAt at every pixel; its quantifier fires
      only on an explicit LocalEqualizedAt term. */
  lemma LocalGrid(img: Grid, ws: nat) returns (g: Grid)
    requires IsImage(img) && IsByteImage(img)
    ensures |g| == Height(img) && forall r :: 0 <= r < |g| ==> |g[r]| == Width(img)
    ensures forall r, c {:trigger LocalEqualizedAt(img, ws, r, c)} ::
      0 <= r < Height(img) && 0 <= c < Width(img) ==> g[r][c] == LocalEqualizedAt(img, ws, r, c)
  {
    g := seq(Height(img), r requires 0 <= r < Height(img) =>
      seq(Width(img), c requires 0 <= c < Width(img) => LocalEqualizedAt(img, ws, r, c)));
  }

  /** src/histogram.py `local_histogram_equalization`: pads once, then fills
      a zero result pixel by pixel. */
  method LocalHistogramEqualization(img: Grid, ws: nat) returns (result: array2<int>)
    requires IsImage(img) && IsByteImage(img)
    ensures fresh(result)
    ensures result.Length0 == Height(img) && result.Length1 == Width(img)
    ensures forall i, j :: 0 <= i < result.Length0 && 0 <= j < result.Length1 ==>
      result[i, j] == LocalEqualizedAt(img, ws, i, j)
  {
    var pad := ws / 2;
    var padded := ReflectPad(img, pad);
    var h, w := Height(img), Width(img);
    ghost var expected := LocalGrid(img, ws);
    result := new int[h, w]((_, _) => 0);
    for i := 0 to h
      invariant forall r, c :: 0 <= r < i && 0 <= c < w ==> result[r, c] == expected[r][c]
    {
      for j := 0 to w
        invariant forall r, c :: 0 <= r <= i && 0 <= c < w && (r < i || c < j) ==>
          result[r, c] == expected[r][c]
      {
        result[i, j] := LocalLevel(img, padded, ws, i, j);
        assert result[i, j] == LocalEqualizedAt(img, ws, i, j);
      }
    }
    assert forall r, c :: 0 <= r < h && 0 <= c < w ==> result[r, c] == LocalEqualizedAt(img, ws, r, c);
  }

  lemma {:induction false} CountIfMember(s: seq<int>, p: int -> bool, x: int)
    requires x in s && p(x)
    ensures CountIf(s, p) >= 1
  {
    var init := s[..|s| - 1];
    if s[|s| - 1] != x {
      assert x in init by {
        var k :| 0 <= k < |s| && s[k] == x;
        assert init[k] == x;
      }
      CountIfMember(init, p, x);
    }
  }

  /** For ws >= 1 the window holds its centre pixel, so at least one window
      value is at most the centre, the window total ws² is never zero, and
      the result is floor(255 * #{window values <= centre} / ws²), a byte. */
  lemma LocalEqualizedFormula(img: Grid, ws: nat, i: nat, j: nat)
    requires IsImage(img) && IsByteImage(img) && i < Height(img) && j < Width(img) && ws >= 1
    ensures FitsWindow(ReflectPad(img, ws / 2), i, j, ws, ws)
    ensures var window := Window(ReflectPad(img, ws / 2), i, j, ws);
      var count := CountIf(window, AtMost(img[i][j]));
      1 <= count <= ws * ws &&
      LocalEqualizedAt(img, ws, i, j) == count * 255 / (ws * ws) &&
      IsByte(LocalEqualizedAt(img, ws, i, j))
  {
    var pad := ws / 2;
    var padded := ReflectPad(img, pad);
    PaddedFits(img, ws, i, j);
    var window := Window(padded, i, j, ws);
    var v := img[i][j];
    PadCentre(img, pad, i, j);
    WindowRowsContains(padded, i, j, ws, ws, pad, pad);
    CountIfMember(window, AtMost(v), v);
    WindowRowsBytes(padded, i, j, ws, ws);
    WindowRowsLength(padded, i, j, ws, ws);
    var hist := Bins(window);
    HistogramTotal(window);
    CumsumLast(hist);
    CdfCountsAtMost(window, v);
    CountIfAtMostLength(window, AtMost(v));
    EqualizedLevelIsByte(hist, v);
    SquarePositive(ws);
    assert LocalEqualizedAt(img, ws, i, j) == EqualizedLevel(Cumsum(hist), v);
  }

  /** window_size 0 gives empty windows, an all-zero cdf and a zero result. */
  lemma LocalEqualizedEmptyWindow(img: Grid, i: nat, j: nat)
    requires IsImage(img) && IsByteImage(img) && i < Height(img) && j < Width(img)
    ensures LocalEqualizedAt(img, 0, i, j) == 0
  {
    PaddedFits(img, 0, i, j);
    var hist := Bins(Window(ReflectPad(img, 0), i, j, 0));
    assert hist == seq(256, _ => 0);
    CumsumIsPrefixSum(hist, img[i][j]);
    assert hist[..img[i][j] + 1] == seq(img[i][j] + 1, _ => 0);
    SumOfZeros(img[i][j] + 1);
  }

  // ----- histogram_matching (src/histogram.py:47-61) -----

  /** `np.argmin`: the first index of a minimum. */
  function ArgMin(d: seq<int>): (r: nat)
    requires |d| >= 1
    ensures r < |d|
    ensures forall t :: 0 <= t < |d| ==> d[r] <= d[t]
    ensures forall t :: 0 <= t < r ==> d[t] > d[r]
  {
    if |d| == 1 then 0
    else
      var r := ArgMin(d[..|d| - 1]);
      if d[|d| - 1] < d[r] then |d| - 1 else r
  }

  /** |a * s - b * tt|: the distance |a / tt - b / s| scaled by s * tt. */
  function CrossDistance(a: int, tt: int, b: int, s: int): nat
  {
    Abs(a * s - b * tt)
  }

  /** |a / tt - b / s| as an exact real. */
  function NormalDistance(a: int, tt: int, b: int, s: int): real
    requires tt > 0 && s > 0
  {
    var x := a as real / tt as real - b as real / s as real;
    if x < 0.0 then -x else x
  }

  lemma CrossIsScaled(a: int, tt: int, b: int, s: int)
    requires tt > 0 && s > 0
    ensures CrossDistance(a, tt, b, s) as real == NormalDistance(a, tt, b, s) * (s * tt) as real
  {
    var sr, tr := s as real, tt as real;
    var x := a as real / tr - b as real / sr;
    assert x * (sr * tr) == a as real * sr - b as real * tr;
    assert (a * s - b * tt) as real == a as real * sr - b as real * tr;
    if x < 0.0 {
      assert (-x) * (sr * tr) == -(a as real * sr - b as real * tr);
    }
  }

  /** Cross-multiplied distances to one point b / s order candidates a1 / tt
      and a2 / tt as the exact real distances do. */
  lemma CrossCompare(a1: int, a2: int, tt: int, b: int, s: int)
    requires tt > 0 && s > 0
    ensures CrossDistance(a1, tt, b, s) <= CrossDistance(a2, tt, b, s) <==>
      NormalDistance(a1, tt, b, s) <= NormalDistance(a2, tt, b, s)
    ensures CrossDistance(a1, tt, b, s) < CrossDistance(a2, tt, b, s) <==>
      NormalDistance(a1, tt, b, s) < NormalDistance(a2, tt, b, s)
  {
    ProductPositive(s, tt);
    CrossIsScaled(a1, tt, b, s);
    CrossIsScaled(a2, tt, b, s);
    ScaledCompare(CrossDistance(a1, tt, b, s), CrossDistance(a2, tt, b, s),
      NormalDistance(a1, tt, b, s), NormalDistance(a2, tt, b, s), (s * tt) as real);
  }

  lemma ProductPositive(a: nat, b: nat)
    requires a > 0 && b > 0
    ensures (a * b) as real > 0.0
  {
    MulBounds(b, a, 1, b);
  }

  /** Integers that are positive multiples of reals compare as the reals do. */
  lemma ScaledCompare(a: int, b: int, x: real, y: real, k: real)
    requires k > 0.0 && a as real == x * k && b as real == y * k
    ensures a <= b <==> x <= y
    ensures a < b <==> x < y
  {
    if x <= y {
      assert x * k <= y * k;
    } else {
      assert y * k < x * k;
    }
    if x < y {
      assert x * k < y * k;
    } else {
      assert y * k <= x * k;
    }
  }

  /** |target_cdf[t] - src_cdf[v]| scaled by both totals S and T:
      |T_t / T - S_v / S| * S * T = |T_t * S - S_v * T|, exact on counts.
      When a total is zero the source divides 0 by 0, every distance is NaN
      and argmin answers 0; equal distances give the same answer. */
  function MatchDistance(srcCdf: seq<nat>, targetCdf: seq<nat>, v: nat, t: nat): nat
    requires |srcCdf| == 256 && v < 256 && t < |targetCdf|
  {
    var s, tt := srcCdf[255], targetCdf[|targetCdf| - 1];
    if s > 0 && tt > 0 then CrossDistance(targetCdf[t], tt, srcCdf[v], s) else 0
  }

  function MatchDistances(srcCdf: seq<nat>, targetCdf: seq<nat>, v: nat): (d: seq<int>)
    requires |srcCdf| == 256 && v < 256
    ensures |d| == |targetCdf|
  {
    seq(|targetCdf|, t requires 0 <= t < |targetCdf| => MatchDistance(srcCdf, targetCdf, v, t))
  }

  /** `mapping[v] = np.argmin(diff)`, stored into a uint8 table (an index of
      256 or more wraps modulo 256). */
  function MatchLevel(srcCdf: seq<nat>, targetCdf: seq<nat>, v: nat): (m: nat)
    requires |srcCdf| == 256 && v < 256 && |targetCdf| >= 1
    ensures m < 256
  {
    ArgMin(MatchDistances(srcCdf, targetCdf, v)) % 256
  }

  /** The normalised-cdf distance the source computes, as an exact real. */
  function RealDistance(srcCdf: seq<nat>, targetCdf: seq<nat>, v: nat, t: nat): real
    requires |srcCdf| == 256 && v < 256 && t < |targetCdf|
    requires srcCdf[255] > 0 && targetCdf[|targetCdf| - 1] > 0
  {
    NormalDistance(targetCdf[t], targetCdf[|targetCdf| - 1], srcCdf[v], srcCdf[255])
  }

  /** The scaled integer distance is the real distance times S * T. */
  lemma ScaledDistance(srcCdf: seq<nat>, targetCdf: seq<nat>, v: nat, t: nat)
    requires |srcCdf| == 256 && v < 256 && t < |targetCdf|
    requires srcCdf[255] > 0 && targetCdf[|targetCdf| - 1] > 0
    ensures MatchDistance(srcCdf, targetCdf, v, t) as real ==
      RealDistance(srcCdf, targetCdf, v, t) * (srcCdf[255] * targetCdf[|targetCdf| - 1]) as real
  {
    CrossIsScaled(targetCdf[t], targetCdf[|targetCdf| - 1], srcCdf[v], srcCdf[255]);
  }

  /** When both totals are positive the table entry is the first index that
      minimises the exact real distance |target_cdf[t] - src_cdf[v]|, as
      `np.argmin` over the normalised cdfs does. */
  lemma MatchIsRealArgMin(srcCdf: seq<nat>, targetCdf: seq<nat>, v: nat)
    requires |srcCdf| == 256 && v < 256 && |targetCdf| >= 1
    requires srcCdf[255] > 0 && targetCdf[|targetCdf| - 1] > 0
    ensures var r := ArgMin(MatchDistances(srcCdf, targetCdf, v));
      r < |targetCdf| &&
      (forall t :: 0 <= t < |targetCdf| ==>
        RealDistance(srcCdf, targetCdf, v, r) <= RealDistance(srcCdf, targetCdf, v, t)) &&
      (forall t :: 0 <= t < r ==>
        RealDistance(srcCdf, targetCdf, v, t) > RealDistance(srcCdf, targetCdf, v, r))
  {
    var d := MatchDistances(srcCdf, targetCdf, v);
    var r := ArgMin(d);
    forall t | 0 <= t < |targetCdf|
      ensures RealDistance(srcCdf, targetCdf, v, r) <= RealDistance(srcCdf, targetCdf, v, t)
      ensures t < r ==> RealDistance(srcCdf, targetCdf, v, t) > RealDistance(srcCdf, targetCdf, v, r)
    {
      assert d[t] == MatchDistance(srcCdf, targetCdf, v, t);
      assert d[r] == MatchDistance(srcCdf, targetCdf, v, r);
      assert d[r] <= d[t] && (t < r ==> d[r] < d[t]);
      CompareDistances(srcCdf, targetCdf, v, r, t);
    }
  }

  /** The integer distances order two candidates as the real ones do. */
  lemma CompareDistances(srcCdf: seq<nat>, targetCdf: seq<nat>, v: nat, r: nat, t: nat)
    requires |srcCdf| == 256 && v < 256 && r < |targetCdf| && t < |targetCdf|
    requires srcCdf[255] > 0 && targetCdf[|targetCdf| - 1] > 0
    ensures MatchDistance(srcCdf, targetCdf, v, r) <= MatchDistance(srcCdf, targetCdf, v, t) <==>
      RealDistance(srcCdf, targetCdf, v, r) <= RealDistance(srcCdf, targetCdf, v, t)
    ensures MatchDistance(srcCdf, targetCdf, v, r) < MatchDistance(srcCdf, targetCdf, v, t) <==>
      RealDistance(srcCdf, targetCdf, v, r) < RealDistance(srcCdf, targetCdf, v, t)
  {
    CrossCompare(targetCdf[r], targetCdf[t], targetCdf[|targetCdf| - 1], srcCdf[v], srcCdf[255]);
  }

  /** src/histogram.py `histogram_matching`: fills the 256-entry table in a
      loop, then applies it pointwise. */
  method HistogramMatching(img: Grid, targetHist: seq<nat>) returns (matched: Grid)
    requires IsByteImage(img) && |targetHist| >= 1
    ensures SameShape(matched, img)
    ensures forall i, j :: 0 <= i < |matched| && 0 <= j < |matched[i]| ==>
      matched[i][j] == MatchLevel(Cumsum(CalculateHistogram(img)), Cumsum(targetHist), img[i][j])
  {
    var srcCdf := Cumsum(CalculateHistogram(img));
    var targetCdf := Cumsum(targetHist);
    var mapping := new int[256];
    for v := 0 to 256
      invariant forall u :: 0 <= u < v ==> mapping[u] == MatchLevel(srcCdf, targetCdf, u)
    {
      mapping[v] := ArgMin(MatchDistances(srcCdf, targetCdf, v)) % 256;
    }
    var table := mapping[..];
    matched := seq(|img|, i requires 0 <= i < |img| =>
      seq(|img[i]|, j requires 0 <= j < |img[i]| => table[img[i][j]]));
  }
}
