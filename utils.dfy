/** The convolution engine of src/utils.py: numpy 'reflect' padding and the
    sliding-window correlation of `apply_convolution`. Weights are integers
    and sums exact; the float32 arithmetic of the source is not modelled. */
module Utils {
  import opened Images

  /** A square kernel: |k| rows of |k| weights each (size = kernel.shape[0]). */
  predicate IsKernel(k: Grid)
  {
    forall a :: 0 <= a < |k| ==> |k[a]| == |k|
  }

  /** numpy 'reflect' border index for an axis of length n: positions
      before the axis are mirrored about sample 0 and positions after it
      about sample n - 1, repeatedly, until they land inside (numpy pads
      overhangs wider than the axis by reflecting again). A singleton axis
      is padded by repeating its only sample. ReflectInside and
      ReflectMirror state what it does. */
  function Reflect(p: int, n: nat): (r: nat)
    requires n >= 1
    ensures r < n
    decreases if p < 0 then -2 * p + 1 else 2 * p
  {
    if n == 1 || 0 <= p < n then (if n == 1 then 0 else p)
    else if p < 0 then Reflect(-p, n)
    else Reflect(2 * (n - 1) - p, n)
  }

  /** Indices inside the axis are left alone. */
  lemma ReflectInside(p: int, n: nat)
    requires 0 <= p < n
    ensures Reflect(p, n) == p
  {
  }

  /** numpy 'reflect' does not repeat the edge sample: for overhangs up to
      n - 1, index -k reads sample k and index n - 1 + k reads sample n - 1 - k. */
  lemma ReflectMirror(k: nat, n: nat)
    requires 1 <= n && k <= n - 1
    ensures Reflect(-(k as int), n) == k
    ensures Reflect(n - 1 + k, n) == n - 1 - k
  {
    if n > 1 && k > 0 {
      assert Reflect(k, n) == k;
      assert Reflect(n - 1 - k, n) == n - 1 - k;
    }
  }

  /** `np.pad(img, pad, mode='reflect')`: an (H + 2 pad) x (W + 2 pad) grid whose
      every sample is the image sample at the reflected row and column, and
      whose centre block is the image itself. */
  function ReflectPad(img: Grid, pad: nat): (padded: Grid)
    requires IsImage(img)
    ensures |padded| == Height(img) + 2 * pad
    ensures forall r :: 0 <= r < |padded| ==> |padded[r]| == Width(img) + 2 * pad
    ensures forall r, c :: 0 <= r < |padded| && 0 <= c < |padded[r]| ==>
      padded[r][c] == img[Reflect(r - pad, Height(img))][Reflect(c - pad, Width(img))]
    ensures IsByteImage(img) ==> IsByteImage(padded)
  {
    var h, w := Height(img), Width(img);
    seq(h + 2 * pad, r requires 0 <= r < h + 2 * pad =>
      seq(w + 2 * pad, c requires 0 <= c < w + 2 * pad =>
        img[Reflect(r - pad, h)][Reflect(c - pad, w)]))
  }

  /** The centre block of the padded image is the image itself. */
  lemma PadCentre(img: Grid, pad: nat, i: nat, j: nat)
    requires IsImage(img) && i < Height(img) && j < Width(img)
    ensures i + pad < |ReflectPad(img, pad)| && j + pad < |ReflectPad(img, pad)[i + pad]|
    ensures ReflectPad(img, pad)[i + pad][j + pad] == img[i][j]
  {
    ReflectInside(i, Height(img));
    ReflectInside(j, Width(img));
  }

  /** The rows..rows+rowCount, cols..cols+colCount block lies inside g. */
  predicate FitsWindow(g: Grid, i: nat, j: nat, rowCount: nat, colCount: nat)
  {
    i + rowCount <= |g| && forall r :: i <= r < i + rowCount ==> j + colCount <= |g[r]|
  }

  /** Σ_{b < n} row[j + b] * weights[b]. */
  function RowDot(row: seq<int>, weights: seq<int>, j: nat, n: nat): int
    requires n <= |weights| && j + n <= |row|
  {
    if n == 0 then 0 else RowDot(row, weights, j, n - 1) + row[j + n - 1] * weights[n - 1]
  }

  /** Σ_{a < m, b < |k|} g[i + a][j + b] * k[a][b]: the first m rows of the
      kernel laid over g with its corner at (i, j), kernel not flipped. */
  function WindowSum(g: Grid, k: Grid, i: nat, j: nat, m: nat): int
    requires IsKernel(k) && m <= |k|
    requires FitsWindow(g, i, j, m, |k|)
  {
    if m == 0 then 0 else WindowSum(g, k, i, j, m - 1) + RowDot(g[i + m - 1], k[m - 1], j, |k|)
  }

  /** Sum of all weights of the first m rows of a kernel. */
  function KernelSum(k: Grid, m: nat): int
    requires IsKernel(k) && m <= |k|
  {
    if m == 0 then 0 else KernelSum(k, m - 1) + Sum(k[m - 1])
  }

  /** The values of the size x size block of g at (i, j), row by row
      (`g[i:i+size, j:j+size].flatten()`). */
  function Window(g: Grid, i: nat, j: nat, size: nat): (w: seq<int>)
    requires FitsWindow(g, i, j, size, size)
    ensures size >= 1 ==> |w| >= 1
  {
    WindowRows(g, i, j, size, size)
  }

  function WindowRows(g: Grid, i: nat, j: nat, cols: nat, m: nat): (w: seq<int>)
    requires FitsWindow(g, i, j, m, cols)
    ensures cols >= 1 ==> |w| >= m
  {
    if m == 0 then [] else WindowRows(g, i, j, cols, m - 1) + g[i + m - 1][j..j + cols]
  }

  /** A window of m rows of cols samples holds m * cols samples. */
  lemma {:induction false} WindowRowsLength(g: Grid, i: nat, j: nat, cols: nat, m: nat)
    requires FitsWindow(g, i, j, m, cols)
    ensures |WindowRows(g, i, j, cols, m)| == m * cols
  {
    if m > 0 {
      WindowRowsLength(g, i, j, cols, m - 1);
    }
  }

  /** The padded image always holds the whole kernel window of every pixel. */
  lemma PaddedFits(img: Grid, size: nat, i: nat, j: nat)
    requires IsImage(img) && i < Height(img) && j < Width(img)
    ensures FitsWindow(ReflectPad(img, size / 2), i, j, size, size)
  {
  }

  /** `apply_convolution` as a value: the H x W grid of window sums over the
      reflect-padded image, whatever the kernel size. */
  function Convolve(img: Grid, kernel: Grid): (r: Grid)
    requires IsImage(img) && IsKernel(kernel)
    ensures |r| == Height(img)
    ensures forall i :: 0 <= i < |r| ==> |r[i]| == Width(img)
  {
    var padded := ReflectPad(img, |kernel| / 2);
    seq(Height(img), i requires 0 <= i < Height(img) =>
      seq(Width(img), j requires 0 <= j < Width(img) =>
        WindowSum(padded, kernel, i, j, |kernel|)))
  }

  lemma ConvolveAt(img: Grid, kernel: Grid, i: nat, j: nat)
    requires IsImage(img) && IsKernel(kernel) && i < Height(img) && j < Width(img)
    ensures FitsWindow(ReflectPad(img, |kernel| / 2), i, j, |kernel|, |kernel|)
    ensures Convolve(img, kernel)[i][j] == WindowSum(ReflectPad(img, |kernel| / 2), kernel, i, j, |kernel|)
  {
    PaddedFits(img, |kernel|, i, j);
  }

  /** src/utils.py `apply_convolution`: pads, allocates a zero result of the
      image's shape and fills it pixel by pixel. */
  method ApplyConvolution(img: Grid, kernel: Grid) returns (result: array2<int>)
    requires IsImage(img) && IsKernel(kernel)
    ensures fresh(result)
    ensures result.Length0 == Height(img) && result.Length1 == Width(img)
    ensures forall i, j :: 0 <= i < result.Length0 && 0 <= j < result.Length1 ==>
      result[i, j] == Convolve(img, kernel)[i][j]
  {
    var size := |kernel|;
    var pad := size / 2;
    var padded := ReflectPad(img, pad);
    var h, w := Height(img), Width(img);
    ghost var expected := Convolve(img, kernel);
    result := new int[h, w]((_, _) => 0);
    for i := 0 to h
      invariant forall r, c :: 0 <= r < i && 0 <= c < w ==> result[r, c] == expected[r][c]
    {
      for j := 0 to w
        invariant forall r, c :: 0 <= r <= i && 0 <= c < w && (r < i || c < j) ==> result[r, c] == expected[r][c]
      {
        PaddedFits(img, size, i, j);
        result[i, j] := WindowSum(padded, kernel, i, j, size);
      }
    }
  }

  /** Every sample of the block lies in the flattened window. */
  lemma {:induction false} WindowRowsContains(g: Grid, i: nat, j: nat, cols: nat, m: nat, a: nat, b: nat)
    requires FitsWindow(g, i, j, m, cols) && a < m && b < cols
    ensures g[i + a][j + b] in WindowRows(g, i, j, cols, m)
  {
    if a < m - 1 {
      WindowRowsContains(g, i, j, cols, m - 1, a, b);
    } else {
      var row := g[i + m - 1][j..j + cols];
      assert row[b] == g[i + a][j + b];
      assert row[b] in row;
    }
  }

  /** A window of a byte grid holds bytes only. */
  lemma {:induction false} WindowRowsBytes(g: Grid, i: nat, j: nat, cols: nat, m: nat)
    requires FitsWindow(g, i, j, m, cols) && IsByteImage(g)
    ensures AllBytes(WindowRows(g, i, j, cols, m))
  {
    if m > 0 {
      WindowRowsBytes(g, i, j, cols, m - 1);
      var init := WindowRows(g, i, j, cols, m - 1);
      var row := g[i + m - 1][j..j + cols];
      forall k | 0 <= k < |init + row|
        ensures IsByte((init + row)[k])
      {
        if k >= |init| {
          assert (init + row)[k] == g[i + m - 1][j + (k - |init|)];
        }
      }
    }
  }

  // ----- Properties of the correlation -----

  /** A kernel whose only non-zero weight is a 1 at (a0, b0). */
  function UnitKernel(size: nat, a0: nat, b0: nat): (k: Grid)
    ensures IsKernel(k) && |k| == size
  {
    seq(size, a requires 0 <= a < size => seq(size, b requires 0 <= b < size =>
      if a == a0 && b == b0 then 1 else 0))
  }

  lemma {:induction false} RowDotUnit(row: seq<int>, weights: seq<int>, j: nat, n: nat, b0: nat)
    requires n <= |weights| && j + n <= |row|
    requires forall b :: 0 <= b < |weights| ==> weights[b] == (if b == b0 then 1 else 0)
    ensures RowDot(row, weights, j, n) == (if b0 < n then row[j + b0] else 0)
  {
    if n > 0 {
      RowDotUnit(row, weights, j, n - 1, b0);
    }
  }

  lemma {:induction false} RowDotZero(row: seq<int>, weights: seq<int>, j: nat, n: nat)
    requires n <= |weights| && j + n <= |row|
    requires forall b :: 0 <= b < |weights| ==> weights[b] == 0
    ensures RowDot(row, weights, j, n) == 0
  {
    if n > 0 {
      RowDotZero(row, weights, j, n - 1);
    }
  }

  lemma {:induction false} WindowSumUnit(g: Grid, size: nat, a0: nat, b0: nat, i: nat, j: nat, m: nat)
    requires a0 < size && b0 < size && m <= size
    requires FitsWindow(g, i, j, m, size)
    ensures WindowSum(g, UnitKernel(size, a0, b0), i, j, m) == (if a0 < m then g[i + a0][j + b0] else 0)
  {
    var k := UnitKernel(size, a0, b0);
    if m > 0 {
      WindowSumUnit(g, size, a0, b0, i, j, m - 1);
      if m - 1 == a0 {
        RowDotUnit(g[i + m - 1], k[m - 1], j, size, b0);
      } else {
        RowDotZero(g[i + m - 1], k[m - 1], j, size);
      }
    }
  }

  /** No kernel flip: a unit weight at (a0, b0) reads the reflect-padded
      image at offset (a0, b0) from the window corner, i.e. the image sample
      (i + a0 - pad, j + b0 - pad) after reflection. */
  lemma ConvolveUnitKernel(img: Grid, size: nat, a0: nat, b0: nat, i: nat, j: nat)
    requires IsImage(img) && a0 < size && b0 < size
    requires i < Height(img) && j < Width(img)
    ensures Convolve(img, UnitKernel(size, a0, b0))[i][j]
      == img[Reflect(i + a0 - size / 2, Height(img))][Reflect(j + b0 - size / 2, Width(img))]
  {
    UnitKernelReadsPadded(img, size, a0, b0, i, j);
    var padded := ReflectPad(img, size / 2);
    var r, c := i + a0, j + b0;
    assert padded[r][c] == img[Reflect(r - size / 2, Height(img))][Reflect(c - size / 2, Width(img))];
  }

  lemma UnitKernelReadsPadded(img: Grid, size: nat, a0: nat, b0: nat, i: nat, j: nat)
    requires IsImage(img) && a0 < size && b0 < size
    requires i < Height(img) && j < Width(img)
    ensures i + a0 < |ReflectPad(img, size / 2)| && j + b0 < |ReflectPad(img, size / 2)[i + a0]|
    ensures Convolve(img, UnitKernel(size, a0, b0))[i][j] == ReflectPad(img, size / 2)[i + a0][j + b0]
  {
    var padded := ReflectPad(img, size / 2);
    var k := UnitKernel(size, a0, b0);
    ConvolveAt(img, k, i, j);
    WindowSumUnit(padded, size, a0, b0, i, j, size);
  }

  /** The centred unit kernel reproduces the image exactly, border pixels
      included. */
  lemma ConvolveIdentity(img: Grid, size: nat)
    requires IsImage(img) && size >= 1
    ensures Convolve(img, UnitKernel(size, size / 2, size / 2)) == img
  {
    var r := Convolve(img, UnitKernel(size, size / 2, size / 2));
    forall i | 0 <= i < |img|
      ensures r[i] == img[i]
    {
      forall j | 0 <= j < |img[i]|
        ensures r[i][j] == img[i][j]
      {
        ConvolveIdentityAt(img, size, i, j);
      }
    }
  }

  lemma ConvolveIdentityAt(img: Grid, size: nat, i: nat, j: nat)
    requires IsImage(img) && size >= 1 && i < Height(img) && j < Width(img)
    ensures Convolve(img, UnitKernel(size, size / 2, size / 2))[i][j] == img[i][j]
  {
    ConvolveUnitKernel(img, size, size / 2, size / 2, i, j);
    ReflectInside(i, Height(img));
    ReflectInside(j, Width(img));
  }

  lemma {:induction false} RowDotConstant(row: seq<int>, weights: seq<int>, j: nat, n: nat, v: int)
    requires n <= |weights| && j + n <= |row|
    requires forall b :: j <= b < j + n ==> row[b] == v
    ensures RowDot(row, weights, j, n) == v * Sum(weights[..n])
  {
    if n > 0 {
      RowDotConstant(row, weights, j, n - 1, v);
      assert weights[..n][..n - 1] == weights[..n - 1];
    }
  }

  lemma {:induction false} WindowSumConstant(g: Grid, k: Grid, i: nat, j: nat, m: nat, v: int)
    requires IsKernel(k) && m <= |k| && FitsWindow(g, i, j, m, |k|)
    requires forall r, c :: i <= r < i + m && j <= c < j + |k| ==> g[r][c] == v
    ensures WindowSum(g, k, i, j, m) == v * KernelSum(k, m)
  {
    if m > 0 {
      WindowSumConstant(g, k, i, j, m - 1, v);
      RowDotConstant(g[i + m - 1], k[m - 1], j, |k|, v);
      assert k[m - 1][..|k|] == k[m - 1];
    }
  }

  /** On a constant image V every output pixel is V times the kernel's weight
      sum (reflection introduces no other value); a zero-sum kernel gives 0. */
  lemma ConvolveConstant(img: Grid, kernel: Grid, v: int, i: nat, j: nat)
    requires IsImage(img) && IsKernel(kernel) && IsConstant(img, v)
    requires i < Height(img) && j < Width(img)
    ensures Convolve(img, kernel)[i][j] == v * KernelSum(kernel, |kernel|)
  {
    var padded := ReflectPad(img, |kernel| / 2);
    ConvolveAt(img, kernel, i, j);
    WindowSumConstant(padded, kernel, i, j, |kernel|, v);
  }

  lemma {:induction false} RowDotBounds(row: seq<int>, weights: seq<int>, j: nat, n: nat, lo: int, hi: int)
    requires n <= |weights| && j + n <= |row|
    requires forall b :: 0 <= b < n ==> weights[b] >= 0
    requires forall c :: j <= c < j + n ==> lo <= row[c] <= hi
    ensures lo * Sum(weights[..n]) <= RowDot(row, weights, j, n) <= hi * Sum(weights[..n])
  {
    if n > 0 {
      RowDotBounds(row, weights, j, n - 1, lo, hi);
      assert weights[..n][..n - 1] == weights[..n - 1];
      MulBounds(row[j + n - 1], weights[n - 1], lo, hi);
    }
  }

  /** With non-negative weights, a window whose samples lie in [lo, hi] sums
      to between lo and hi times the weight sum. */
  lemma {:induction false} WindowSumBounds(g: Grid, k: Grid, i: nat, j: nat, m: nat, lo: int, hi: int)
    requires IsKernel(k) && m <= |k| && FitsWindow(g, i, j, m, |k|)
    requires forall a, b :: 0 <= a < |k| && 0 <= b < |k| ==> k[a][b] >= 0
    requires forall r, c :: i <= r < i + m && j <= c < j + |k| ==> lo <= g[r][c] <= hi
    ensures lo * KernelSum(k, m) <= WindowSum(g, k, i, j, m) <= hi * KernelSum(k, m)
  {
    if m > 0 {
      WindowSumBounds(g, k, i, j, m - 1, lo, hi);
      RowDotBounds(g[i + m - 1], k[m - 1], j, |k|, lo, hi);
      assert k[m - 1][..|k|] == k[m - 1];
    }
  }

  lemma {:induction false} RowDotCongruent(row: seq<int>, row2: seq<int>, weights: seq<int>, j: nat, j2: nat, n: nat)
    requires n <= |weights| && j + n <= |row| && j2 + n <= |row2|
    requires forall c :: j <= c < j + n ==> row[c] == row2[c - j + j2]
    ensures RowDot(row, weights, j, n) == RowDot(row2, weights, j2, n)
  {
    if n > 0 {
      RowDotCongruent(row, row2, weights, j, j2, n - 1);
    }
  }

  /** A window sum depends only on the samples under the window. */
  lemma {:induction false} WindowSumCongruent(g: Grid, g2: Grid, k: Grid, i: nat, j: nat, i2: nat, j2: nat, m: nat)
    requires IsKernel(k) && m <= |k|
    requires FitsWindow(g, i, j, m, |k|) && FitsWindow(g2, i2, j2, m, |k|)
    requires forall r, c :: i <= r < i + m && j <= c < j + |k| ==> g[r][c] == g2[r - i + i2][c - j + j2]
    ensures WindowSum(g, k, i, j, m) == WindowSum(g2, k, i2, j2, m)
  {
    if m > 0 {
      WindowSumCongruent(g, g2, k, i, j, i2, j2, m - 1);
      RowDotCongruent(g[i + m - 1], g2[i2 + m - 1], k[m - 1], j, j2, |k|);
    }
  }

  /** Away from the border (pad <= i < H - pad, pad <= j < W - pad) the window
      reads original pixels only: the output is the window sum over the image
      itself at (i - pad, j - pad). */
  lemma ConvolveInterior(img: Grid, kernel: Grid, i: nat, j: nat)
    requires IsImage(img) && IsKernel(kernel)
    requires |kernel| / 2 <= i < Height(img) - |kernel| / 2
    requires |kernel| / 2 <= j < Width(img) - |kernel| / 2
    ensures FitsWindow(img, i - |kernel| / 2, j - |kernel| / 2, |kernel|, |kernel|)
    ensures Convolve(img, kernel)[i][j] == WindowSum(img, kernel, i - |kernel| / 2, j - |kernel| / 2, |kernel|)
  {
    ConvolveAt(img, kernel, i, j);
    InteriorWindowSum(img, kernel, i, j);
  }

  lemma InteriorWindowSum(img: Grid, kernel: Grid, i: nat, j: nat)
    requires IsImage(img) && IsKernel(kernel)
    requires |kernel| / 2 <= i < Height(img) - |kernel| / 2
    requires |kernel| / 2 <= j < Width(img) - |kernel| / 2
    ensures FitsWindow(img, i - |kernel| / 2, j - |kernel| / 2, |kernel|, |kernel|)
    ensures FitsWindow(ReflectPad(img, |kernel| / 2), i, j, |kernel|, |kernel|)
    ensures WindowSum(ReflectPad(img, |kernel| / 2), kernel, i, j, |kernel|)
      == WindowSum(img, kernel, i - |kernel| / 2, j - |kernel| / 2, |kernel|)
  {
    InteriorAgrees(img, |kernel|, i, j);
    WindowSumCongruent(ReflectPad(img, |kernel| / 2), img, kernel, i, j, i - |kernel| / 2, j - |kernel| / 2, |kernel|);
  }

  lemma InteriorAgrees(img: Grid, n: nat, i: nat, j: nat)
    requires IsImage(img) && n / 2 <= i < Height(img) - n / 2 && n / 2 <= j < Width(img) - n / 2
    ensures FitsWindow(img, i - n / 2, j - n / 2, n, n)
    ensures FitsWindow(ReflectPad(img, n / 2), i, j, n, n)
    ensures forall r, c :: i <= r < i + n && j <= c < j + n ==>
      ReflectPad(img, n / 2)[r][c] == img[r - i + (i - n / 2)][c - j + (j - n / 2)]
  {
    var pad := n / 2;
    PaddedFits(img, n, i, j);
    InteriorFits(img, n, i, j);
    assert i + n <= Height(img) + pad && j + n <= Width(img) + pad;
    forall r, c | i <= r < i + n && j <= c < j + n
      ensures ReflectPad(img, pad)[r][c] == img[r - i + (i - pad)][c - j + (j - pad)]
    {
      PaddedInterior(img, pad, r, c);
    }
  }

  lemma InteriorFits(img: Grid, n: nat, i: nat, j: nat)
    requires IsImage(img) && n / 2 <= i < Height(img) - n / 2 && n / 2 <= j < Width(img) - n / 2
    ensures FitsWindow(img, i - n / 2, j - n / 2, n, n)
  {
  }

  /** Inside the centre block the padded image is the image, shifted by pad. */
  lemma PaddedInterior(img: Grid, pad: nat, r: nat, c: nat)
    requires IsImage(img) && pad <= r < Height(img) + pad && pad <= c < Width(img) + pad
    ensures r < |ReflectPad(img, pad)| && c < |ReflectPad(img, pad)[r]|
    ensures ReflectPad(img, pad)[r][c] == img[r - pad][c - pad]
  {
    ReflectInside(r - pad, Height(img));
    ReflectInside(c - pad, Width(img));
  }
}
