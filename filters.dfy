/** The spatial filters of src/filters.py, built on the convolution engine.
    Gains are integers and arithmetic is exact; see README for the float32
    and non-integer-gain behaviour that is not modelled. */
module Filters {
  import opened Wrappers
  import opened Images
  import opened Utils
  import opened Config
  import opened Sorting

  /** The size x size all-ones kernel; the box kernel is Ones(size) / size². */
  function Ones(size: nat): (k: Grid)
    ensures IsKernel(k) && |k| == size
  {
    seq(size, _ => seq(size, _ => 1))
  }

  lemma {:induction false} SumOfOnes(n: nat)
    ensures Sum(seq(n, _ => 1)) == n
  {
    if n > 0 {
      assert seq(n, _ => 1)[..n - 1] == seq(n - 1, _ => 1);
      SumOfOnes(n - 1);
    }
  }

  lemma {:induction false} OnesKernelSum(size: nat, m: nat)
    requires m <= size
    ensures KernelSum(Ones(size), m) == m * size
  {
    if m > 0 {
      OnesKernelSum(size, m - 1);
      SumOfOnes(size);
      assert Ones(size)[m - 1] == seq(size, _ => 1);
    }
  }

  // ----- box_filter (src/filters.py:9-12) -----

  /** `box_filter`: the window mean over the reflect-padded image, truncated
      and saturated to a byte. */
  function BoxFilter(img: Grid, size: nat): (r: Grid)
    requires IsImage(img) && size >= 1
    ensures SameShape(r, img) && IsByteImage(r)
  {
    var sums := Convolve(img, Ones(size));
    ClampImage(seq(Height(img), i requires 0 <= i < Height(img) =>
      seq(Width(img), j requires 0 <= j < Width(img) => sums[i][j] / (size * size))))
  }

  /** On a byte image the saturation never triggers: each output pixel is
      floor(windowSum / size²) and is bounded by the window's range. */
  lemma BoxFilterIsWindowMean(img: Grid, size: nat, i: nat, j: nat)
    requires IsByteImage(img) && IsImage(img) && size >= 1
    requires i < Height(img) && j < Width(img)
    ensures BoxFilter(img, size)[i][j] == Convolve(img, Ones(size))[i][j] / (size * size)
  {
    var k := Ones(size);
    var padded := ReflectPad(img, size / 2);
    ConvolveAt(img, k, i, j);
    OnesKernelSum(size, size);
    WindowSumBounds(padded, k, i, j, size, 0, 255);
    var s := Convolve(img, k)[i][j];
    assert 0 <= s <= 255 * (size * size);
    DivBounds(s, size * size, 255);
  }

  /** The box filter maps a constant byte image to itself. */
  lemma BoxFilterConstant(img: Grid, size: nat, v: int)
    requires IsImage(img) && size >= 1 && IsConstant(img, v) && IsByte(v)
    ensures BoxFilter(img, size) == img
  {
    var r := BoxFilter(img, size);
    forall i | 0 <= i < |img|
      ensures r[i] == img[i]
    {
      forall j | 0 <= j < |img[i]|
        ensures r[i][j] == img[i][j]
      {
        BoxFilterConstantAt(img, size, v, i, j);
      }
    }
  }

  lemma BoxFilterConstantAt(img: Grid, size: nat, v: int, i: nat, j: nat)
    requires IsImage(img) && size >= 1 && IsConstant(img, v) && IsByte(v)
    requires i < Height(img) && j < Width(img)
    ensures BoxFilter(img, size)[i][j] == v
  {
    ConvolveConstant(img, Ones(size), v, i, j);
    OnesKernelSum(size, size);
    DivCancel(v, size * size);
    assert Convolve(img, Ones(size))[i][j] / (size * size) == v;
  }

  // ----- median_filter (src/filters.py:34-45) -----

  /** `np.median` of a window, stored into a uint8 array: the middle element
      of the sorted values, or for an even count the truncated mean of the
      two middle elements, truncated toward zero as the integer store does;
      for an odd count it is one of the values. */
  function Median(s: seq<int>): (m: int)
    requires |s| >= 1
    ensures |s| % 2 == 1 ==> m in s
  {
    var t := Sort(s);
    assert t[|s| / 2] in multiset(t);
    Middle(t)
  }

  /** The middle of a sorted sequence: its middle element for an odd count,
      else the mean of the two middle elements truncated toward zero (a
      float stored into an integer array). */
  function Middle(t: seq<int>): (m: int)
    requires |t| >= 1
    ensures |t| % 2 == 1 ==> m == t[|t| / 2]
  {
    var mid := |t| / 2;
    if |t| % 2 == 1 then t[mid]
    else
      var x := t[mid - 1] + t[mid];
      if x >= 0 then x / 2 else -((-x) / 2)
  }

  /** The median lies between the smallest and the largest value. */
  lemma MedianInRange(s: seq<int>)
    requires |s| >= 1
    ensures SeqMin(s) <= Median(s) <= SeqMax(s)
  {
    var t := Sort(s);
    var mid := |s| / 2;
    var lo, hi := SeqMin(s), SeqMax(s);
    SortedBounds(s, t, mid);
    if mid >= 1 {
      SortedBounds(s, t, mid - 1);
    }
    MiddleBetween(t, lo, hi);
  }

  /** Every element of a permutation of s lies between s's extremes. */
  lemma SortedBounds(s: seq<int>, t: seq<int>, k: nat)
    requires |s| >= 1 && multiset(t) == multiset(s) && k < |t|
    ensures SeqMin(s) <= t[k] <= SeqMax(s)
  {
    assert t[k] in multiset(t);
    MemberBounds(s, t[k]);
  }

  /** The middle of t lies in any range [lo, hi] that holds its middle
      element and, for an even count, the element before it. */
  lemma MiddleBetween(t: seq<int>, lo: int, hi: int)
    requires |t| >= 1 && lo <= t[|t| / 2] <= hi
    requires |t| % 2 == 0 ==> lo <= t[|t| / 2 - 1] <= hi
    ensures lo <= Middle(t) <= hi
  {
  }

  lemma MemberBounds(s: seq<int>, x: int)
    requires |s| >= 1 && x in multiset(s)
    ensures SeqMin(s) <= x <= SeqMax(s) && x in s
  {
    assert x in s;
    var k :| 0 <= k < |s| && s[k] == x;
  }

  /** For an odd window the median has at most half the window strictly
      below it and at most half strictly above it. */
  lemma MedianRank(s: seq<int>)
    requires |s| % 2 == 1
    ensures CountIf(s, Below(Median(s))) <= |s| / 2
    ensures CountIf(s, Above(Median(s))) <= |s| / 2
  {
    SortedMiddleIsMedian(s);
  }

  /** `np.median(img_padded[i:i+size, j:j+size])`, where `padded` is the
      image padded once by `size // 2`. */
  function WindowMedian(img: Grid, padded: Grid, size: nat, i: nat, j: nat): int
    requires IsImage(img) && size >= 1 && i < Height(img) && j < Width(img)
    requires padded == ReflectPad(img, size / 2)
  {
    PaddedFits(img, size, i, j);
    Median(Window(padded, i, j, size))
  }

  /** The median of the size x size reflect-padded window at (i, j). */
  function MedianAt(img: Grid, size: nat, i: nat, j: nat): int
    requires IsImage(img) && size >= 1 && i < Height(img) && j < Width(img)
  {
    WindowMedian(img, ReflectPad(img, size / 2), size, i, j)
  }

  /** A grid holding MedianAt at every pixel. The quantifier fires only on an
      explicit MedianAt term, which keeps the loop proof of MedianFilter from
      unfolding the median of every window it reasons about. */
  lemma MedianGrid(img: Grid, size: nat) returns (g: Grid)
    requires IsImage(img) && size >= 1
    ensures |g| == Height(img) && forall r :: 0 <= r < |g| ==> |g[r]| == Width(img)
    ensures forall r, c {:trigger MedianAt(img, size, r, c)} ::
      0 <= r < Height(img) && 0 <= c < Width(img) ==> g[r][c] == MedianAt(img, size, r, c)
  {
    g := seq(Height(img), r requires 0 <= r < Height(img) =>
      seq(Width(img), c requires 0 <= c < Width(img) => MedianAt(img, size, r, c)));
  }

  /** src/filters.py `median_filter`: fills a zero result pixel by pixel with
      the window medians. */
  method MedianFilter(img: Grid, size: nat) returns (result: array2<int>)
    requires IsImage(img) && size >= 1
    ensures fresh(result)
    ensures result.Length0 == Height(img) && result.Length1 == Width(img)
    ensures forall i, j :: 0 <= i < result.Length0 && 0 <= j < result.Length1 ==>
      result[i, j] == MedianAt(img, size, i, j)
  {
    var pad := size / 2;
    var padded := ReflectPad(img, pad);
    var h, w := Height(img), Width(img);
    ghost var expected := MedianGrid(img, size);
    result := new int[h, w]((_, _) => 0);
    for i := 0 to h
      invariant forall r, c :: 0 <= r < i && 0 <= c < w ==> result[r, c] == expected[r][c]
    {
      for j := 0 to w
        invariant forall r, c :: 0 <= r <= i && 0 <= c < w && (r < i || c < j) ==>
          result[r, c] == expected[r][c]
      {
        result[i, j] := WindowMedian(img, padded, size, i, j);
        assert result[i, j] == MedianAt(img, size, i, j);
      }
    }
    assert forall r, c :: 0 <= r < h && 0 <= c < w ==> result[r, c] == MedianAt(img, size, r, c);
  }

  /** Each median lies within its window's range, hence is a byte on a byte
      image. */
  lemma MedianWithinWindow(img: Grid, size: nat, i: nat, j: nat)
    requires IsImage(img) && size >= 1 && i < Height(img) && j < Width(img)
    ensures FitsWindow(ReflectPad(img, size / 2), i, j, size, size)
    ensures SeqMin(Window(ReflectPad(img, size / 2), i, j, size)) <= MedianAt(img, size, i, j)
            <= SeqMax(Window(ReflectPad(img, size / 2), i, j, size))
    ensures IsByteImage(img) ==> IsByte(MedianAt(img, size, i, j))
  {
    PaddedFits(img, size, i, j);
    SquarePositive(size);
    var padded := ReflectPad(img, size / 2);
    var window := Window(padded, i, j, size);
    MedianInRange(window);
    if IsByteImage(img) {
      WindowRowsBytes(padded, i, j, size, size);
      assert IsByte(SeqMin(window)) && IsByte(SeqMax(window));
    }
  }

  /** A 1 x 1 median filter is the identity. */
  lemma MedianFilterSizeOne(img: Grid, i: nat, j: nat)
    requires IsImage(img) && i < Height(img) && j < Width(img)
    ensures MedianAt(img, 1, i, j) == img[i][j]
  {
    var padded := ReflectPad(img, 0);
    PaddedFits(img, 1, i, j);
    PadCentre(img, 0, i, j);
    assert WindowRows(padded, i, j, 1, 0) == [];
    assert padded[i][j..j + 1] == [img[i][j]];
    var window := Window(padded, i, j, 1);
    assert window == [img[i][j]];
    MedianSingleton(img[i][j]);
    assert WindowMedian(img, padded, 1, i, j) == Median(window);
  }

  lemma MedianSingleton(x: int)
    ensures Median([x]) == x
  {
    var t := Sort([x]);
    assert t[0] in multiset(t);
  }


  // ----- laplacian_filter and sharpen_with_laplacian (src/filters.py:48-59) -----

  function KernelOrLaplacian(kernel: Option<Grid>): Grid
  {
    if kernel.Some? then kernel.value else LaplacianKernel
  }

  /** `laplacian_filter`: the correlation with the given kernel, by default
      the 4-neighbour Laplacian; unclamped. */
  function LaplacianFilter(img: Grid, kernel: Option<Grid>): (r: Grid)
    requires IsImage(img) && (kernel.Some? ==> IsKernel(kernel.value))
    ensures |r| == Height(img) && forall i :: 0 <= i < |r| ==> |r[i]| == Width(img)
  {
    assert IsKernel(LaplacianKernel);
    Convolve(img, KernelOrLaplacian(kernel))
  }

  /** The default Laplacian is a square kernel whose weights sum to zero. */
  lemma LaplacianKernelSumsToZero()
    ensures IsKernel(LaplacianKernel) && KernelSum(LaplacianKernel, 3) == 0
  {
    SumOfThree(0, -1, 0);
    SumOfThree(-1, 4, -1);
  }

  /** A constant image has zero Laplacian everywhere, for the default kernel
      and for any zero-sum kernel. */
  lemma LaplacianOfConstant(img: Grid, kernel: Option<Grid>, v: int, i: nat, j: nat)
    requires IsImage(img) && IsConstant(img, v) && i < Height(img) && j < Width(img)
    requires kernel.Some? ==> IsKernel(kernel.value) && KernelSum(kernel.value, |kernel.value|) == 0
    ensures LaplacianFilter(img, kernel)[i][j] == 0
  {
    LaplacianKernelSumsToZero();
    ConvolveConstant(img, KernelOrLaplacian(kernel), v, i, j);
  }

  /** `sharpen_with_laplacian` with an integer gain: clamp(img + c * lap). */
  function SharpenWithLaplacian(img: Grid, c: int, kernel: Option<Grid>): (r: Grid)
    requires IsImage(img) && (kernel.Some? ==> IsKernel(kernel.value))
    ensures SameShape(r, img) && IsByteImage(r)
  {
    var lap := LaplacianFilter(img, kernel);
    ClampImage(seq(Height(img), i requires 0 <= i < Height(img) =>
      seq(Width(img), j requires 0 <= j < Width(img) => img[i][j] + c * lap[i][j])))
  }

  /** Sharpening leaves a constant byte image unchanged, whatever the gain. */
  lemma SharpenConstant(img: Grid, c: int, kernel: Option<Grid>, v: int)
    requires IsImage(img) && IsConstant(img, v) && IsByte(v)
    requires kernel.Some? ==> IsKernel(kernel.value) && KernelSum(kernel.value, |kernel.value|) == 0
    ensures SharpenWithLaplacian(img, c, kernel) == img
  {
    var r := SharpenWithLaplacian(img, c, kernel);
    forall i | 0 <= i < |img|
      ensures r[i] == img[i]
    {
      forall j | 0 <= j < |img[i]|
        ensures r[i][j] == img[i][j]
      {
        LaplacianOfConstant(img, kernel, v, i, j);
      }
    }
  }

  // ----- sobel_gradient (src/filters.py:62-67) -----

  /** `sobel_gradient` before its square root: gx² + gy². */
  function SobelGradientSquared(img: Grid): (r: Grid)
    requires IsImage(img)
    ensures SameShape(r, img)
    ensures forall i, j :: 0 <= i < |r| && 0 <= j < |r[i]| ==> r[i][j] >= 0
  {
    assert IsKernel(SobelXKernel) && IsKernel(SobelYKernel);
    var gx := Convolve(img, SobelXKernel);
    var gy := Convolve(img, SobelYKernel);
    seq(Height(img), i requires 0 <= i < Height(img) =>
      seq(Width(img), j requires 0 <= j < Width(img) => gx[i][j] * gx[i][j] + gy[i][j] * gy[i][j]))
  }

  lemma SobelKernelsSumToZero()
    ensures IsKernel(SobelXKernel) && KernelSum(SobelXKernel, 3) == 0
    ensures IsKernel(SobelYKernel) && KernelSum(SobelYKernel, 3) == 0
  {
    SumOfThree(-1, 0, 1);
    SumOfThree(-2, 0, 2);
    SumOfThree(-1, -2, -1);
    SumOfThree(0, 0, 0);
    SumOfThree(1, 2, 1);
  }

  /** The gradient magnitude of a constant image is zero everywhere. */
  lemma SobelOfConstant(img: Grid, v: int, i: nat, j: nat)
    requires IsImage(img) && IsConstant(img, v) && i < Height(img) && j < Width(img)
    ensures SobelGradientSquared(img)[i][j] == 0
  {
    SobelKernelsSumToZero();
    ConvolveConstant(img, SobelXKernel, v, i, j);
    ConvolveConstant(img, SobelYKernel, v, i, j);
  }

  // ----- unsharp_masking and high_boost_filter (src/filters.py:70-84) -----

  datatype Unsharp = Unsharp(blurred: Grid, mask: Grid, result: Grid)

  /** `unsharp_masking` with an integer gain k: mask = img - blurred and
      result = clamp(img + k * mask). */
  function UnsharpMasking(img: Grid, blurSize: nat, k: int): (u: Unsharp)
    requires IsImage(img) && blurSize >= 1
    ensures SameShape(u.blurred, img) && SameShape(u.mask, img) && SameShape(u.result, img)
    ensures IsByteImage(u.result)
  {
    var blurred := BoxFilter(img, blurSize);
    var mask := seq(Height(img), i requires 0 <= i < Height(img) =>
      seq(Width(img), j requires 0 <= j < Width(img) => img[i][j] - blurred[i][j]));
    var result := ClampImage(seq(Height(img), i requires 0 <= i < Height(img) =>
      seq(Width(img), j requires 0 <= j < Width(img) => img[i][j] + k * mask[i][j])));
    Unsharp(blurred, mask, result)
  }

  /** On a constant byte image the mask is zero and the result is the input. */
  lemma UnsharpConstant(img: Grid, blurSize: nat, k: int, v: int)
    requires IsImage(img) && blurSize >= 1 && IsConstant(img, v) && IsByte(v)
    ensures IsConstant(UnsharpMasking(img, blurSize, k).mask, 0)
    ensures UnsharpMasking(img, blurSize, k).result == img
  {
    var u := UnsharpMasking(img, blurSize, k);
    forall i, j | 0 <= i < |u.mask| && 0 <= j < |u.mask[i]|
      ensures u.mask[i][j] == 0
    {
      UnsharpConstantAt(img, blurSize, k, v, i, j);
    }
    forall i | 0 <= i < |img|
      ensures u.result[i] == img[i]
    {
      forall j | 0 <= j < |img[i]|
        ensures u.result[i][j] == img[i][j]
      {
        UnsharpConstantAt(img, blurSize, k, v, i, j);
      }
    }
  }

  lemma UnsharpConstantAt(img: Grid, blurSize: nat, k: int, v: int, i: nat, j: nat)
    requires IsImage(img) && blurSize >= 1 && IsConstant(img, v) && IsByte(v)
    requires i < Height(img) && j < Width(img)
    ensures UnsharpMasking(img, blurSize, k).mask[i][j] == 0
    ensures UnsharpMasking(img, blurSize, k).result[i][j] == v
  {
    BoxFilterConstantAt(img, blurSize, v, i, j);
    var u := UnsharpMasking(img, blurSize, k);
    assert u.mask[i][j] == img[i][j] - u.blurred[i][j] == 0;
    assert u.result[i][j] == Clamp(img[i][j] + k * u.mask[i][j]);
  }

  /** `high_boost_filter` with an integer amplification A:
      clamp(A * img - blurred). */
  function HighBoostFilter(img: Grid, blurSize: nat, a: int): (r: Grid)
    requires IsImage(img) && blurSize >= 1
    ensures SameShape(r, img) && IsByteImage(r)
  {
    var blurred := BoxFilter(img, blurSize);
    ClampImage(seq(Height(img), i requires 0 <= i < Height(img) =>
      seq(Width(img), j requires 0 <= j < Width(img) => a * img[i][j] - blurred[i][j])))
  }

  /** High boost with A = 2 is unsharp masking with gain 1: 2x - b = x + (x - b). */
  lemma HighBoostIsUnsharp(img: Grid, blurSize: nat)
    requires IsImage(img) && blurSize >= 1
    ensures HighBoostFilter(img, blurSize, 2) == UnsharpMasking(img, blurSize, 1).result
  {
    var r := HighBoostFilter(img, blurSize, 2);
    var u := UnsharpMasking(img, blurSize, 1);
    forall i | 0 <= i < |img|
      ensures r[i] == u.result[i]
    {
      assert forall j :: 0 <= j < |img[i]| ==> r[i][j] == u.result[i][j];
    }
  }
}
