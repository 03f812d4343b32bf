# Spatial filtering and histogram engine, in Dafny

This project models the integer core of a grayscale image-enhancement toolkit. It proves properties of that model.

It covers the following parts of the toolkit:
- numpy `'reflect'` border padding;
- the sliding-window correlation `apply_convolution`;
- the filters built on the correlation: box, median, Laplacian, Laplacian sharpening, Sobel, unsharp masking and high boost;
- the 256-bin histogram engine: counting, running sums, global and local equalisation, histogram matching, and tiled adaptive equalisation with clip limiting;
- two point maps: the image negative and bit-plane slicing.

Images are rectangular grids `seq<seq<int>>`. Intensities are bytes [0, 255].

**Form of the model.** Routines that are array expressions in the source are functions:
- `box_filter`, `laplacian_filter`, `sharpen_with_laplacian`, `sobel_gradient`, `unsharp_masking`, `high_boost_filter`;
- `calculate_histogram`, `histogram_equalization`;
- `image_negative`.

Routines that work by loops become methods with loop invariants. Each is proved against a per-pixel specification function:
- `apply_convolution`, `median_filter`, `local_histogram_equalization` and `adaptive_histogram_equalization` each fill a fresh `array2<int>`;
- `histogram_matching` fills a 256-entry table array;
- the clip loop is its own method;
- `bit_plane_slicing` appends to a list.

**Arithmetic.** The source computes in float32/float64. The model computes exactly:
- Kernels are integer grids. The kernel constants of `config.py` are integers.
- Normalised cdfs are kept as integer counts. The truncation that `astype(np.uint8)` performs is integer division.
- `np.clip(x, 0, 255).astype(np.uint8)` becomes `Clamp(floor x)`. For a real x, this equals truncating after clipping.
- Histogram matching compares cross-multiplied counts. `Histogram.MatchIsRealArgMin` proves the result is the same index as argmin over the exact real normalised distances.

**Truncation and clipping.**
- **Equalisation truncates.** `histogram_equalization` (src/histogram.py:18) and `local_histogram_equalization` (src/histogram.py:42) convert `cdf_normalized[v] * 255` with `astype(np.uint8)`, which truncates. The model truncates too: `Histogram.EqualizedLevel` is the floor of the exact real value.
- **Adaptive clipping.** As written, the adaptive clip step cannot run once any bin is clipped; see Findings. The model uses the evident integer intent instead:
  - Every bin above `floor(clip_limit * mean)` is cut to that integer threshold.
  - The integer excess is shared out as `excess // 256` per bin.
  - `bonus = excess // 256` (src/histogram.py:91) discards the remainder `excess % 256`, and so does the model.
  - `Adaptive.ThresholdExact` shows that the integer threshold clips exactly the bins that the real threshold clips.

## Model

| member | source | states |
|---|---|---|
| Images.ClampImage | src/filters.py:12 | the saturation `clip(0, 255).astype(uint8)` keeps the shape and yields bytes only: every in-range value is untouched, every negative value becomes 0 and every value above 255 becomes 255 |
| Utils.Reflect | src/utils.py:111-113 | the reflected index of any position, however far outside, lies inside the axis [0, n) |
| Utils.ReflectInside | src/utils.py:113 | positions inside the axis are not moved by the reflect rule |
| Utils.ReflectMirror | src/utils.py:113 | index -k maps to k and index n-1+k maps to n-1-k for k <= n-1: the edge sample is not repeated |
| Utils.ReflectPad | src/utils.py:111-113 | the padded image is (H+2·pad)×(W+2·pad), each entry is the image at the reflected row and column, and a byte image pads to a byte image |
| Utils.PadCentre | src/utils.py:111-119 | padded[i+pad][j+pad] is img[i][j] |
| Utils.PaddedFits | src/utils.py:113-119 | every size×size window starting at an output pixel lies inside the image padded by size//2 |
| Utils.Convolve | src/utils.py:114-115 | the correlation has exactly the input's H×W shape, whatever the kernel size |
| Utils.ApplyConvolution | src/utils.py:108-122 | the nested loops fill a fresh H×W array whose every entry equals the specification `Convolve` |
| Utils.WindowRowsLength | src/filters.py:42 | a window cut from the padded image holds size·size values |
| Utils.WindowRowsContains | src/filters.py:42 | every padded pixel under the window is one of the window's values |
| Utils.WindowRowsBytes | src/filters.py:42 | windows of a byte image hold bytes only |
| Utils.ConvolveUnitKernel | src/utils.py:111-120 | a kernel with a single 1 at (a0, b0) reads padded[i+a0][j+b0] |
| Utils.ConvolveIdentity | src/utils.py:111-120 | the kernel that is 1 at the centre reproduces the input exactly, border pixels included |
| Utils.ConvolveConstant | src/utils.py:113-120 | on a constant image V every output pixel is V·Σkernel |
| Utils.WindowSumBounds | src/utils.py:119-120 | with non-negative weights, a window sum lies between lo·Σkernel and hi·Σkernel when the window's values lie in [lo, hi] |
| Utils.ConvolveInterior | src/utils.py:113-119 | at interior pixels the window reads only original pixels img[i-pad+a][j-pad+b] |
| Sorting.Sort | src/filters.py:43 | the sort `np.median` relies on gives a sorted permutation of the window |
| Sorting.SeqMin | src/filters.py:43 | the window minimum is one of its values and at most each of them |
| Sorting.SeqMax | src/filters.py:43 | the window maximum is one of its values and at least each of them |
| Sorting.CountIfPermutation | src/filters.py:43 | counting values with a property does not depend on their order |
| Sorting.SortedMiddleIsMedian | src/filters.py:43 | in an odd-sized window, at most half the values lie below and at most half lie above the middle of the sorted window |
| Filters.OnesKernelSum | src/filters.py:10 | the all-ones size×size kernel sums to size² |
| Filters.BoxFilter | src/filters.py:9-12 | the box filter keeps the input's shape and its output lies in [0, 255] |
| Filters.BoxFilterIsWindowMean | src/filters.py:9-12 | at every pixel of a byte image, the box filter is floor(window sum / size²), with no saturation needed |
| Filters.BoxFilterConstant | src/filters.py:9-12 | a constant image V comes back as the same constant image V |
| Filters.Median | src/filters.py:43 | `np.median` stored into an integer array: the middle of the sorted window; for an odd count it is one of the window's values |
| Filters.Middle | src/filters.py:43 | the middle of a sorted window is its middle element for an odd count, else the mean of the two middle values truncated toward zero |
| Filters.MedianInRange | src/filters.py:43 | the median of a window lies between its minimum and maximum |
| Filters.MedianRank | src/filters.py:43 | for an odd count, at most half the window is below the median and at most half is above it |
| Filters.MedianFilter | src/filters.py:34-45 | the nested loops fill a fresh H×W array with the median of each size×size reflect-padded window |
| Filters.MedianWithinWindow | src/filters.py:34-45 | each output pixel lies between the minimum and maximum of its window, and a byte image gives bytes |
| Filters.MedianFilterSizeOne | src/filters.py:35-43 | with size 1 the median filter is the identity |
| Filters.LaplacianFilter | src/filters.py:48-53 | the Laplacian has the input's H×W shape, with the given kernel or else the default one |
| Filters.LaplacianKernelSumsToZero | config.py:26-28 | the default 4-neighbour Laplacian is square and its weights sum to 0 |
| Filters.LaplacianOfConstant | src/filters.py:48-53 | with the default kernel, or any zero-sum kernel, a constant image has zero Laplacian everywhere |
| Filters.SharpenWithLaplacian | src/filters.py:56-59 | sharpening keeps the shape and is always within [0, 255] |
| Filters.SharpenConstant | src/filters.py:56-59 | sharpening leaves a constant byte image unchanged, for every gain c |
| Filters.SobelKernelsSumToZero | config.py:30-36 | both Sobel kernels are square and sum to 0 |
| Filters.SobelGradientSquared | src/filters.py:62-67 | gx²+gy² keeps the shape and is non-negative |
| Filters.SobelOfConstant | src/filters.py:62-67 | gx²+gy² is zero on a constant image |
| Filters.UnsharpMasking | src/filters.py:70-78 | blurred, mask and result all have the input's shape, and the result lies in [0, 255] |
| Filters.UnsharpConstant | src/filters.py:70-78 | on a constant byte image the mask is zero and the result equals the input |
| Filters.HighBoostFilter | src/filters.py:81-84 | the high-boost output keeps the shape and lies in [0, 255] |
| Filters.HighBoostIsUnsharp | src/filters.py:81-84 | high boost with A = 2 equals unsharp masking with k = 1 |
| Histogram.Bins | src/histogram.py:8 | `np.histogram(bins=256, range=[0, 256])` yields exactly 256 bins |
| Histogram.BinsCount | src/histogram.py:8 | bin v holds the number of occurrences of v, and the closed last bin [255, 256] also holds the occurrences of 256 |
| Histogram.HistogramCounts | src/histogram.py:7-8 | on 8-bit values bin v holds exactly the number of occurrences of v |
| Histogram.HistogramTotal | src/histogram.py:8 | for byte values the bins sum to the number of values |
| Histogram.CalculateHistogram | src/histogram.py:7-9 | `calculate_histogram` returns 256 counts |
| Histogram.CalculateHistogramCounts | src/histogram.py:7-9 | count[v] is the number of pixels equal to v, and the counts sum to H·W |
| Histogram.Cumsum | src/histogram.py:15 | the running sum has one entry per bin |
| Histogram.CumsumIsPrefixSum | src/histogram.py:15 | cdf[k] = Σ_{t<=k} hist[t] |
| Histogram.CumsumStep | src/histogram.py:15 | cdf[k] = cdf[k-1] + hist[k] |
| Histogram.CumsumMonotone | src/histogram.py:15 | the cdf is non-decreasing |
| Histogram.CumsumBounded | src/histogram.py:15-16 | every cdf entry is at most the last one, which is the histogram total |
| Histogram.CdfCountsAtMost | src/histogram.py:13-15 | cdf[v] of a byte sequence is the number of values <= v |
| Histogram.EqualizedLevel | src/histogram.py:16-18 | with a positive total the level is the floor of the real cdf[v] / cdf[255] · 255, the truncation `astype(np.uint8)` performs |
| Histogram.EqualizedLevelIsByte | src/histogram.py:16-18 | every equalised level lies in [0, 255] |
| Histogram.EqualizedLevelMonotone | src/histogram.py:16-18 | equalised levels are monotone in the intensity |
| Histogram.HistogramEqualization | src/histogram.py:12-20 | the triple returned is (image, hist, cdf) with hist the 256-bin histogram, cdf its running sum and the image a same-shape byte image |
| Histogram.EqualizedPixel | src/histogram.py:13-18 | cdf[255] = H·W, and each pixel becomes floor(255·#{pixels <= v} / (H·W)) (truncation, not rounding) |
| Histogram.EqualizedMaximum | src/histogram.py:16-18 | the largest intensity present maps to 255 |
| Histogram.EqualizedConstant | src/histogram.py:16-18 | a constant image becomes all 255 |
| Histogram.LocalHistogramEqualization | src/histogram.py:23-44 | the nested loops fill a fresh H×W array with, at (i, j), the centre value remapped through its window's own cdf |
| Histogram.LocalEqualizedFormula | src/histogram.py:29-42 | out[i][j] = floor(255·#{window values <= img[i][j]} / ws²), the count is at least 1 (the window holds its centre) and at most ws², and the value is a byte |
| Histogram.LocalEqualizedEmptyWindow | src/histogram.py:36-42 | window size 0 gives a zero-total cdf that is not normalised, so the result is 0 |
| Histogram.ArgMin | src/histogram.py:58 | `np.argmin` gives an in-range index of a minimum, and every earlier distance is strictly larger (first occurrence) |
| Histogram.MatchLevel | src/histogram.py:55-58 | the table entry, stored in uint8, is below 256 |
| Histogram.ScaledDistance | src/histogram.py:50-57 | the cross-multiplied distance is the normalised distance |target_cdf[t] - src_cdf[v]| scaled by both totals |
| Histogram.CompareDistances | src/histogram.py:57-58 | integer and real distances order any two candidates alike, strictly and non-strictly |
| Histogram.MatchIsRealArgMin | src/histogram.py:47-58 | mapping[v] is the smallest index t that minimises the real distance |target_cdf[t] - src_cdf[v]| |
| Histogram.HistogramMatching | src/histogram.py:47-61 | the loop fills the 256-entry table, and the result has the image's shape with each pixel replaced by its table entry |
| Adaptive.TileStart | src/histogram.py:68-77 | tile t starts at t · (extent // grid), and every tile has room for a full tile_h rows (tile_w columns) before the edge |
| Adaptive.TileEnd | src/histogram.py:75-78 | each tile ends inside the axis, no earlier than it starts; every tile but the last ends where the next begins, and the last one ends at the edge |
| Adaptive.TileBounds | src/histogram.py:68-78 | each tile range [start, end) is ordered and lies inside the axis |
| Adaptive.TilePartition | src/histogram.py:68-80 | a position lies in tile t exactly when TileOf gives t: the tiles, the last one reaching the edge, cover every pixel exactly once |
| Adaptive.TileHoldsPixel | src/histogram.py:73-82 | the slice `img[y_start:y_end, x_start:x_end]` of the one tile that holds (y, x) contains that pixel at its offset from the tile corner, so the histogram that remaps a pixel counts it |
| Adaptive.SubGridBytes | src/histogram.py:80 | a slice of a byte image is a byte image |
| Adaptive.ClipThreshold | src/histogram.py:84 | the integer threshold is the floor of clip_limit · hist.mean() |
| Adaptive.ThresholdExact | src/histogram.py:84-87 | an integer count exceeds clip_limit·mean exactly when it exceeds the floor of that threshold |
| Adaptive.ClipHistogram | src/histogram.py:85-89 | the clip loop caps every bin above the threshold and returns the total it removed |
| Adaptive.ClippedBinsBounded | src/histogram.py:86-89 | after clipping every bin is at most the threshold and at most its old count, and bins at or under the threshold are untouched |
| Adaptive.ClipConserves | src/histogram.py:86-89 | the clipped bins plus the excess give back the original total |
| Adaptive.Redistributed | src/histogram.py:91-92 | the clipped bins each receive the bonus excess // 256: no bin ends above threshold + bonus, and the 256 bins total the original count less the dropped remainder excess % 256 |
| Adaptive.NoClipUnchanged | src/histogram.py:86-92 | when no bin exceeds the threshold there is no excess and the histogram is unchanged |
| Adaptive.TileLut | src/histogram.py:94-99 | the tile table maps through the normalised cdf: every entry is a byte, the table is monotone, and a tile whose histogram total is 0 is copied through unchanged |
| Adaptive.WriteTile | src/histogram.py:101 | the slice assignment writes table entries inside the tile's block and nothing else |
| Adaptive.AdaptiveHistogramEqualization | src/histogram.py:64-103 | tile by tile, the result is H×W and each pixel is remapped through the table of the one tile that holds it |
| Adaptive.AdaptiveIsByte | src/histogram.py:94-101 | every adaptive output pixel is a byte |
| Adaptive.SmallTileCopied | src/histogram.py:84-99 | a tile of under 256 pixels whose threshold floors to 0 loses all its counts, gets no bonus back and is copied through |
| Adaptive.ClipStepAsWritten | src/histogram.py:84-92 | the clip step with numpy's types: it raises once some bin exceeds the float threshold, and otherwise leaves the histogram as it was |
| Adaptive.ConstantTileFailsAsWritten | src/histogram.py:84-92 | any constant tile with clip_limit < 256 makes the written clip step fail |
| Adaptive.FlatTileFailsAsWritten | src/histogram.py:64-92 | a concrete 2×2 zero tile with the default clip_limit 2.0 makes the written clip step fail |
| Adaptive.AsWrittenAgrees | src/histogram.py:84-92 | wherever the written clip step succeeds, the integer model returns the same histogram |
| Transformations.ImageNegative | src/transformations.py:7-9 | the negative keeps the shape and lies in [0, 255], pixel by pixel through the per-pixel negative |
| Transformations.NegativeOfByte | src/transformations.py:7-9 | each 8-bit pixel x becomes 255 - x, with no clipping needed |
| Transformations.NegativeInvolution | src/transformations.py:7-9 | negative(negative(I)) = I for 8-bit images |
| Transformations.NegativeReversesOrder | src/transformations.py:8-9 | x <= y implies neg(x) >= neg(y), strictly for distinct bytes |
| Transformations.Bit | src/transformations.py:31 | `(x >> k) & 1` is 0 or 1, and it is 1 exactly when x mod 2^(k+1) >= 2^k |
| Transformations.BitPlane | src/transformations.py:31 | each plane has the image's shape |
| Transformations.BitPlaneSlicing | src/transformations.py:28-33 | exactly 8 planes are returned, plane k being bit k (k = 0..7, least significant first) |
| Transformations.ModSplit | src/transformations.py:31 | x mod 2^(k+1) = (x mod 2^k) + bit_k(x)·2^k |
| Transformations.BitPlanePixel | src/transformations.py:31 | every plane value is 0 or 255, and it is 255 exactly when bit k is set (x mod 2^(k+1) >= 2^k) |
| Transformations.BitSumIsResidue | src/transformations.py:31 | the low n bits weighted by powers of two give x mod 2^n |
| Transformations.PlanesReconstruct | src/transformations.py:29-33 | the eight planes rebuild every byte: Σ_k (plane_k[p]/255)·2^k = p |

## Left out

- Image loading and saving, figure display, `normalize_for_display` and the task runner `main.py` are left out. They are file I/O, plotting and orchestration.
- `gaussian_kernel` and `gaussian_filter` are left out. They are built on `exp`.
- `gamma_correction`, `log_transformation` and `contrast_stretching` are left out. They use floating `power`, `log` and percentiles.
- `mixed_spatial_enhancement` is left out. It uses floating min-max normalisation and gamma.
- Float32 rounding is not modelled; every sum is exact. For example, float32 sums of 1/9 weights can truncate a flat V to V - 1, and the model does not show this.
- Filters.SobelGradientSquared: models gx²+gy² and not its square root, which is irrational.
- Filters.UnsharpMasking: the gain k is an integer, so the default source gain 1.0 is covered and the non-integer gains are not.
- Filters.HighBoostFilter: the amplification A is an integer, so the default source value 1.5 is not covered.
- Filters.SharpenWithLaplacian: the gain c is an integer.
- Utils.Reflect: an overhang wider than n - 1 is modelled as the periodic mirror. The model does not show that this matches numpy's repeated reflection.
- Utils.Reflect: on an axis of length 1, the only sample is repeated.
- Utils.ApplyConvolution: requires a non-empty rectangular image and a square kernel. Odd kernel sides are not required; an even side uses the same size//2 padding as the source.
- Filters.BoxFilter: requires size >= 1. With size 0, the source builds an empty kernel and returns an all-zero image; this is not modelled.
- Filters.MedianFilter: requires size >= 1. For an even window size, the median is the mean of the two middle values truncated toward zero. That is what storing `np.median` into an integer result gives.
- Histogram.HistogramEqualization: images are byte images. On an empty image the source divides 0 by 0; the model leaves the cdf unnormalised instead.
- Histogram.HistogramMatching: the target histogram is a non-empty sequence of natural counts. When either total is zero, numpy's normalised distances are all NaN and argmin gives 0; the model's distances are all 0, which also gives 0.
- Adaptive.AdaptiveHistogramEqualization: requires clip_limit >= 0 and grid sizes >= 1, because the source divides by the grid size. It clips at the integer floor of clip_limit·mean, the evident intent; the source as written cannot run when any bin is clipped (see Findings).
- `clip_val` and `excess` as floats: the model does not carry a fractional clip level or a fractional excess.

## Findings

| source | as written | input that shows it | evidently intended | confidence | as-written member | corrected member |
|---|---|---|---|---|---|---|
| src/histogram.py:84-92 | `clip_val = clip_limit * hist.mean()` is a float. Once any bin exceeds it, `excess` and `bonus = excess // 256` become floats, and the in-place `hist += bonus` on the int64 histogram raises numpy's same-kind casting error. | any constant tile with clip_limit < 256, e.g. a 2×2 all-zero tile with the default clip_limit 2.0 (bin 0 holds 4 > 2.0·4/256) | clip at an integer threshold, add the integer bonus excess // 256 to every bin, and drop the remainder | not executed | Adaptive.ClipStepAsWritten, Adaptive.FlatTileFailsAsWritten | Adaptive.ClipHistogram, Adaptive.Redistributed |
