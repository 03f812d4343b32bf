/** The integer point maps of src/transformations.py: the image negative and
    bit-plane slicing. */
module Transformations {
  import opened Images

  // ----- image_negative (src/transformations.py:7-9) -----

  /** `np.clip(255 - x, 0, 255).astype(np.uint8)` on one pixel. */
  function NegativeLevel(x: int): int
  {
    Clamp(255 - x)
  }

  /** `image_negative`: the negative of every pixel. */
  function ImageNegative(img: Grid): (r: Grid)
    requires IsRect(img)
    ensures SameShape(r, img) && IsByteImage(r)
  {
    seq(|img|, i requires 0 <= i < |img| =>
      seq(|img[i]|, j requires 0 <= j < |img[i]| => NegativeLevel(img[i][j])))
  }

  /** On 8-bit input the clip never bites: each pixel x becomes 255 - x. */
  lemma NegativeOfByte(img: Grid, i: nat, j: nat)
    requires IsByteImage(img) && i < |img| && j < |img[i]|
    ensures ImageNegative(img)[i][j] == 255 - img[i][j] == NegativeLevel(img[i][j])
  {
  }

  /** The negative of the negative of an 8-bit image is the image. */
  lemma NegativeInvolution(img: Grid)
    requires IsByteImage(img)
    ensures ImageNegative(ImageNegative(img)) == img
  {
    var n := ImageNegative(img);
    var nn := ImageNegative(n);
    forall i | 0 <= i < |img|
      ensures nn[i] == img[i]
    {
      forall j | 0 <= j < |img[i]|
        ensures nn[i][j] == img[i][j]
      {
        NegativeOfByte(img, i, j);
        NegativeOfByte(n, i, j);
      }
    }
  }

  /** The negative reverses the order of intensities (for every input,
      strictly for distinct bytes). */
  lemma NegativeReversesOrder(x: int, y: int)
    requires x <= y
    ensures NegativeLevel(x) >= NegativeLevel(y)
    ensures IsByte(x) && IsByte(y) && x < y ==> NegativeLevel(x) > NegativeLevel(y)
  {
  }

  // ----- bit_plane_slicing (src/transformations.py:29-33) -----

  function Pow2(k: nat): (p: nat)
    ensures p >= 1
  {
    if k == 0 then 1 else 2 * Pow2(k - 1)
  }

  /** `(x >> k) & 1`. Euclidean division by a positive power of two is the
      arithmetic shift and Euclidean `% 2` is `& 1`, for every integer. */
  function Bit(x: int, k: nat): (b: int)
    ensures b == 0 || b == 1
    ensures b == 1 <==> x % Pow2(k + 1) >= Pow2(k)
  {
    ModSplit(x, k);
    assert 0 <= x % Pow2(k) < Pow2(k);
    (x / Pow2(k)) % 2
  }

  /** Plane k of the image: `((img >> k) & 1) * 255`. */
  function BitPlane(img: Grid, k: nat): (plane: Grid)
    ensures |plane| == |img| && forall i :: 0 <= i < |img| ==> |plane[i]| == |img[i]|
  {
    seq(|img|, i requires 0 <= i < |img| =>
      seq(|img[i]|, j requires 0 <= j < |img[i]| => Bit(img[i][j], k) * 255))
  }

  /** `bit_plane_slicing`: appends the eight planes, least significant first. */
  method BitPlaneSlicing(img: Grid) returns (planes: seq<Grid>)
    ensures |planes| == 8
    ensures forall k :: 0 <= k < 8 ==> planes[k] == BitPlane(img, k)
  {
    planes := [];
    for k := 0 to 8
      invariant |planes| == k
      invariant forall q :: 0 <= q < k ==> planes[q] == BitPlane(img, q)
    {
      planes := planes + [BitPlane(img, k)];
    }
  }

  lemma DivModUnique(x: int, d: int, a: int, b: int)
    requires d > 0 && 0 <= b < d && x == d * a + b
    ensures x / d == a && x % d == b
  {
    var q, r := x / d, x % d;
    assert d * (q - a) == b - r;
    if q - a >= 1 {
      MulBounds(q - a, d, 1, q - a);
    } else if q - a <= -1 {
      MulBounds(q - a, d, q - a, -1);
    }
  }

  /** Residues modulo 2^(k+1) split into the residue modulo 2^k and bit k,
      `(x >> k) & 1`. */
  lemma ModSplit(x: int, k: nat)
    ensures x % Pow2(k + 1) == x % Pow2(k) + ((x / Pow2(k)) % 2) * Pow2(k)
  {
    var p := Pow2(k);
    var q, r := x / p, x % p;
    var half, b := q / 2, q % 2;
    assert x == p * q + r;
    assert q == 2 * half + b;
    assert x == (2 * p) * half + (b * p + r);
    MulBounds(b, p, 0, 1);
    DivModUnique(x, 2 * p, half, b * p + r);
  }

  /** Bit k is set exactly when the residue modulo 2^(k+1) reaches 2^k, and
      a plane pixel is 255 exactly then and 0 otherwise. */
  lemma BitPlanePixel(img: Grid, k: nat, i: nat, j: nat)
    requires i < |img| && j < |img[i]|
    ensures BitPlane(img, k)[i][j] == 0 || BitPlane(img, k)[i][j] == 255
    ensures BitPlane(img, k)[i][j] == 255 <==> img[i][j] % Pow2(k + 1) >= Pow2(k)
  {
    var x := img[i][j];
    ModSplit(x, k);
    assert 0 <= x % Pow2(k) < Pow2(k);
  }

  /** Σ_{k < n} bit_k(x) * 2^k. */
  function BitSum(x: int, n: nat): int
  {
    if n == 0 then 0 else BitSum(x, n - 1) + Bit(x, n - 1) * Pow2(n - 1)
  }

  /** The low n bits rebuild x modulo 2^n. */
  lemma {:induction false} BitSumIsResidue(x: int, n: nat)
    ensures BitSum(x, n) == x % Pow2(n)
  {
    if n > 0 {
      BitSumIsResidue(x, n - 1);
      ModSplit(x, n - 1);
    }
  }

  /** The pixel at (i, j), or 0 outside the grid. */
  function PixelOr0(g: Grid, i: nat, j: nat): int
  {
    if i < |g| && j < |g[i]| then g[i][j] else 0
  }

  /** Σ_{k < n} (plane_k[i][j] / 255) * 2^k over the given planes. */
  function PlaneSum(planes: seq<Grid>, n: nat, i: nat, j: nat): int
    requires n <= |planes|
  {
    if n == 0 then 0 else PlaneSum(planes, n - 1, i, j) + PixelOr0(planes[n - 1], i, j) / 255 * Pow2(n - 1)
  }

  lemma {:induction false} PlaneSumIsBitSum(img: Grid, planes: seq<Grid>, n: nat, i: nat, j: nat)
    requires n <= |planes| && i < |img| && j < |img[i]|
    requires forall k :: 0 <= k < |planes| ==> planes[k] == BitPlane(img, k)
    ensures PlaneSum(planes, n, i, j) == BitSum(img[i][j], n)
  {
    if n > 0 {
      PlaneSumIsBitSum(img, planes, n - 1, i, j);
      BitPlanePixel(img, n - 1, i, j);
    }
  }

  /** The eight planes of an 8-bit image rebuild every pixel:
      Σ_k (plane_k[i][j] / 255) * 2^k == img[i][j]. */
  lemma PlanesReconstruct(img: Grid, planes: seq<Grid>, i: nat, j: nat)
    requires IsByteImage(img) && i < |img| && j < |img[i]|
    requires |planes| == 8 && forall k :: 0 <= k < 8 ==> planes[k] == BitPlane(img, k)
    ensures PlaneSum(planes, 8, i, j) == img[i][j]
  {
    PlaneSumIsBitSum(img, planes, 8, i, j);
    BitSumIsResidue(img[i][j], 8);
    assert Pow2(8) == 256;
  }
}
