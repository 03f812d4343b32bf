/** Shared representation of single-channel images and the small numeric
    helpers every component uses. */
module Images {

  /** A row-major grid of pixel values, the model of a 2-D numpy array. */
  type Grid = seq<seq<int>>

  function Height(g: Grid): nat
  {
    |g|
  }

  function Width(g: Grid): nat
  {
    if |g| == 0 then 0 else |g[0]|
  }

  /** Every row has the same length. */
  predicate IsRect(g: Grid)
  {
    forall i :: 0 <= i < |g| ==> |g[i]| == Width(g)
  }

  /** A rectangular grid with at least one pixel. */
  predicate IsImage(g: Grid)
  {
    IsRect(g) && Height(g) >= 1 && Width(g) >= 1
  }

  predicate IsByte(x: int)
  {
    0 <= x <= 255
  }

  /** A rectangular grid of 8-bit intensities (a uint8 array). */
  predicate IsByteImage(g: Grid)
  {
    IsRect(g) && forall i, j :: 0 <= i < |g| && 0 <= j < |g[i]| ==> IsByte(g[i][j])
  }

  predicate IsConstant(g: Grid, v: int)
  {
    forall i, j :: 0 <= i < |g| && 0 <= j < |g[i]| ==> g[i][j] == v
  }

  predicate SameShape(a: Grid, b: Grid)
  {
    |a| == |b| && forall i :: 0 <= i < |a| ==> |a[i]| == |b[i]|
  }

  predicate AllBytes(s: seq<int>)
  {
    forall k :: 0 <= k < |s| ==> IsByte(s[k])
  }

  /** `np.clip(x, 0, 255).astype(np.uint8)` on an exact value: the result is
      a byte, equal to x when x already is one and saturated otherwise. */
  function Clamp(x: int): (r: int)
    ensures IsByte(r)
    ensures IsByte(x) ==> r == x
    ensures x < 0 ==> r == 0
    ensures x > 255 ==> r == 255
  {
    if x < 0 then 0 else if x > 255 then 255 else x
  }

  /** `np.clip(g, 0, 255).astype(np.uint8)` over a whole grid. */
  function ClampImage(g: Grid): (r: Grid)
    requires IsRect(g)
    ensures SameShape(r, g) && IsByteImage(r)
    ensures forall i, j :: 0 <= i < |g| && 0 <= j < |g[i]| && IsByte(g[i][j]) ==> r[i][j] == g[i][j]
    ensures forall i, j :: 0 <= i < |g| && 0 <= j < |g[i]| && g[i][j] < 0 ==> r[i][j] == 0
    ensures forall i, j :: 0 <= i < |g| && 0 <= j < |g[i]| && g[i][j] > 255 ==> r[i][j] == 255
  {
    seq(|g|, i requires 0 <= i < |g| => seq(|g[i]|, j requires 0 <= j < |g[i]| => Clamp(g[i][j])))
  }

  /** The sum of a three-element row. */
  lemma SumOfThree(a: int, b: int, c: int)
    ensures Sum([a, b, c]) == a + b + c
  {
    assert [a][..0] == [];
    assert Sum([a]) == a;
    assert [a, b][..1] == [a];
    assert Sum([a, b]) == a + b;
    assert [a, b, c][..2] == [a, b];
  }

  function Abs(x: int): nat
  {
    if x < 0 then -x else x
  }

  // ----- integer arithmetic helpers -----

  lemma MulBounds(x: int, w: int, lo: int, hi: int)
    requires lo <= x <= hi && w >= 0
    ensures lo * w <= x * w <= hi * w
  {
  }

  lemma SquarePositive(n: nat)
    requires n >= 1
    ensures n * n >= 1
  {
    MulBounds(n, n, 1, n);
  }

  lemma DivBounds(s: int, n: int, hi: int)
    requires n > 0 && 0 <= s <= hi * n
    ensures 0 <= s / n <= hi
  {
  }

  lemma DivCancel(v: int, n: int)
    requires n > 0
    ensures (v * n) / n == v
  {
    var q, r := (v * n) / n, (v * n) % n;
    assert v * n == n * q + r && 0 <= r < n;
    assert n * (v - q) == r;
    if v - q >= 1 {
      MulBounds(v - q, n, 1, v - q);
    } else if v - q <= -1 {
      MulBounds(v - q, n, v - q, -1);
    }
  }

  /** Integer division by a positive number is the floor of the exact
      quotient. */
  lemma DivIsFloor(x: int, n: int)
    requires n > 0
    ensures (x / n) as real <= x as real / n as real < (x / n) as real + 1.0
  {
    var q, r := x / n, x % n;
    assert x == n * q + r && 0 <= r < n;
    assert x as real == n as real * q as real + r as real;
    assert x as real / n as real == q as real + r as real / n as real;
  }

  /** Truncating division by a positive number is monotone. */
  lemma DivMonotone(x: int, y: int, n: int)
    requires n > 0 && x <= y
    ensures x / n <= y / n
  {
    var qx, qy := x / n, y / n;
    assert n * qx + x % n == x && n * qy + y % n == y;
    if qx > qy {
      MulBounds(qy + 1, n, qy + 1, qx);
    }
  }

  /** Sum of a sequence (`np.sum`). */
  function Sum(s: seq<int>): int
  {
    if |s| == 0 then 0 else Sum(s[..|s| - 1]) + s[|s| - 1]
  }

  /** Row-major concatenation of the rows (`img.flatten()`). */
  function Flatten(g: Grid): seq<int>
  {
    if |g| == 0 then [] else Flatten(g[..|g| - 1]) + g[|g| - 1]
  }

  /** A rectangular grid flattens to one value per pixel: |Flatten(g)| = H * W. */
  lemma {:induction false} FlattenLength(g: Grid)
    requires IsRect(g)
    ensures |Flatten(g)| == Height(g) * Width(g)
  {
    if |g| > 0 {
      var init := g[..|g| - 1];
      assert IsRect(init) && Width(init) == (if |init| == 0 then 0 else Width(g));
      FlattenLength(init);
      assert |Flatten(g)| == |init| * Width(g) + Width(g);
      assert Height(g) * Width(g) == |init| * Width(g) + Width(g);
    }
  }

  /** Flattening a byte image yields only bytes. */
  lemma {:induction false} FlattenBytes(g: Grid)
    requires IsByteImage(g)
    ensures AllBytes(Flatten(g))
  {
    if |g| > 0 {
      var init := g[..|g| - 1];
      assert IsByteImage(init) by {
        assert IsRect(init) && (|init| > 0 ==> Width(init) == Width(g));
      }
      FlattenBytes(init);
      var last := g[|g| - 1];
      forall k | 0 <= k < |Flatten(g)|
        ensures IsByte(Flatten(g)[k])
      {
        if k >= |Flatten(init)| {
          assert Flatten(g)[k] == last[k - |Flatten(init)|];
        }
      }
    }
  }
}
