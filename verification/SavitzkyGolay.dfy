/** The Savitzky-Golay pre-smoothing of `path.py`, one coordinate at a time, with
    the quadratic order it is always called with.  The pseudo-inverse comes from
    the linear-algebra library; what is used of it is that it is a left inverse of
    the basis of powers, and for least squares that its product with the basis in
    the other order is symmetric. */
module SavitzkyGolay {

  type Vec = seq<real>

  function Dot(w: Vec, x: Vec): real
    requires |w| == |x|
  {
    if w == [] then 0.0 else w[0] * x[0] + Dot(w[1..], x[1..])
  }

  /** The window offsets raised to the power 0, 1 or 2: a column of the basis. */
  function Power(window: nat, m: nat): Vec {
    seq(window, j requires 0 <= j < window => PowerAt((j - window / 2) as real, m))
  }

  function PowerAt(t: real, m: nat): real {
    if m == 0 then 1.0 else if m == 1 then t else t * t
  }

  /** Three rows, and their products with the basis columns are the unit matrix. */
  ghost predicate IsLeftInverse(pinv: seq<Vec>, window: nat) {
    && |pinv| == 3 && (forall k :: 0 <= k < 3 ==> |pinv[k]| == window)
    && forall k: nat, m: nat :: k < 3 && m < 3 ==> Dot(pinv[k], Power(window, m)) == if k == m then 1.0 else 0.0
  }

  /** The source smooths only with an odd window of at least five stations that
      the path can fill. */
  predicate Applies(points: Vec, window: int) {
    window >= 5 && window % 2 == 1 && |points| >= window
  }

  // ----- the closed loop -----

  /** The window around station `i`, wrapping around. */
  function LoopWindow(points: Vec, window: nat, i: int): Vec
    requires |points| > 0
  {
    seq(window, j requires 0 <= j < window => points[(i + j - window / 2) % |points|])
  }

  function LoopSmoothed(points: Vec, window: nat, row: Vec): Vec
    requires |points| > 0 && |row| == window
  {
    seq(|points|, i requires 0 <= i < |points| => Dot(row, LoopWindow(points, window, i)))
  }

  // ----- the open path -----

  function Quadratic(a: real, b: real, c: real, t: real): real {
    a + b * t + c * (t * t)
  }

  /** The quadratic fitted to a block, evaluated `t` stations from its centre. */
  function FittedAt(pinv: seq<Vec>, block: Vec, t: int): real
    requires |pinv| == 3 && forall k :: 0 <= k < 3 ==> |pinv[k]| == |block|
  {
    Quadratic(Dot(pinv[0], block), Dot(pinv[1], block), Dot(pinv[2], block), t as real)
  }

  /** What an open path keeps at station `i`: the fit's centre value in the middle,
      and the first or last full window's fit at the edges. */
  function OpenAt(points: Vec, window: nat, pinv: seq<Vec>, i: int): real
    requires Applies(points, window) && |pinv| == 3 && forall k :: 0 <= k < 3 ==> |pinv[k]| == window
    requires 0 <= i < |points|
  {
    var half, n := window / 2, |points|;
    if i < half then FittedAt(pinv, points[..window], i - half)
    else if i >= n - half then FittedAt(pinv, points[n - window..], i - (n - 1 - half))
    else Dot(pinv[0], points[i - half..i - half + window])
  }

  /** The filter, filling its output in place on an open path. */
  method Smooth(points: Vec, window: int, pinv: seq<Vec>, loop: bool) returns (smoothed: Vec)
    requires Applies(points, window) ==> |pinv| == 3 && forall k :: 0 <= k < 3 ==> |pinv[k]| == window
    ensures
      if window < 5 || window % 2 == 0 || |points| < window then smoothed == points
      else if loop then smoothed == LoopSmoothed(points, window, pinv[0])
      else |smoothed| == |points| && forall i :: 0 <= i < |points| ==> smoothed[i] == OpenAt(points, window, pinv, i)
  {
    hide Dot;
    if window < 5 || window % 2 == 0 || |points| < window {
      return points;
    }
    var half, n := window / 2, |points|;
    if loop {
      return LoopSmoothed(points, window, pinv[0]);
    }
    var out := new real[n];
    for i := half to n - half
      invariant forall j :: half <= j < i ==> out[j] == OpenAt(points, window, pinv, j)
    {
      out[i] := Dot(pinv[0], points[i - half..i - half + window]);
    }
    for i := 0 to half
      invariant forall j :: 0 <= j < i || half <= j < n - half ==> out[j] == OpenAt(points, window, pinv, j)
    {
      out[i] := FittedAt(pinv, points[..window], i - half);
    }
    for i := n - half to n
      invariant forall j :: 0 <= j < i ==> out[j] == OpenAt(points, window, pinv, j)
    {
      out[i] := FittedAt(pinv, points[n - window..], i - (n - 1 - half));
    }
    smoothed := out[..];
  }

  // ----- sums -----

  function Sum(x: Vec): real {
    if x == [] then 0.0 else Sum(x[..|x| - 1]) + x[|x| - 1]
  }

  lemma {:induction false} SumConcat(x: Vec, y: Vec)
    ensures Sum(x + y) == Sum(x) + Sum(y)
    decreases |y|
  {
    if y == [] {
      assert x + y == x;
    } else {
      assert (x + y)[..|x + y| - 1] == x + y[..|y| - 1];
      SumConcat(x, y[..|y| - 1]);
    }
  }

  /** If every entry of `z` is that of `x` plus `k` times that of `y`, so is the sum. */
  lemma {:induction false} SumCombines(z: Vec, x: Vec, y: Vec, k: real)
    requires |x| == |y| == |z| && forall i :: 0 <= i < |z| ==> z[i] == x[i] + k * y[i]
    ensures Sum(z) == Sum(x) + k * Sum(y)
    decreases |z|
  {
    if z != [] {
      var n := |z| - 1;
      SumCombines(z[..n], x[..n], y[..n], k);
      Distribute(k, Sum(y[..n]), y[n]);
    }
  }

  lemma {:induction false} SumOfZeros(x: Vec)
    requires forall i :: 0 <= i < |x| ==> x[i] == 0.0
    ensures Sum(x) == 0.0
    decreases |x|
  {
    if x != [] {
      SumOfZeros(x[..|x| - 1]);
    }
  }

  /** The path seen from `o` stations further on. */
  function Rotated(points: Vec, o: int): Vec
    requires |points| > 0
  {
    seq(|points|, i requires 0 <= i < |points| => points[(i + o) % |points|])
  }

  lemma Remainders(i: int, o: int, n: int)
    requires n > 0 && 0 <= i < n
    ensures var k := o % n;
      0 <= k < n && (i + o) % n == if i + k < n then i + k else i + k - n
  {
    var k, q := o % n, o / n;
    assert o == q * n + k;
    if i + k < n {
      ModOf(i + o, n, q, i + k);
    } else {
      assert (q + 1) * n == q * n + n;
      ModOf(i + o, n, q + 1, i + k - n);
    }
  }

  lemma ModOf(a: int, n: int, q: int, r: int)
    requires n > 0 && 0 <= r < n && a == q * n + r
    ensures a % n == r
  {
    var d := q - a / n;
    assert d * n == a % n - r;
    if d > 0 {
      AtLeastOne(d, n);
    } else if d < 0 {
      AtLeastOne(-d, n);
    }
  }

  lemma AtLeastOne(d: int, n: int)
    requires d >= 1 && n > 0
    ensures d * n >= n
  {
  }

  lemma RotatedAt(points: Vec, o: int, i: int)
    requires |points| > 0 && 0 <= i < |points|
    ensures 0 <= o % |points| < |points|
    ensures Rotated(points, o)[i] == (points[o % |points|..] + points[..o % |points|])[i]
  {
    Remainders(i, o, |points|);
  }

  lemma {:induction false} RotationKeepsSum(points: Vec, o: int)
    requires |points| > 0
    ensures Sum(Rotated(points, o)) == Sum(points)
  {
    hide Sum, Rotated;
    RotatedAt(points, o, 0);
    var k := o % |points|;
    RotationIsSwap(points, o, k);
    SumConcat(points[k..], points[..k]);
    SumConcat(points[..k], points[k..]);
    assert points == points[..k] + points[k..];
  }

  lemma RotationIsSwap(points: Vec, o: int, k: int)
    requires |points| > 0 && k == o % |points| && 0 <= k < |points|
    ensures Rotated(points, o) == points[k..] + points[..k]
  {
    forall i | 0 <= i < |points| ensures Rotated(points, o)[i] == (points[k..] + points[..k])[i] {
      RotatedAt(points, o, i);
    }
  }

  // ----- smoothing a loop keeps its sum -----

  lemma {:induction false} DotSnoc(w: Vec, x: Vec)
    requires |w| == |x| > 0
    ensures var n := |w| - 1; Dot(w, x) == Dot(w[..n], x[..n]) + w[n] * x[n]
    decreases |w|
  {
    var n := |w| - 1;
    if n > 0 {
      DotSnoc(w[1..], x[1..]);
      assert w[1..][..n - 1] == w[..n][1..] && x[1..][..n - 1] == x[..n][1..];
    }
  }

  /** The smoothed path if only the first `m` weights counted. */
  ghost function Partial(points: Vec, window: nat, row: Vec, m: nat): Vec
    requires |points| > 0 && |row| == window && m <= window
  {
    seq(|points|, i requires 0 <= i < |points| => Dot(row[..m], LoopWindow(points, window, i)[..m]))
  }

  lemma {:induction false} PartialSum(points: Vec, window: nat, row: Vec, m: nat)
    requires |points| > 0 && |row| == window && m <= window
    ensures Sum(Partial(points, window, row, m)) == Sum(row[..m]) * Sum(points)
    decreases m
  {
    hide Sum;
    var z := Partial(points, window, row, m);
    if m == 0 {
      SumOfZeros(z);
      SumOfZeros(row[..0]);
    } else {
      var x, y := Partial(points, window, row, m - 1), Rotated(points, m - 1 - window / 2);
      forall i | 0 <= i < |z| ensures z[i] == x[i] + row[m - 1] * y[i] {
        PartialAt(points, window, row, m, i);
      }
      SumCombines(z, x, y, row[m - 1]);
      RotationKeepsSum(points, m - 1 - window / 2);
      PartialSum(points, window, row, m - 1);
      SumSnoc(row, m);
      assert (Sum(row[..m - 1]) + row[m - 1]) * Sum(points) ==
          Sum(row[..m - 1]) * Sum(points) + row[m - 1] * Sum(points);
    }
  }

  lemma SumSnoc(x: Vec, m: nat)
    requires 0 < m <= |x|
    ensures Sum(x[..m]) == Sum(x[..m - 1]) + x[m - 1]
  {
    assert x[..m][..m - 1] == x[..m - 1];
  }

  lemma PartialAt(points: Vec, window: nat, row: Vec, m: nat, i: nat)
    requires |points| > 0 && |row| == window && 0 < m <= window && i < |points|
    ensures Partial(points, window, row, m)[i] ==
            Partial(points, window, row, m - 1)[i] + row[m - 1] * Rotated(points, m - 1 - window / 2)[i]
  {
    var w, x := row[..m], LoopWindow(points, window, i)[..m];
    DotSnoc(w, x);
    hide Dot;
    assert w[..m - 1] == row[..m - 1] && x[..m - 1] == LoopWindow(points, window, i)[..m - 1];
  }

  lemma {:induction false} DotOnes(w: Vec, ones: Vec)
    requires |w| == |ones| && forall j :: 0 <= j < |ones| ==> ones[j] == 1.0
    ensures Dot(w, ones) == Sum(w)
    decreases |w|
  {
    if w != [] {
      var n := |w| - 1;
      DotSnoc(w, ones);
      DotOnes(w[..n], ones[..n]);
    }
  }

  lemma ColumnOfOnes(window: nat)
    ensures forall j :: 0 <= j < window ==> Power(window, 0)[j] == 1.0
  {
    forall j | 0 <= j < window ensures Power(window, 0)[j] == 1.0 {
      assert Power(window, 0)[j] == PowerAt((j - window / 2) as real, 0);
    }
  }

  /** Smoothing a closed loop moves neither the sum of its stations nor, with it,
      their centroid. */
  lemma {:induction false} LoopKeepsSum(points: Vec, window: int, pinv: seq<Vec>)
    requires Applies(points, window) && IsLeftInverse(pinv, window)
    ensures Sum(LoopSmoothed(points, window, pinv[0])) == Sum(points)
  {
    hide Sum, Dot;
    var row := pinv[0];
    PartialSum(points, window, row, window);
    assert row[..window] == row;
    var smoothed := LoopSmoothed(points, window, row);
    forall i | 0 <= i < |points| ensures smoothed[i] == Partial(points, window, row, window)[i] {
      assert LoopWindow(points, window, i)[..window] == LoopWindow(points, window, i);
    }
    assert smoothed == Partial(points, window, row, window);
    ColumnOfOnes(window);
    DotOnes(row, Power(window, 0));
    assert Dot(row, Power(window, 0)) == 1.0;
  }

  // ----- smoothing an open path keeps quadratics -----

  /** The stations are a quadratic function of their index. */
  ghost predicate IsQuadratic(points: Vec, a: real, b: real, c: real) {
    forall i :: 0 <= i < |points| ==> points[i] == Quadratic(a, b, c, i as real)
  }

  lemma {:induction false} DotCombines(w: Vec, z: Vec, x0: Vec, x1: Vec, x2: Vec, a: real, b: real, c: real)
    requires |w| == |z| == |x0| == |x1| == |x2|
    requires forall j :: 0 <= j < |z| ==> z[j] == a * x0[j] + b * x1[j] + c * x2[j]
    ensures Dot(w, z) == a * Dot(w, x0) + b * Dot(w, x1) + c * Dot(w, x2)
  {
    assert Combination(z, x0, x1, x2, a, b, c);
    hide Combination, Dot;
    CombinationDots(w, z, x0, x1, x2, a, b, c);
  }

  ghost predicate Combination(z: Vec, x0: Vec, x1: Vec, x2: Vec, a: real, b: real, c: real) {
    && |z| == |x0| == |x1| == |x2|
    && forall j :: 0 <= j < |z| ==> z[j] == Mix(a, b, c, x0[j], x1[j], x2[j])
  }

  ghost function Mix(a: real, b: real, c: real, x0: real, x1: real, x2: real): real {
    a * x0 + b * x1 + c * x2
  }

  lemma CombinationTail(z: Vec, x0: Vec, x1: Vec, x2: Vec, a: real, b: real, c: real)
    requires Combination(z, x0, x1, x2, a, b, c) && z != []
    ensures Combination(z[1..], x0[1..], x1[1..], x2[1..], a, b, c)
    ensures z[0] == Mix(a, b, c, x0[0], x1[0], x2[0])
  {
  }

  lemma {:induction false} CombinationDots(w: Vec, z: Vec, x0: Vec, x1: Vec, x2: Vec, a: real, b: real, c: real)
    requires |w| == |z| == |x0| == |x1| == |x2| && Combination(z, x0, x1, x2, a, b, c)
    ensures Dot(w, z) == Mix(a, b, c, Dot(w, x0), Dot(w, x1), Dot(w, x2))
    decreases |w|
  {
    if w == [] {
      DotOfNone(w, z, x0, x1, x2);
    } else {
      hide Dot, Combination, Mix;
      CombinationTail(z, x0, x1, x2, a, b, c);
      CombinationDots(w[1..], z[1..], x0[1..], x1[1..], x2[1..], a, b, c);
      DotFirst(w, z);
      DotFirst(w, x0);
      DotFirst(w, x1);
      DotFirst(w, x2);
      DotHeads(w[0], z[0], x0[0], x1[0], x2[0], a, b, c);
      HeadsAndTails(a, b, c, w[0] * x0[0], Dot(w[1..], x0[1..]), w[0] * x1[0], Dot(w[1..], x1[1..]),
                    w[0] * x2[0], Dot(w[1..], x2[1..]));
    }
  }

  lemma {:induction false} DotOfNone(w: Vec, z: Vec, x0: Vec, x1: Vec, x2: Vec)
    requires |w| == |z| == |x0| == |x1| == |x2|
    ensures w == [] ==> Dot(w, z) == Dot(w, x0) == Dot(w, x1) == Dot(w, x2) == 0.0
  {
  }

  lemma HeadsAndTails(a: real, b: real, c: real, h0: real, t0: real, h1: real, t1: real, h2: real, t2: real)
    ensures Mix(a, b, c, h0 + t0, h1 + t1, h2 + t2) == Mix(a, b, c, h0, h1, h2) + Mix(a, b, c, t0, t1, t2)
  {
  }

  lemma DotHeads(w: real, z: real, x0: real, x1: real, x2: real, a: real, b: real, c: real)
    requires z == Mix(a, b, c, x0, x1, x2)
    ensures w * z == Mix(a, b, c, w * x0, w * x1, w * x2)
  {
  }

  lemma Distribute(a: real, x: real, y: real)
    ensures a * (x + y) == a * x + a * y
  {
  }

  /** The slope of a quadratic. */
  function Slope(b: real, c: real, t: real): real {
    b + 2.0 * c * t
  }

  /** A quadratic around another origin. */
  lemma Recentre(a: real, b: real, c: real, s: real, t: real)
    ensures Quadratic(a, b, c, s + t) == Quadratic(a, b, c, s) * 1.0 + Slope(b, c, s) * t + c * (t * t)
  {
  }

  /** The fit to a full window of a quadratic has its coefficients about the
      window's centre. */
  lemma WindowFit(points: Vec, window: nat, pinv: seq<Vec>, a: real, b: real, c: real, first: nat)
    requires IsLeftInverse(pinv, window) && IsQuadratic(points, a, b, c) && first + window <= |points|
    ensures var block := points[first..first + window];
      var s := (first + window / 2) as real;
      && Dot(pinv[0], block) == Quadratic(a, b, c, s)
      && Dot(pinv[1], block) == Slope(b, c, s)
      && Dot(pinv[2], block) == c
  {
    hide Dot;
    var block := points[first..first + window];
    var s := (first + window / 2) as real;
    var a', b' := Quadratic(a, b, c, s), Slope(b, c, s);
    var x0, x1, x2 := Power(window, 0), Power(window, 1), Power(window, 2);
    forall j | 0 <= j < window ensures block[j] == a' * x0[j] + b' * x1[j] + c * x2[j] {
      BlockAt(points, window, a, b, c, first, j);
    }
    DotCombines(pinv[0], block, x0, x1, x2, a', b', c);
    DotCombines(pinv[1], block, x0, x1, x2, a', b', c);
    DotCombines(pinv[2], block, x0, x1, x2, a', b', c);
  }

  lemma BlockAt(points: Vec, window: nat, a: real, b: real, c: real, first: nat, j: nat)
    requires IsQuadratic(points, a, b, c) && first + window <= |points| && j < window
    ensures var s := (first + window / 2) as real;
      points[first..first + window][j] ==
      Quadratic(a, b, c, s) * Power(window, 0)[j] + Slope(b, c, s) * Power(window, 1)[j] + c * Power(window, 2)[j]
  {
    var s, t := (first + window / 2) as real, (j - window / 2) as real;
    assert (first + j) as real == s + t;
    Recentre(a, b, c, s, t);
    hide Quadratic, Slope;
    assert Power(window, 0)[j] == 1.0 && Power(window, 1)[j] == t && Power(window, 2)[j] == t * t;
  }

  /** The fit to a full window of a quadratic is that quadratic. */
  lemma BlockIsFitted(points: Vec, window: nat, pinv: seq<Vec>, a: real, b: real, c: real, first: nat, i: int)
    requires IsLeftInverse(pinv, window) && IsQuadratic(points, a, b, c) && first + window <= |points|
    requires 0 <= i < |points|
    ensures FittedAt(pinv, points[first..first + window], i - (first + window / 2)) == points[i]
  {
    assert points[i] == Quadratic(a, b, c, i as real);
    hide Dot, Quadratic, Slope, IsQuadratic;
    WindowFit(points, window, pinv, a, b, c, first);
    EdgeValue(a, b, c, first + window / 2, i);
  }

  /** Every station of a quadratic open path is a fixed point, in the middle and in
      both edge blocks. */
  lemma OpenKeepsQuadratics(points: Vec, window: int, pinv: seq<Vec>, a: real, b: real, c: real, i: int)
    requires Applies(points, window) && IsLeftInverse(pinv, window) && IsQuadratic(points, a, b, c)
    requires 0 <= i < |points|
    ensures OpenAt(points, window, pinv, i) == points[i]
  {
    hide Dot, FittedAt, IsQuadratic;
    var half, n := window / 2, |points|;
    if i < half {
      BlockIsFitted(points, window, pinv, a, b, c, 0, i);
      assert points[0..0 + window] == points[..window];
    } else if i >= n - half {
      BlockIsFitted(points, window, pinv, a, b, c, n - window, i);
      assert points[n - window..n - window + window] == points[n - window..];
      assert n - window + half == n - 1 - half;
    } else {
      MiddleValue(points, window, pinv, a, b, c, i - half);
    }
  }

  lemma MiddleValue(points: Vec, window: nat, pinv: seq<Vec>, a: real, b: real, c: real, first: nat)
    requires IsLeftInverse(pinv, window) && IsQuadratic(points, a, b, c) && 0 < window && first + window <= |points|
    ensures Dot(pinv[0], points[first..first + window]) == points[first + window / 2]
  {
    WindowFit(points, window, pinv, a, b, c, first);
  }

  lemma EdgeValue(a: real, b: real, c: real, centre: int, i: int)
    ensures var s, t := centre as real, (i - centre) as real;
      Quadratic(Quadratic(a, b, c, s), Slope(b, c, s), c, t) == Quadratic(a, b, c, i as real)
  {
    var s, t := centre as real, (i - centre) as real;
    assert s + t == i as real;
    Recentre(a, b, c, s, t);
  }

  // ----- every smoothed station is a least-squares fit -----

  /** What is left of a block when a quadratic about its centre is taken off. */
  function Residual(block: Vec, a: real, b: real, c: real): Vec {
    seq(|block|, j requires 0 <= j < |block| => block[j] - Quadratic(a, b, c, (j - |block| / 2) as real))
  }

  /** The sum of the squares of the residuals. */
  ghost function Misfit(block: Vec, a: real, b: real, c: real): real {
    Dot(Residual(block, a, b, c), Residual(block, a, b, c))
  }

  /** No quadratic fits the block as well as this one. */
  ghost predicate FitsBest(block: Vec, p: real, q: real, r: real) {
    forall a, b, c :: Misfit(block, p, q, r) < Misfit(block, a, b, c) || (a == p && b == q && c == r)
  }

  /** How much the sample at `l` counts in the fitted value at `j`. */
  ghost function Influence(pinv: seq<Vec>, window: nat, j: int, l: int): real
    requires |pinv| == 3 && (forall k :: 0 <= k < 3 ==> |pinv[k]| == window) && 0 <= l < window
  {
    Quadratic(pinv[0][l], pinv[1][l], pinv[2][l], (j - window / 2) as real)
  }

  /** The pseudo-inverse: of all left inverses the one with symmetric influence. */
  ghost predicate IsPseudoInverse(pinv: seq<Vec>, window: nat) {
    && IsLeftInverse(pinv, window)
    && forall j, l :: 0 <= j < window && 0 <= l < window ==>
        Influence(pinv, window, j, l) == Influence(pinv, window, l, j)
  }

  /** For the default window of five, the well-known weights. */
  const FIVE: seq<Vec> := [
    [-3.0 / 35.0, 12.0 / 35.0, 17.0 / 35.0, 12.0 / 35.0, -3.0 / 35.0],
    [-0.2, -0.1, 0.0, 0.1, 0.2],
    [1.0 / 7.0, -1.0 / 14.0, -1.0 / 7.0, -1.0 / 14.0, 1.0 / 7.0]]

  lemma {:induction false} FiveStationWeights()
    ensures IsPseudoInverse(FIVE, 5)
  {
    hide Dot, Influence;
    forall k: nat, m: nat | k < 3 && m < 3 ensures Dot(FIVE[k], Power(5, m)) == if k == m then 1.0 else 0.0 {
      WithPowers(FIVE[k], m);
    }
    forall j, l | 0 <= j < 5 && 0 <= l < 5 ensures Influence(FIVE, 5, j, l) == Influence(FIVE, 5, l, j) {
      InfluenceOfFive(j, l);
      InfluenceOfFive(l, j);
      FivePolynomial((j - 2) as real, (l - 2) as real);
    }
  }

  lemma InfluenceOfFive(j: int, l: int)
    requires 0 <= l < 5
    ensures var s, t := (l - 2) as real, (j - 2) as real;
      Influence(FIVE, 5, j, l) == Quadratic(17.0 / 35.0 - s * s / 7.0, s / 10.0, s * s / 14.0 - 1.0 / 7.0, t)
  {
    hide Quadratic;
    FiveAt(l);
  }

  lemma FiveAt(l: int)
    requires 0 <= l < 5
    ensures var s := (l - 2) as real;
      && FIVE[0][l] == 17.0 / 35.0 - s * s / 7.0
      && FIVE[1][l] == s / 10.0 && FIVE[2][l] == s * s / 14.0 - 1.0 / 7.0
  {
  }

  lemma FivePolynomial(s: real, t: real)
    ensures Quadratic(17.0 / 35.0 - s * s / 7.0, s / 10.0, s * s / 14.0 - 1.0 / 7.0, t) ==
            Quadratic(17.0 / 35.0 - t * t / 7.0, t / 10.0, t * t / 14.0 - 1.0 / 7.0, s)
  {
  }

  lemma {:induction false} WithPowers(w: Vec, m: nat)
    requires |w| == 5 && m < 3
    ensures Dot(w, Power(5, m)) ==
            if m == 0 then w[0] + w[1] + w[2] + w[3] + w[4]
            else if m == 1 then -2.0 * w[0] - w[1] + w[3] + 2.0 * w[4]
            else 4.0 * w[0] + w[1] + w[3] + 4.0 * w[4]
  {
    hide Dot;
    var x := Power(5, m);
    DotOfFive(w, x);
    assert x[0] == PowerAt(-2.0, m) && x[1] == PowerAt(-1.0, m) && x[2] == PowerAt(0.0, m)
        && x[3] == PowerAt(1.0, m) && x[4] == PowerAt(2.0, m);
  }

  lemma {:induction false} DotOfFive(w: Vec, x: Vec)
    requires |w| == |x| == 5
    ensures Dot(w, x) == w[0] * x[0] + w[1] * x[1] + w[2] * x[2] + w[3] * x[3] + w[4] * x[4]
  {
    DotFirst(w, x);
    DotFirst(w[1..], x[1..]);
    DotFirst(w[2..], x[2..]);
    DotFirst(w[3..], x[3..]);
    DotFirst(w[4..], x[4..]);
    assert w[1..][1..] == w[2..] && w[2..][1..] == w[3..] && w[3..][1..] == w[4..] && w[4..][1..] == [];
    assert x[1..][1..] == x[2..] && x[2..][1..] == x[3..] && x[3..][1..] == x[4..] && x[4..][1..] == [];
  }

  lemma {:induction false} DotCommutes(x: Vec, y: Vec)
    requires |x| == |y|
    ensures Dot(x, y) == Dot(y, x)
  {
    if x != [] {
      DotCommutes(x[1..], y[1..]);
    }
  }

  ghost predicate Weighted(z: Vec, y: Vec, w: Vec, k: real) {
    |z| == |y| == |w| && forall l :: 0 <= l < |z| ==> z[l] == y[l] + k * w[l]
  }

  /** A matrix, given by its rows, times a vector. */
  ghost predicate IsProduct(v: Vec, rows: seq<Vec>, x: Vec) {
    |v| == |rows| && forall j :: 0 <= j < |rows| ==> |rows[j]| == |x| && v[j] == Dot(rows[j], x)
  }

  ghost predicate Transposed(rows: seq<Vec>, columns: seq<Vec>) {
    && (forall j :: 0 <= j < |rows| ==> |rows[j]| == |columns|)
    && (forall l :: 0 <= l < |columns| ==> |columns[l]| == |rows|)
    && forall j, l :: 0 <= j < |rows| && 0 <= l < |columns| ==> columns[l][j] == rows[j][l]
  }

  /** Weighting the products with rows is multiplying with the rows weighted. */
  lemma {:induction false} Exchange(u: Vec, v: Vec, rows: seq<Vec>, g: Vec, columns: seq<Vec>, x: Vec)
    requires IsProduct(v, rows, x) && IsProduct(g, columns, u) && Transposed(rows, columns)
    requires |u| == |rows| && |x| == |columns|
    ensures Dot(u, v) == Dot(g, x)
    decreases |u|
  {
    if u == [] {
      DotOfZeros(g, x);
    } else {
      hide Dot;
      var columns' := seq(|x|, l requires 0 <= l < |x| => columns[l][1..]);
      var g' := seq(|x|, l requires 0 <= l < |x| => Dot(columns'[l], u[1..]));
      assert Transposed(rows[1..], columns');
      Exchange(u[1..], v[1..], rows[1..], g', columns', x);
      WithoutFirstRow(u, rows, g, columns, g', columns');
      hide Weighted, IsProduct, Transposed;
      WeightedSum(g, g', rows[0], u[0], x);
      DotFirst(u, v);
    }
  }

  lemma {:induction false} WithoutFirstRow(u: Vec, rows: seq<Vec>, g: Vec, columns: seq<Vec>,
      g': Vec, columns': seq<Vec>)
    requires u != [] && |u| == |rows| && Transposed(rows, columns)
    requires IsProduct(g, columns, u) && IsProduct(g', columns', u[1..]) && |columns'| == |columns|
    requires forall l :: 0 <= l < |columns| ==> columns'[l] == columns[l][1..]
    ensures Weighted(g, g', rows[0], u[0])
  {
    hide Dot;
    forall l | 0 <= l < |g| ensures g[l] == g'[l] + u[0] * rows[0][l] {
      DotFirst(columns[l], u);
      assert columns[l][0] == rows[0][l];
    }
  }

  lemma {:induction false} DotFirst(u: Vec, v: Vec)
    requires |u| == |v| > 0
    ensures Dot(u, v) == u[0] * v[0] + Dot(u[1..], v[1..])
  {
  }

  lemma {:induction false} DotOfZeros(g: Vec, x: Vec)
    requires |g| == |x| && forall l :: 0 <= l < |g| ==> g[l] == 0.0
    ensures Dot(g, x) == 0.0
  {
    if g != [] {
      DotOfZeros(g[1..], x[1..]);
    }
  }

  lemma {:induction false} WeightedSum(z: Vec, y: Vec, w: Vec, k: real, x: Vec)
    requires Weighted(z, y, w, k) && |z| == |x|
    ensures Dot(z, x) == Dot(y, x) + k * Dot(w, x)
  {
    if z != [] {
      WeightedSum(z[1..], y[1..], w[1..], k, x[1..]);
      WeightedHead(z[0], y[0], w[0], k, x[0]);
      Distribute(k, w[0] * x[0], Dot(w[1..], x[1..]));
    }
  }

  lemma WeightedHead(z: real, y: real, w: real, k: real, x: real)
    requires z == y + k * w
    ensures z * x == y * x + k * (w * x)
  {
  }

  ghost function Row(pinv: seq<Vec>, window: nat, j: int): Vec
    requires |pinv| == 3 && forall k :: 0 <= k < 3 ==> |pinv[k]| == window
  {
    seq(window, l requires 0 <= l < window => Influence(pinv, window, j, l))
  }

  /** The fitted value at `j` is the samples weighted by their influence. */
  lemma {:induction false} RowFits(pinv: seq<Vec>, window: nat, j: int, x: Vec)
    requires |pinv| == 3 && (forall k :: 0 <= k < 3 ==> |pinv[k]| == window) && |x| == window
    ensures Dot(Row(pinv, window, j), x) ==
            Quadratic(Dot(pinv[0], x), Dot(pinv[1], x), Dot(pinv[2], x), (j - window / 2) as real)
  {
    hide Dot;
    var t := (j - window / 2) as real;
    var row := Row(pinv, window, j);
    hide Quadratic;
    forall l | 0 <= l < window ensures row[l] == 1.0 * pinv[0][l] + t * pinv[1][l] + (t * t) * pinv[2][l] {
      assert row[l] == Influence(pinv, window, j, l);
      Reordered(pinv[0][l], pinv[1][l], pinv[2][l], t);
    }
    DotCombines(x, row, pinv[0], pinv[1], pinv[2], 1.0, t, t * t);
    DotCommutes(x, row);
    DotCommutes(x, pinv[0]);
    DotCommutes(x, pinv[1]);
    DotCommutes(x, pinv[2]);
    Reordered(Dot(pinv[0], x), Dot(pinv[1], x), Dot(pinv[2], x), t);
  }

  lemma Reordered(a: real, b: real, c: real, t: real)
    ensures Quadratic(a, b, c, t) == 1.0 * a + t * b + (t * t) * c
  {
  }

  /** What a fit leaves is orthogonal to every power. */
  lemma {:induction false} ResidualIsOrthogonal(pinv: seq<Vec>, window: nat, x: Vec, m: nat)
    requires IsPseudoInverse(pinv, window) && |x| == window && m < 3
    ensures Dot(Residual(x, Dot(pinv[0], x), Dot(pinv[1], x), Dot(pinv[2], x)), Power(window, m)) == 0.0
  {
    hide Dot, Quadratic;
    var p, q, r := Dot(pinv[0], x), Dot(pinv[1], x), Dot(pinv[2], x);
    var u := Power(window, m);
    var rows := seq(window, j requires 0 <= j < window => Row(pinv, window, j));
    var fitted := seq(window, j requires 0 <= j < window => Quadratic(p, q, r, (j - window / 2) as real));
    forall j | 0 <= j < window ensures |rows[j]| == |x| && fitted[j] == Dot(rows[j], x) {
      RowFits(pinv, window, j, x);
    }
    forall l | 0 <= l < window ensures |rows[l]| == |u| && u[l] == Dot(rows[l], u) {
      RowKeepsPower(pinv, window, l, m);
    }
    RowsAreSymmetric(pinv, window, rows);
    Exchange(u, fitted, rows, u, rows, x);
    hide IsProduct, Transposed, IsPseudoInverse;
    var left := Residual(x, p, q, r);
    WeightedSum(left, x, fitted, -1.0, u);
    DotCommutes(fitted, u);
    DotCommutes(x, u);
  }

  lemma RowsAreSymmetric(pinv: seq<Vec>, window: nat, rows: seq<Vec>)
    requires IsPseudoInverse(pinv, window) && |rows| == window
    requires forall j :: 0 <= j < window ==> rows[j] == Row(pinv, window, j)
    ensures Transposed(rows, rows)
  {
    hide Quadratic, Dot, Power;
    forall j, l | 0 <= j < window && 0 <= l < window ensures rows[l][j] == rows[j][l] {
      assert rows[l][j] == Influence(pinv, window, l, j) && rows[j][l] == Influence(pinv, window, j, l);
    }
  }

  lemma RowKeepsPower(pinv: seq<Vec>, window: nat, l: nat, m: nat)
    requires IsLeftInverse(pinv, window) && l < window && m < 3
    ensures Dot(Row(pinv, window, l), Power(window, m)) == Power(window, m)[l]
  {
    hide Dot;
    RowFits(pinv, window, l, Power(window, m));
    assert Power(window, m)[l] == PowerAt((l - window / 2) as real, m);
  }

  /** The misfit of any quadratic is that of the fit, and the squares of their
      difference on top. */
  lemma {:induction false} MisfitSplits(pinv: seq<Vec>, window: nat, x: Vec, a: real, b: real, c: real)
    requires IsPseudoInverse(pinv, window) && |x| == window
    ensures var p, q, r := Dot(pinv[0], x), Dot(pinv[1], x), Dot(pinv[2], x);
      var d := Differences(window, p - a, q - b, r - c);
      Misfit(x, a, b, c) == Misfit(x, p, q, r) + Dot(d, d)
  {
    hide Dot;
    var p, q, r := Dot(pinv[0], x), Dot(pinv[1], x), Dot(pinv[2], x);
    var d := Differences(window, p - a, q - b, r - c);
    var e, f := Residual(x, p, q, r), Residual(x, a, b, c);
    ResidualsDiffer(x, p, q, r, a, b, c);
    ResidualIsOrthogonal(pinv, window, x, 0);
    ResidualIsOrthogonal(pinv, window, x, 1);
    ResidualIsOrthogonal(pinv, window, x, 2);
    DifferencesCombine(e, window, p - a, q - b, r - c);
    assert Dot(e, d) == 0.0;
    WeightedSum(f, e, d, 1.0, f);
    DotCommutes(e, f);
    WeightedSum(f, e, d, 1.0, e);
    DotCommutes(d, f);
    WeightedSum(f, e, d, 1.0, d);
    DotCommutes(d, e);
  }

  /** A quadratic at the stations of a window. */
  ghost function Differences(window: nat, a: real, b: real, c: real): Vec {
    seq(window, j requires 0 <= j < window => Quadratic(a, b, c, (j - window / 2) as real))
  }

  lemma ResidualsDiffer(x: Vec, p: real, q: real, r: real, a: real, b: real, c: real)
    ensures forall j :: 0 <= j < |x| ==>
      Residual(x, a, b, c)[j] == Residual(x, p, q, r)[j] + 1.0 * Differences(|x|, p - a, q - b, r - c)[j]
  {
    forall j | 0 <= j < |x|
      ensures Residual(x, a, b, c)[j] == Residual(x, p, q, r)[j] + 1.0 * Differences(|x|, p - a, q - b, r - c)[j]
    {
      var t := (j - |x| / 2) as real;
      Difference(p, q, r, a, b, c, t);
      assert Differences(|x|, p - a, q - b, r - c)[j] == Quadratic(p - a, q - b, r - c, t);
    }
  }

  lemma Difference(p: real, q: real, r: real, a: real, b: real, c: real, t: real)
    ensures Quadratic(p - a, q - b, r - c, t) == Quadratic(p, q, r, t) - Quadratic(a, b, c, t)
  {
  }

  lemma {:induction false} DifferencesCombine(w: Vec, window: nat, a: real, b: real, c: real)
    requires |w| == window
    ensures Dot(w, Differences(window, a, b, c)) ==
            a * Dot(w, Power(window, 0)) + b * Dot(w, Power(window, 1)) + c * Dot(w, Power(window, 2))
  {
    hide Dot;
    var z, x0, x1, x2 := Differences(window, a, b, c), Power(window, 0), Power(window, 1), Power(window, 2);
    forall j | 0 <= j < window ensures z[j] == a * x0[j] + b * x1[j] + c * x2[j] {
      var t := (j - window / 2) as real;
      assert x0[j] == PowerAt(t, 0) && x1[j] == PowerAt(t, 1) && x2[j] == PowerAt(t, 2);
    }
    DotCombines(w, z, x0, x1, x2, a, b, c);
  }

  lemma {:induction false} SquaresVanish(d: Vec)
    ensures Dot(d, d) >= 0.0
    ensures Dot(d, d) == 0.0 ==> forall j :: 0 <= j < |d| ==> d[j] == 0.0
  {
    if d != [] {
      SquaresVanish(d[1..]);
      SquareIsPositive(d[0]);
    }
  }

  lemma SquareIsPositive(x: real)
    ensures x * x >= 0.0 && (x * x == 0.0 ==> x == 0.0)
  {
    if x != 0.0 { assert x == x * x / x; }
  }

  /** The coefficients computed are those of the best fit, and of no other. */
  lemma {:induction false} FitIsLeastSquares(pinv: seq<Vec>, window: nat, x: Vec)
    requires IsPseudoInverse(pinv, window) && |x| == window
    ensures FitsBest(x, Dot(pinv[0], x), Dot(pinv[1], x), Dot(pinv[2], x))
  {
    hide Dot, Misfit;
    var p, q, r := Dot(pinv[0], x), Dot(pinv[1], x), Dot(pinv[2], x);
    forall a, b, c ensures Misfit(x, p, q, r) < Misfit(x, a, b, c) || (a == p && b == q && c == r) {
      MisfitSplits(pinv, window, x, a, b, c);
      var d := Differences(window, p - a, q - b, r - c);
      SquaresVanish(d);
      if Dot(d, d) == 0.0 { CoefficientsVanish(pinv, window, d, p - a, q - b, r - c); }
    }
  }

  lemma CoefficientsVanish(pinv: seq<Vec>, window: nat, d: Vec, a: real, b: real, c: real)
    requires IsLeftInverse(pinv, window) && d == Differences(window, a, b, c)
    requires forall j :: 0 <= j < |d| ==> d[j] == 0.0
    ensures a == 0.0 && b == 0.0 && c == 0.0
  {
    hide Dot;
    forall k | 0 <= k < 3 ensures Dot(pinv[k], d) == 0.0 {
      DotOfZeros(d, pinv[k]);
      DotCommutes(d, pinv[k]);
      DifferencesCombine(pinv[k], window, a, b, c);
    }
    DifferencesCombine(pinv[0], window, a, b, c);
    DifferencesCombine(pinv[1], window, a, b, c);
    DifferencesCombine(pinv[2], window, a, b, c);
  }

  /** On a loop each smoothed station is the value, at that station, of the quadratic
      that best fits the window centred on it, around the seam. */
  lemma LoopFitsBest(points: Vec, window: int, pinv: seq<Vec>, i: nat, block: Vec)
    requires Applies(points, window) && IsPseudoInverse(pinv, window) && i < |points|
    requires |block| == window
    requires forall j :: 0 <= j < window ==> block[j] == points[(i + j - window / 2) % |points|]
    ensures exists p, q, r :: FitsBest(block, p, q, r) && LoopSmoothed(points, window, pinv[0])[i] == p
  {
    hide Dot, FitsBest;
    assert block == LoopWindow(points, window, i);
    FitIsLeastSquares(pinv, window, block);
  }

  /** On an open path too; there the window stays inside the path, so at the edges
      the fit is read off centre. */
  lemma OpenFitsBest(points: Vec, window: int, pinv: seq<Vec>, i: nat, first: int,
      block: Vec)
    requires Applies(points, window) && IsPseudoInverse(pinv, window) && i < |points|
    requires first == if i < window / 2 then 0
                      else if i - window / 2 > |points| - window then |points| - window else i - window / 2
    requires block == points[first..first + window]
    ensures exists p, q, r :: FitsBest(block, p, q, r) &&
                              OpenAt(points, window, pinv, i) == Quadratic(p, q, r, (i - first - window / 2) as real)
  {
    hide Dot, FitsBest;
    FitIsLeastSquares(pinv, window, block);
    OpenIsFitted(points, window, pinv, i, first);
  }

  lemma OpenIsFitted(points: Vec, window: int, pinv: seq<Vec>, i: nat, first: int)
    requires Applies(points, window) && |pinv| == 3 && (forall k :: 0 <= k < 3 ==> |pinv[k]| == window)
    requires i < |points|
    requires first == if i < window / 2 then 0
                      else if i - window / 2 > |points| - window then |points| - window else i - window / 2
    ensures OpenAt(points, window, pinv, i) == FittedAt(pinv, points[first..first + window], i - first - window / 2)
  {
    hide Dot;
    var half, n := window / 2, |points|;
    if i < half {
      assert points[0..window] == points[..window];
    } else if i >= n - half {
      assert points[n - window..n - window + window] == points[n - window..];
    }
  }
}
