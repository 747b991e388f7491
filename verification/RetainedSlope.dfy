/** The slope of retained memory over cycles: a least-squares fit against the indices
    0, 1, 2, ... computed in one loop. */
module RetainedSlope {

  function Sum(values: seq<real>, k: nat): real
    requires k <= |values|
  {
    if k == 0 then 0.0 else Sum(values, k - 1) + values[k - 1]
  }

  function XMean(n: nat): real { (n as real - 1.0) / 2.0 }

  function YMean(values: seq<real>): real
    requires values != []
  {
    Sum(values, |values|) / |values| as real
  }

  function XDelta(n: nat, i: nat): real { i as real - XMean(n) }

  function YDelta(values: seq<real>, i: nat): real
    requires i < |values|
  {
    values[i] - YMean(values)
  }

  function Numerator(values: seq<real>, k: nat): real
    requires k <= |values|
  {
    if k == 0 then 0.0
    else Numerator(values, k - 1) + XDelta(|values|, k - 1) * YDelta(values, k - 1)
  }

  function Denominator(n: nat, k: nat): real {
    if k == 0 then 0.0 else Denominator(n, k - 1) + XDelta(n, k - 1) * XDelta(n, k - 1)
  }

  function Slope(values: seq<real>): real {
    var n := |values|;
    if n < 2 || Denominator(n, n) == 0.0 then 0.0 else Numerator(values, n) / Denominator(n, n)
  }

  method ComputeSlope(values: seq<real>) returns (r: real)
    ensures r == Slope(values)
  {
    if |values| < 2 {
      return 0.0;
    }
    var xMean := (|values| as real - 1.0) / 2.0;
    var sum := 0.0;
    for i := 0 to |values|
      invariant sum == Sum(values, i)
    {
      sum := sum + values[i];
    }
    var yMean := sum / |values| as real;
    var numerator, denominator := 0.0, 0.0;
    for index := 0 to |values|
      invariant numerator == Numerator(values, index)
      invariant denominator == Denominator(|values|, index)
    {
      var xDelta := index as real - xMean;
      numerator := numerator + xDelta * (values[index] - yMean);
      denominator := denominator + xDelta * xDelta;
    }
    r := if denominator == 0.0 then 0.0 else numerator / denominator;
  }

  // ----- the sums in closed form

  function XSum(n: nat, k: nat): real {
    if k == 0 then 0.0 else XSum(n, k - 1) + XDelta(n, k - 1)
  }

  function YSum(values: seq<real>, k: nat): real
    requires k <= |values|
  {
    if k == 0 then 0.0 else YSum(values, k - 1) + YDelta(values, k - 1)
  }

  lemma {:induction false} XSumClosed(n: nat, k: nat)
    ensures XSum(n, k) == k as real * (k as real - 1.0) / 2.0 - k as real * XMean(n)
  {
    if k == 0 {
    } else {
      XSumClosed(n, k - 1);
      var j, m := (k - 1) as real, XMean(n);
      assert k as real == j + 1.0;
      assert (j + 1.0) * j / 2.0 - (j + 1.0) * m == (j * (j - 1.0) / 2.0 - j * m) + (j - m);
    }
  }

  lemma {:induction false} YSumClosed(values: seq<real>, k: nat)
    requires k <= |values| && values != []
    ensures YSum(values, k) == Sum(values, k) - k as real * YMean(values)
  {
    if k == 0 {
    } else {
      YSumClosed(values, k - 1);
      var j, m := (k - 1) as real, YMean(values);
      assert k as real == j + 1.0;
      assert (j + 1.0) * m == j * m + m;
    }
  }

  lemma DeltasSumToZero(values: seq<real>)
    requires values != []
    ensures XSum(|values|, |values|) == 0.0 && YSum(values, |values|) == 0.0
  {
    XSumClosed(|values|, |values|);
    YSumClosed(values, |values|);
  }

  lemma {:induction false} DenominatorPartial(n: nat, k: nat)
    ensures var j, m := k as real, XMean(n);
      Denominator(n, k) == j * (j - 1.0) * (2.0 * j - 1.0) / 6.0 - m * j * (j - 1.0) + m * m * j
  {
    if k == 0 {
    } else {
      DenominatorPartial(n, k - 1);
      assert k as real == (k - 1) as real + 1.0;
    }
  }

  /** The denominator is n(n^2 - 1)/12, so it is positive from two values on. */
  lemma DenominatorClosed(n: nat)
    ensures Denominator(n, n) == n as real * (n as real * n as real - 1.0) / 12.0
    ensures n >= 2 ==> Denominator(n, n) > 0.0
  {
    DenominatorPartial(n, n);
    var j := n as real;
    var m := (j - 1.0) / 2.0;
    assert j * (j - 1.0) * (2.0 * j - 1.0) == 2.0 * j * j * j - 3.0 * j * j + j;
    assert m * j * (j - 1.0) == (j * j * j - 2.0 * j * j + j) / 2.0;
    assert m * m * j == (j * j * j - 2.0 * j * j + j) / 4.0;
    assert j * (j * j - 1.0) == j * j * j - j;
    if n >= 2 {
      assert j * j >= 4.0;
      assert j * (j * j - 1.0) > 0.0;
    }
  }

  // ----- optimality

  // How far a line a + b*i misses the value at `i`.
  function Residual(values: seq<real>, a: real, b: real, i: nat): real
    requires i < |values|
  {
    values[i] - (a + b * i as real)
  }

  function SquaredError(values: seq<real>, a: real, b: real, k: nat): real
    requires k <= |values|
  {
    if k == 0 then 0.0
    else SquaredError(values, a, b, k - 1) + Residual(values, a, b, k - 1) * Residual(values, a, b, k - 1)
  }

  lemma SquareSign(x: real)
    ensures x * x >= 0.0 && (x * x == 0.0 <==> x == 0.0)
  {
    if x != 0.0 {
      var y := 1.0 / x;
      assert x * y == 1.0;
      assert (x * x) * (y * y) == (x * y) * (x * y);
    }
  }

  lemma ErrorGrows(values: seq<real>, a: real, b: real, i: nat, miss: real)
    requires i < |values| && miss == Residual(values, a, b, i)
    ensures SquaredError(values, a, b, i + 1) == SquaredError(values, a, b, i) + miss * miss
  {
    hide Residual;
  }

  lemma {:induction false} SquaredErrorNonNegative(values: seq<real>, a: real, b: real, k: nat)
    requires k <= |values|
    ensures SquaredError(values, a, b, k) >= 0.0
  {
    if k == 0 {
    } else {
      hide *;
      SquaredErrorNonNegative(values, a, b, k - 1);
      var miss := Residual(values, a, b, k - 1);
      ErrorGrows(values, a, b, k - 1, miss);
      SquareSign(miss);
    }
  }

  // The intercept of the fitted line, which passes through the means.
  function Intercept(values: seq<real>, slope: real): real
    requires values != []
  {
    YMean(values) - slope * XMean(|values|)
  }

  // How far a line passes from the means.
  function Miss(values: seq<real>, a: real, b: real): real
    requires values != []
  {
    a + b * XMean(|values|) - YMean(values)
  }

  lemma ErrorSplits(values: seq<real>, i: nat, a: real, b: real, s: real)
    requires i < |values|
    ensures var r := YDelta(values, i) - s * XDelta(|values|, i);
      && Residual(values, a, b, i) == r - Miss(values, a, b) - (b - s) * XDelta(|values|, i)
      && Residual(values, Intercept(values, s), s, i) == r
  {
    var x, m := i as real, XMean(|values|);
    assert b * (x - m) == b * x - b * m && s * (x - m) == s * x - s * m;
    assert (b - s) * (x - m) == b * (x - m) - s * (x - m);
  }

  // What a miss `d` at the means and a slope off by `e` add to the squared error of
  // the line with slope `s`, in terms of the partial sums.
  function Extra(k: real, d: real, e: real, s: real, den: real, ysum: real, xsum: real, num: real): real {
    k * (d * d) + e * e * den - 2.0 * d * (ysum - s * xsum) - 2.0 * e * (num - s * den) + 2.0 * d * e * xsum
  }

  function ExtraAt(values: seq<real>, d: real, e: real, s: real, k: nat): real
    requires k <= |values| && values != []
  {
    Extra(k as real, d, e, s, Denominator(|values|, k), YSum(values, k), XSum(|values|, k), Numerator(values, k))
  }

  lemma ExtraAtStep(values: seq<real>, d: real, e: real, s: real, i: nat, x: real, y: real, r: real, miss: real)
    requires i < |values| && x == XDelta(|values|, i) && y == YDelta(values, i)
    requires r == y - s * x && miss == r - d - e * x
    ensures miss * miss - r * r == ExtraAt(values, d, e, s, i + 1) - ExtraAt(values, d, e, s, i)
  {
    var n := |values|;
    var den, ysum, xsum, num := Denominator(n, i), YSum(values, i), XSum(n, i), Numerator(values, i);
    assert (i + 1) as real == i as real + 1.0;
    assert Denominator(n, i + 1) == den + x * x;
    assert Numerator(values, i + 1) == num + x * y;
    assert YSum(values, i + 1) == ysum + y;
    assert XSum(n, i + 1) == xsum + x;
  }

  lemma ErrorStep(values: seq<real>, a: real, b: real, s: real, d: real, e: real, i: nat)
    requires i < |values| && d == Miss(values, a, b) && e == b - s
    ensures SquaredError(values, a, b, i + 1) - SquaredError(values, a, b, i)
      == SquaredError(values, Intercept(values, s), s, i + 1) - SquaredError(values, Intercept(values, s), s, i)
         + ExtraAt(values, d, e, s, i + 1) - ExtraAt(values, d, e, s, i)
  {
    hide *;
    var n := |values|;
    var x, y := XDelta(n, i), YDelta(values, i);
    var r := y - s * x;
    var miss := r - d - e * x;
    ErrorSplits(values, i, a, b, s);
    ErrorGrows(values, a, b, i, miss);
    ErrorGrows(values, Intercept(values, s), s, i, r);
    ExtraAtStep(values, d, e, s, i, x, y, r, miss);
  }

  lemma {:induction false} ErrorPartial(values: seq<real>, a: real, b: real, s: real, d: real, e: real, k: nat)
    requires k <= |values| && values != [] && d == Miss(values, a, b) && e == b - s
    ensures SquaredError(values, a, b, k)
      == SquaredError(values, Intercept(values, s), s, k) + ExtraAt(values, d, e, s, k)
  {
    if k == 0 {
    } else {
      hide *;
      ErrorPartial(values, a, b, s, d, e, k - 1);
      ErrorStep(values, a, b, s, d, e, k - 1);
    }
  }

  lemma ExtraInFull(values: seq<real>, d: real, e: real)
    requires |values| >= 2
    ensures var n := |values|;
      ExtraAt(values, d, e, Slope(values), n) == n as real * (d * d) + Denominator(n, n) * (e * e)
  {
    var n, s := |values|, Slope(values);
    DenominatorClosed(n);
    DeltasSumToZero(values);
  }

  /** The squared error of any line a + b*i exceeds that of the fitted line by exactly
      n times its squared miss at the means plus the denominator times the squared
      difference of the slopes. */
  lemma ErrorDecomposes(values: seq<real>, a: real, b: real)
    requires |values| >= 2
    ensures var n, s := |values|, Slope(values);
      var d, e := Miss(values, a, b), b - s;
      SquaredError(values, a, b, n)
      == SquaredError(values, Intercept(values, s), s, n) + (n as real * (d * d) + Denominator(n, n) * (e * e))
  {
    hide *;
    DecomposesWith(values, a, b, Slope(values), Miss(values, a, b), b - Slope(values));
  }

  lemma DecomposesWith(values: seq<real>, a: real, b: real, s: real, d: real, e: real)
    requires |values| >= 2 && s == Slope(values) && d == Miss(values, a, b) && e == b - s
    ensures SquaredError(values, a, b, |values|)
      == SquaredError(values, Intercept(values, s), s, |values|)
         + (|values| as real * (d * d) + Denominator(|values|, |values|) * (e * e))
  {
    hide *;
    ErrorPartial(values, a, b, s, d, e, |values|);
    ExtraInFull(values, d, e);
  }

  lemma SquarePositive(x: real, c: real, q: real)
    requires c > 0.0 && q == x * x
    ensures c * q >= 0.0 && (c * q == 0.0 <==> x == 0.0)
  {
    SquareSign(x);
  }

  // Both parts of the excess vanish only for the fitted line itself.
  lemma ExcessPositive(n: real, den: real, d: real, e: real)
    requires n > 0.0 && den > 0.0
    ensures n * (d * d) + den * (e * e) >= 0.0
    ensures n * (d * d) + den * (e * e) == 0.0 <==> d == 0.0 && e == 0.0
  {
    SquarePositive(d, n, d * d);
    SquarePositive(e, den, e * e);
  }

  lemma FittedIff(values: seq<real>, a: real, b: real, s: real)
    requires values != []
    ensures Miss(values, a, b) == 0.0 && b - s == 0.0 <==> b == s && a == Intercept(values, s)
  {
    if b == s {
      assert b * XMean(|values|) == s * XMean(|values|);
    }
  }

  /** No line fits better, and every other line fits strictly worse. */
  lemma SlopeIsOptimal(values: seq<real>, a: real, b: real)
    requires |values| >= 2
    ensures var n, s := |values|, Slope(values);
      var best, other := SquaredError(values, Intercept(values, s), s, n), SquaredError(values, a, b, n);
      && best <= other
      && (best == other <==> (b == s && a == Intercept(values, s)))
  {
    hide *;
    var n, s := |values|, Slope(values);
    DenominatorClosed(n);
    ErrorDecomposes(values, a, b);
    ExcessPositive(n as real, Denominator(n, n), Miss(values, a, b), b - s);
    FittedIff(values, a, b, s);
  }

  /** Exactly affine data gives back its own coefficient; one value or none gives zero. */
  lemma SlopeOfAffine(values: seq<real>, a: real, b: real)
    requires forall i :: 0 <= i < |values| ==> values[i] == a + b * i as real
    ensures Slope(values) == if |values| >= 2 then b else 0.0
  {
    var n := |values|;
    if n >= 2 {
      hide *;
      NoError(values, a, b, n);
      DenominatorClosed(n);
      SquaredErrorNonNegative(values, Intercept(values, Slope(values)), Slope(values), n);
      SlopeIsOptimal(values, a, b);
    }
  }

  lemma {:induction false} NoError(values: seq<real>, a: real, b: real, k: nat)
    requires k <= |values| && forall i :: 0 <= i < |values| ==> values[i] == a + b * i as real
    ensures SquaredError(values, a, b, k) == 0.0
  {
    if k == 0 {
    } else {
      NoError(values, a, b, k - 1);
      assert Residual(values, a, b, k - 1) == 0.0;
    }
  }
}
