/** The linear price trend: an ordinary least-squares line through equally spaced values, over the reals. */
module LinearTrend {

  function Sum(s: seq<real>): real {
    if s == [] then 0.0 else Sum(s[..|s| - 1]) + s[|s| - 1]
  }

  /** 0, 1, 2, ... */
  function Indices(n: nat): seq<real> {
    seq(n, i requires 0 <= i => i as real)
  }

  function Shift(s: seq<real>, m: real): seq<real> {
    seq(|s|, i requires 0 <= i < |s| => s[i] - m)
  }

  function Products(s: seq<real>, t: seq<real>): seq<real>
    requires |s| == |t|
  {
    seq(|s|, i requires 0 <= i < |s| => s[i] * t[i])
  }

  function Residuals(v: seq<real>, slope: real, intercept: real): seq<real> {
    seq(|v|, i requires 0 <= i < |v| => v[i] - (slope * i as real + intercept))
  }

  function SquaredError(v: seq<real>, slope: real, intercept: real): real {
    Sum(Products(Residuals(v, slope, intercept), Residuals(v, slope, intercept)))
  }

  // ------------------------------------------------------------------ the forecaster

  datatype Fit = Fit(slope: real, intercept: real)

  function XMean(n: nat): real {
    (n as real - 1.0) / 2.0
  }

  function YMean(v: seq<real>): real
    requires v != []
  {
    Sum(v) / |v| as real
  }

  function IndexDeviation(n: nat): real {
    var x := Shift(Indices(n), XMean(n));
    Sum(Products(x, x))
  }

  function CoDeviation(v: seq<real>): real
    requires v != []
  {
    Sum(Products(Shift(Indices(|v|), XMean(|v|)), Shift(v, YMean(v))))
  }

  function FitLine(v: seq<real>): Fit
    requires |v| >= 2
  {
    var den := IndexDeviation(|v|);
    var slope := if den != 0.0 then CoDeviation(v) / den else 0.0;
    Fit(slope, YMean(v) - slope * XMean(|v|))
  }

  datatype Forecast = Forecast(predictions: seq<real>, r2: real, variance: real)

  function Max(x: real, y: real): real {
    if x >= y then x else y
  }

  /** Sum of squared deviations from the mean. */
  function TotalDeviation(v: seq<real>): real
    requires v != []
  {
    Sum(Products(Shift(v, YMean(v)), Shift(v, YMean(v))))
  }

  /** Predictions, the score and the squared residual deviation, before rounding. */
  function LinearTrendForecast(v: seq<real>, steps: nat): Forecast {
    if |v| < 2 then
      var level := if v == [] then 0.0 else v[0];
      Forecast(seq(steps, i => level), 0.0, 0.0)
    else
      var n, fit := |v|, FitLine(v);
      var ssTot, ssRes := TotalDeviation(v), SquaredError(v, fit.slope, fit.intercept);
      Forecast(
        seq(steps, i requires 0 <= i => fit.slope * (n + i) as real + fit.intercept),
        if ssTot > 0.0 then Max(0.0, 1.0 - ssRes / ssTot) else 0.0,
        ssRes / (if n - 2 >= 1 then n - 2 else 1) as real)
  }

  // ------------------------------------------------------------------------ algebra

  lemma SameSign(x: real, y: real, xy: real)
    requires xy == x * y
    requires (x > 0.0 && y > 0.0) || (x < 0.0 && y < 0.0)
    ensures xy > 0.0
  {
  }

  lemma Square(x: real, xx: real)
    requires xx == x * x
    ensures xx >= 0.0
    ensures xx == 0.0 <==> x == 0.0
  {
    if x != 0.0 {
      SameSign(x, x, xx);
    } else {
      TimesZero(x, x);
    }
  }

  lemma DivideMultiply(x: real, y: real)
    requires y != 0.0
    ensures x / y * y == x
  {
  }

  lemma Distribute(p: real, x: real, y: real)
    ensures p * (x + y) == p * x + p * y
  {
  }

  lemma TimesZero(p: real, x: real)
    requires x == 0.0
    ensures p * x == 0.0
  {
  }

  function Scale(p: real, s: seq<real>): seq<real> {
    seq(|s|, i requires 0 <= i < |s| => p * s[i])
  }

  lemma {:induction false} SumScale(p: real, s: seq<real>)
    ensures Sum(Scale(p, s)) == p * Sum(s)
  {
    if s == [] {
      TimesZero(p, 0.0);
    } else {
      var n := |s| - 1;
      SumScale(p, s[..n]);
      forall i | 0 <= i < n ensures Scale(p, s)[..n][i] == Scale(p, s[..n])[i] {
        assert s[..n][i] == s[i];
      }
      assert Scale(p, s)[..n] == Scale(p, s[..n]);
      Distribute(p, Sum(s[..n]), s[n]);
    }
  }

  lemma SumScaleZero(p: real, s: seq<real>)
    requires Sum(s) == 0.0
    ensures Sum(Scale(p, s)) == 0.0
  {
    SumScale(p, s);
    TimesZero(p, Sum(s));
  }

  ghost predicate Adds(z: seq<real>, a: seq<real>, b: seq<real>, c: seq<real>, d: seq<real>) {
    && |z| == |a| == |b| == |c| == |d|
    && forall i :: 0 <= i < |z| ==> z[i] == a[i] + b[i] + c[i] + d[i]
  }

  lemma {:induction false} SumAdds(z: seq<real>, a: seq<real>, b: seq<real>, c: seq<real>, d: seq<real>)
    requires Adds(z, a, b, c, d)
    ensures Sum(z) == Sum(a) + Sum(b) + Sum(c) + Sum(d)
  {
    if z != [] {
      var n := |z| - 1;
      SumAdds(z[..n], a[..n], b[..n], c[..n], d[..n]);
    }
  }

  function Constant(x: real, n: nat): seq<real> {
    seq(n, i => x)
  }

  lemma {:induction false} SumConstant(x: real, n: nat)
    ensures Sum(Constant(x, n)) == x * n as real
  {
    if n > 0 {
      SumConstant(x, n - 1);
      assert Constant(x, n)[..n - 1] == Constant(x, n - 1);
      Distribute(x, (n - 1) as real, 1.0);
    } else {
      TimesZero(x, 0.0);
    }
  }

  lemma SumZeros(n: nat)
    ensures Sum(Constant(0.0, n)) == 0.0
  {
    SumConstant(0.0, n);
    TimesZero(n as real, 0.0);
  }

  lemma {:induction false} SumIndices(n: nat)
    ensures Sum(Indices(n)) == n as real * XMean(n)
  {
    if n > 0 {
      SumIndices(n - 1);
      assert Indices(n)[..n - 1] == Indices(n - 1);
    }
  }

  lemma ProductsPrefix(s: seq<real>, n: nat)
    requires n <= |s|
    ensures Products(s, s)[..n] == Products(s[..n], s[..n])
  {
    forall i | 0 <= i < n ensures Products(s, s)[..n][i] == Products(s[..n], s[..n])[i] {
      assert s[..n][i] == s[i];
    }
  }

  lemma {:induction false} SumOfSquares(s: seq<real>)
    ensures Sum(Products(s, s)) >= 0.0
    ensures Sum(Products(s, s)) == 0.0 <==> forall i :: 0 <= i < |s| ==> s[i] == 0.0
  {
    if s != [] {
      var n := |s| - 1;
      SumOfSquares(s[..n]);
      ProductsPrefix(s, n);
      Square(s[n], Products(s, s)[n]);
      assert forall i :: 0 <= i < n ==> s[..n][i] == s[i];
      assert Sum(Products(s, s)) == Sum(Products(s[..n], s[..n])) + Products(s, s)[n];
    }
  }

  // --------------------------------------------------------------- normal equations

  lemma IndexDeviationPositive(n: nat)
    requires n >= 2
    ensures IndexDeviation(n) > 0.0
  {
    var x := Shift(Indices(n), XMean(n));
    SumOfSquares(x);
    assert x[1] == x[0] + 1.0;
  }

  /** Each residual as a sum of multiples of the value, of one, and of the index. */
  lemma ResidualParts(v: seq<real>, s: real, t: real)
    ensures Adds(Residuals(v, s, t), v, Constant(-t, |v|), Constant(0.0, |v|), Scale(-s, Indices(|v|)))
  {
    forall i | 0 <= i < |v| ensures v[i] - (s * i as real + t) == v[i] + -t + 0.0 + -s * i as real {
    }
  }

  lemma ResidualSum(v: seq<real>, s: real, t: real)
    ensures Sum(Residuals(v, s, t)) == Sum(v) + Sum(Constant(-t, |v|)) + Sum(Scale(-s, Indices(|v|)))
  {
    ResidualParts(v, s, t);
    SumAdds(Residuals(v, s, t), v, Constant(-t, |v|), Constant(0.0, |v|), Scale(-s, Indices(|v|)));
    SumZeros(|v|);
  }

  lemma BalanceScalars(total: real, n: real, xm: real, ym: real, s: real, t: real)
    requires total == ym * n && t == ym - s * xm
    ensures total + -t * n + -s * (n * xm) == 0.0
  {
    assert -t * n == -ym * n + s * xm * n;
    assert s * xm * n == s * (n * xm);
  }

  lemma MeanTimesCount(v: seq<real>)
    requires v != []
    ensures Sum(v) == YMean(v) * |v| as real
  {
    DivideMultiply(Sum(v), |v| as real);
  }

  /** What the constant part of a line adds up to, and what the other part does. */
  function Levels(t: real, n: nat): real {
    t * n as real
  }

  function Slopes(s: real, n: nat): real {
    s * (n as real * XMean(n))
  }

  lemma SumLevels(t: real, n: nat)
    ensures Sum(Constant(t, n)) == Levels(t, n)
  {
    SumConstant(t, n);
  }

  lemma SumSlopes(s: real, n: nat)
    ensures Sum(Scale(s, Indices(n))) == Slopes(s, n)
  {
    SumScale(s, Indices(n));
    SumIndices(n);
  }

  lemma PartsBalance(v: seq<real>, s: real, t: real)
    requires v != [] && t == YMean(v) - s * XMean(|v|)
    ensures Sum(v) + Sum(Constant(-t, |v|)) + Sum(Scale(-s, Indices(|v|))) == 0.0
  {
    SumLevels(-t, |v|);
    SumSlopes(-s, |v|);
    MeansBalance(v, s, t);
  }

  lemma MeansBalance(v: seq<real>, s: real, t: real)
    requires v != [] && t == YMean(v) - s * XMean(|v|)
    ensures Sum(v) + Levels(-t, |v|) + Slopes(-s, |v|) == 0.0
  {
    MeanTimesCount(v);
    BalanceScalars(Sum(v), |v| as real, XMean(|v|), YMean(v), s, t);
  }

  /** The residuals of a line through the point of means sum to zero. */
  lemma ResidualsBalance(v: seq<real>, s: real, t: real)
    requires v != [] && t == YMean(v) - s * XMean(|v|)
    ensures Sum(Residuals(v, s, t)) == 0.0
  {
    ResidualSum(v, s, t);
    PartsBalance(v, s, t);
  }

  lemma MomentScalars(y: real, x: real, xm: real, ym: real, s: real, r: real)
    requires r == y - (s * x + (ym - s * xm))
    ensures x * r == (x - xm) * (y - ym) + xm * r + -s * ((x - xm) * (x - xm))
  {
    var u, w := x - xm, y - ym;
    assert r == w - s * u;
    assert u * r == u * w - s * (u * u);
    assert x * r == u * r + xm * r;
    assert -s * (u * u) == -(s * (u * u));
  }

  lemma MomentPart(v: seq<real>, s: real, t: real, xm: real, ym: real, i: nat)
    requires t == ym - s * xm && i < |v|
    ensures var dx, r := Shift(Indices(|v|), xm), Residuals(v, s, t);
      Products(Indices(|v|), r)[i]
      == Products(dx, Shift(v, ym))[i] + Constant(0.0, |v|)[i] + Scale(xm, r)[i] + Scale(-s, Products(dx, dx))[i]
  {
    MomentScalars(v[i], i as real, xm, ym, s, v[i] - (s * i as real + t));
  }

  lemma MomentParts(v: seq<real>, s: real, t: real, xm: real, ym: real)
    requires t == ym - s * xm
    ensures var dx, r := Shift(Indices(|v|), xm), Residuals(v, s, t);
      Adds(Products(Indices(|v|), r), Products(dx, Shift(v, ym)), Constant(0.0, |v|), Scale(xm, r), Scale(-s, Products(dx, dx)))
  {
    var dx, r := Shift(Indices(|v|), xm), Residuals(v, s, t);
    forall i | 0 <= i < |v|
      ensures Products(Indices(|v|), r)[i]
        == Products(dx, Shift(v, ym))[i] + Constant(0.0, |v|)[i] + Scale(xm, r)[i] + Scale(-s, Products(dx, dx))[i]
    {
      MomentPart(v, s, t, xm, ym, i);
    }
  }

  lemma MomentSum(v: seq<real>, s: real, t: real)
    requires v != [] && t == YMean(v) - s * XMean(|v|)
    ensures var dx := Shift(Indices(|v|), XMean(|v|));
      Sum(Products(Indices(|v|), Residuals(v, s, t))) == CoDeviation(v) + Sum(Scale(-s, Products(dx, dx)))
  {
    var n, xm, ym := |v|, XMean(|v|), YMean(v);
    var dx, r := Shift(Indices(n), xm), Residuals(v, s, t);
    MomentParts(v, s, t, xm, ym);
    SumAdds(Products(Indices(n), r), Products(dx, Shift(v, ym)), Constant(0.0, n), Scale(xm, r), Scale(-s, Products(dx, dx)));
    SumZeros(n);
    ResidualsBalance(v, s, t);
    SumScaleZero(xm, r);
  }

  lemma SlopeBalances(cod: real, dev: real, s: real, scaled: real)
    requires dev > 0.0 && s == cod / dev && scaled == -s * dev
    ensures cod + scaled == 0.0
  {
    DivideMultiply(cod, dev);
  }

  lemma FitBalances(v: seq<real>)
    requires |v| >= 2
    ensures Sum(Residuals(v, FitLine(v).slope, FitLine(v).intercept)) == 0.0
  {
    ResidualsBalance(v, FitLine(v).slope, FitLine(v).intercept);
  }

  /** The residuals of the fitted line are orthogonal to the index. */
  lemma ResidualsOrthogonal(v: seq<real>)
    requires |v| >= 2
    ensures var fit := FitLine(v);
      Sum(Products(Indices(|v|), Residuals(v, fit.slope, fit.intercept))) == 0.0
  {
    var n, fit := |v|, FitLine(v);
    var dx := Shift(Indices(n), XMean(n));
    MomentSum(v, fit.slope, fit.intercept);
    IndexDeviationPositive(n);
    SumScale(-fit.slope, Products(dx, dx));
    SlopeBalances(CoDeviation(v), IndexDeviation(n), fit.slope, Sum(Scale(-fit.slope, Products(dx, dx))));
  }

  // --------------------------------------------------------------------- optimality

  lemma ErrorScalars(q: real, r: real, l: real, x: real, d: real, e: real)
    requires l == d * x + e && q == r + l
    ensures q * q == r * r + l * l + 2.0 * d * (x * r) + 2.0 * e * r
  {
    assert q * q == r * r + l * l + 2.0 * (r * l);
    assert r * l == d * (x * r) + e * r;
    assert 2.0 * d * (x * r) == 2.0 * (d * (x * r)) && 2.0 * e * r == 2.0 * (e * r);
  }

  lemma ErrorParts(v: seq<real>, s: real, t: real, a: real, b: real)
    ensures var q, r, gap := Residuals(v, a, b), Residuals(v, s, t), Line(s - a, t - b, |v|);
      Adds(Products(q, q), Products(r, r), Products(gap, gap),
           Scale(2.0 * (s - a), Products(Indices(|v|), r)), Scale(2.0 * (t - b), r))
  {
    var d, e := s - a, t - b;
    forall i | 0 <= i < |v|
      ensures var x := i as real;
        var q, r, l := v[i] - (a * x + b), v[i] - (s * x + t), d * x + e;
        q * q == r * r + l * l + 2.0 * d * (x * r) + 2.0 * e * r
    {
      var x := i as real;
      assert d * x == s * x - a * x;
      ErrorScalars(v[i] - (a * x + b), v[i] - (s * x + t), d * x + e, x, d, e);
    }
  }

  function Line(d: real, e: real, n: nat): seq<real> {
    seq(n, i requires 0 <= i => d * i as real + e)
  }

  lemma ErrorSum(v: seq<real>, s: real, t: real, a: real, b: real)
    ensures var r, gap := Residuals(v, s, t), Line(s - a, t - b, |v|);
      SquaredError(v, a, b) == SquaredError(v, s, t) + Sum(Products(gap, gap))
        + Sum(Scale(2.0 * (s - a), Products(Indices(|v|), r))) + Sum(Scale(2.0 * (t - b), r))
  {
    var q, r, gap := Residuals(v, a, b), Residuals(v, s, t), Line(s - a, t - b, |v|);
    ErrorParts(v, s, t, a, b);
    SumAdds(Products(q, q), Products(r, r), Products(gap, gap),
            Scale(2.0 * (s - a), Products(Indices(|v|), r)), Scale(2.0 * (t - b), r));
  }

  /** The error of any line exceeds that of the fit by the squares of the difference of the two lines. */
  lemma ErrorBeyondFit(v: seq<real>, a: real, b: real)
    requires |v| >= 2
    ensures var fit := FitLine(v);
      var gap := Line(fit.slope - a, fit.intercept - b, |v|);
      SquaredError(v, a, b) == SquaredError(v, fit.slope, fit.intercept) + Sum(Products(gap, gap))
  {
    var n, s, t := |v|, FitLine(v).slope, FitLine(v).intercept;
    var r := Residuals(v, s, t);
    ErrorSum(v, s, t, a, b);
    FitBalances(v);
    ResidualsOrthogonal(v);
    SumScaleZero(2.0 * (s - a), Products(Indices(n), r));
    SumScaleZero(2.0 * (t - b), r);
  }

  /** Of all lines the fitted one has the least squared error, and it alone has it. */
  lemma LeastSquares(v: seq<real>, a: real, b: real)
    requires |v| >= 2
    ensures var fit := FitLine(v);
      && SquaredError(v, fit.slope, fit.intercept) <= SquaredError(v, a, b)
      && (SquaredError(v, fit.slope, fit.intercept) == SquaredError(v, a, b) <==> fit == Fit(a, b))
  {
    var fit := FitLine(v);
    var gap := Line(fit.slope - a, fit.intercept - b, |v|);
    ErrorBeyondFit(v, a, b);
    SumOfSquares(gap);
    assert gap[0] == (fit.slope - a) * 0.0 + (fit.intercept - b);
    assert gap[1] == (fit.slope - a) * 1.0 + (fit.intercept - b);
    if fit == Fit(a, b) {
      forall i | 0 <= i < |v| ensures gap[i] == 0.0 {
        assert 0.0 * i as real == 0.0;
      }
    }
  }

  lemma TotalDeviationIsLevelError(v: seq<real>)
    requires v != []
    ensures TotalDeviation(v) == SquaredError(v, 0.0, YMean(v))
  {
    var ym := YMean(v);
    forall i | 0 <= i < |v| ensures Residuals(v, 0.0, ym)[i] == Shift(v, ym)[i] {
      assert 0.0 * i as real == 0.0;
    }
    assert Residuals(v, 0.0, ym) == Shift(v, ym);
  }

  /** The clamp of r2 at zero never acts: the score is the plain ratio, between zero and one. */
  lemma ScoreNeedsNoClamp(v: seq<real>, steps: nat)
    requires |v| >= 2
    ensures var fit, f := FitLine(v), LinearTrendForecast(v, steps);
      var ssTot, ssRes := TotalDeviation(v), SquaredError(v, fit.slope, fit.intercept);
      && 0.0 <= ssRes <= ssTot
      && 0.0 <= f.r2 <= 1.0
      && (ssTot > 0.0 ==> f.r2 == 1.0 - ssRes / ssTot)
      && (f.r2 == 1.0 <==> ssTot > 0.0 && ssRes == 0.0)
  {
    var fit := FitLine(v);
    var ssTot, ssRes := TotalDeviation(v), SquaredError(v, fit.slope, fit.intercept);
    LeastSquares(v, 0.0, YMean(v));
    TotalDeviationIsLevelError(v);
    SumOfSquares(Residuals(v, fit.slope, fit.intercept));
    if ssTot > 0.0 {
      Ratio(ssRes, ssTot);
    }
  }

  lemma Ratio(x: real, y: real)
    requires 0.0 <= x <= y && y > 0.0
    ensures 0.0 <= x / y <= 1.0 && (x / y == 0.0 <==> x == 0.0)
  {
    DivideMultiply(x, y);
  }

  /** With fewer than two values the one there is, or zero, is repeated; the score is zero. */
  lemma TooFewForATrend(v: seq<real>, steps: nat)
    requires |v| < 2
    ensures var f := LinearTrendForecast(v, steps);
      && |f.predictions| == steps && f.r2 == 0.0 && f.variance == 0.0
      && forall i :: 0 <= i < steps ==> f.predictions[i] == if |v| == 1 then v[0] else 0.0
  {
  }

  /** The variance spreads the squared error over all values but two, or all of it over one. */
  lemma VarianceIsErrorPerFreedom(v: seq<real>, steps: nat)
    requires |v| >= 2
    ensures var fit, f := FitLine(v), LinearTrendForecast(v, steps);
      var error := SquaredError(v, fit.slope, fit.intercept);
      (|v| == 2 ==> f.variance == error) && (|v| > 2 ==> f.variance * (|v| - 2) as real == error)
  {
    var fit := FitLine(v);
    DivideMultiply(SquaredError(v, fit.slope, fit.intercept), (if |v| > 2 then |v| - 2 else 1) as real);
  }

  ghost predicate OnLine(v: seq<real>, a: real, b: real) {
    forall i :: 0 <= i < |v| ==> v[i] == a * i as real + b
  }

  lemma NoErrorOnLine(v: seq<real>, a: real, b: real)
    requires OnLine(v, a, b)
    ensures SquaredError(v, a, b) == 0.0
  {
    var r := Residuals(v, a, b);
    forall i | 0 <= i < |r| ensures r[i] == 0.0 {
      assert v[i] == a * i as real + b;
    }
    SumOfSquares(r);
  }

  lemma FitOfLine(v: seq<real>, a: real, b: real)
    requires |v| >= 2 && OnLine(v, a, b)
    ensures FitLine(v) == Fit(a, b) && SquaredError(v, a, b) == 0.0
  {
    var fit := FitLine(v);
    NoErrorOnLine(v, a, b);
    SumOfSquares(Residuals(v, fit.slope, fit.intercept));
    LeastSquares(v, a, b);
  }

  lemma LevelLine(v: seq<real>, a: real, b: real)
    requires |v| >= 2 && OnLine(v, a, b)
    ensures TotalDeviation(v) == 0.0 <==> a == 0.0
    ensures TotalDeviation(v) >= 0.0
  {
    var ym := YMean(v);
    SumOfSquares(Shift(v, ym));
    assert v[0] == a * 0.0 + b && v[1] == a * 1.0 + b;
    if a == 0.0 {
      forall i | 0 <= i < |v| ensures v[i] == v[0] {
        assert v[i] == a * i as real + b;
      }
      MeanOfConstant(v);
    } else {
      assert Shift(v, ym)[0] != Shift(v, ym)[1];
    }
  }

  lemma MeanOfConstant(v: seq<real>)
    requires v != [] && forall i :: 0 <= i < |v| ==> v[i] == v[0]
    ensures YMean(v) == v[0]
  {
    SumConstant(v[0], |v|);
    assert v == Constant(v[0], |v|);
    MultiplyDivide(v[0], |v| as real, Sum(v));
  }

  lemma MultiplyDivide(x: real, y: real, xy: real)
    requires y != 0.0 && xy == x * y
    ensures xy / y == x
  {
  }

  /** Values on a line are continued on that line, with no spread. */
  lemma AffineIsExtrapolated(v: seq<real>, steps: nat, a: real, b: real)
    requires |v| >= 2 && OnLine(v, a, b)
    ensures var f := LinearTrendForecast(v, steps);
      && |f.predictions| == steps
      && (forall i :: 0 <= i < steps ==> f.predictions[i] == a * (|v| + i) as real + b)
      && f.variance == 0.0
      && f.r2 == (if a == 0.0 then 0.0 else 1.0)
  {
    FitOfLine(v, a, b);
    LevelLine(v, a, b);
    ScoreNeedsNoClamp(v, steps);
  }
}
