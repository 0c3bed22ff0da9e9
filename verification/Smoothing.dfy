/** Forecasting by exponential smoothing, over the reals and before rounding: what it bounds, and what it cannot follow. */
module Smoothing {

  function Times(x: real, y: real): real {
    x * y
  }

  function Over(x: real, k: nat): real
    requires k > 0
  {
    x / k as real
  }

  /** One step of smoothing. */
  function Blend(alpha: real, v: real, s: real): real {
    alpha * v + (1.0 - alpha) * s
  }

  function Smoothed(values: seq<real>, alpha: real): (r: seq<real>)
    requires values != []
    ensures |r| == |values|
  {
    var n := |values| - 1;
    if n == 0 then values else Smoothed(values[..n], alpha) + [Blend(alpha, values[n], Smoothed(values[..n], alpha)[n - 1])]
  }

  /** How many of the last differences the trend averages. */
  function Span(n: nat): nat {
    if n <= 5 then (if n == 0 then 0 else n - 1) else 5
  }

  /** The mean of the last differences is the slope of one chord. */
  function Trend(smoothed: seq<real>): real
    requires smoothed != []
  {
    var n, k := |smoothed|, Span(|smoothed|);
    if k == 0 then 0.0 else Over(smoothed[n - 1] - smoothed[n - 1 - k], k)
  }

  /** The differences from one value to the next, from the `i`-th value on, added up. */
  ghost function DifferencesFrom(s: seq<real>, i: nat): real
    requires 0 < i <= |s|
    decreases |s| - i
  {
    if i == |s| then 0.0 else s[i] - s[i - 1] + DifferencesFrom(s, i + 1)
  }

  lemma {:induction false} DifferencesTelescope(s: seq<real>, i: nat)
    requires 0 < i <= |s|
    ensures DifferencesFrom(s, i) == s[|s| - 1] - s[i - 1]
    decreases |s| - i
  {
    if i < |s| {
      DifferencesTelescope(s, i + 1);
    }
  }

  /** The trend is the mean of the last five differences, or of all of them if there are fewer; and zero if there are none. */
  lemma TrendIsMeanDifference(s: seq<real>)
    requires s != []
    ensures |s| == 1 ==> Trend(s) == 0.0
    ensures 1 < |s| <= 6 ==> Trend(s) == Over(DifferencesFrom(s, 1), |s| - 1)
    ensures |s| > 6 ==> Trend(s) == Over(DifferencesFrom(s, |s| - 5), 5)
  {
    if |s| > 6 {
      DifferencesTelescope(s, |s| - 5);
    } else {
      DifferencesTelescope(s, 1);
    }
  }

  /** The forecast for the step `h` steps after the last value, before it is cut off at zero. */
  function Ahead(values: seq<real>, alpha: real, h: nat): real
    requires values != []
  {
    var s := Smoothed(values, alpha);
    s[|s| - 1] + Times(Trend(s), h as real)
  }

  function AtLeastZero(x: real): real {
    if x < 0.0 then 0.0 else x
  }

  method Smooth(values: seq<real>, alpha: real) returns (smoothed: seq<real>)
    requires values != []
    ensures smoothed == Smoothed(values, alpha)
  {
    smoothed := [values[0]];
    var i := 1;
    assert values[..1] == [values[0]];
    while i < |values|
      invariant 1 <= i <= |values| && smoothed == Smoothed(values[..i], alpha)
    {
      assert values[..i + 1][..i] == values[..i];
      smoothed := smoothed + [Blend(alpha, values[i], smoothed[|smoothed| - 1])];
      i := i + 1;
    }
    assert values[..i] == values;
  }

  /** Adds up the last differences one by one; all but the ends cancel. */
  method MeanDifference(smoothed: seq<real>) returns (trend: real)
    requires smoothed != []
    ensures trend == Trend(smoothed)
  {
    trend := 0.0;
    var n := |smoothed|;
    if n >= 2 {
      var first := if n - 5 > 1 then n - 5 else 1;
      var i, sum := first, 0.0;
      while i < n
        invariant first <= i <= n && sum == smoothed[i - 1] - smoothed[first - 1]
      {
        sum := sum + (smoothed[i] - smoothed[i - 1]);
        i := i + 1;
      }
      trend := Over(sum, n - first);
    }
  }

  method ExponentialSmoothingForecast(values: seq<real>, steps: nat, alpha: real) returns (predictions: seq<real>)
    ensures |predictions| == steps
    ensures forall i :: 0 <= i < steps ==>
      predictions[i] == if values == [] then 0.0 else AtLeastZero(Ahead(values, alpha, i + 1))
  {
    if values == [] {
      return seq(steps, i => 0.0);
    }
    var smoothed := Smooth(values, alpha);
    var trend := MeanDifference(smoothed);
    var level := smoothed[|smoothed| - 1];
    predictions := [];
    while |predictions| < steps
      invariant |predictions| <= steps
      invariant forall i :: 0 <= i < |predictions| ==> predictions[i] == AtLeastZero(Ahead(values, alpha, i + 1))
    {
      predictions := predictions + [AtLeastZero(level + Times(trend, (|predictions| + 1) as real))];
    }
  }

  // ---------------------------------------------------------------------------- bounds

  lemma TimesNonnegative(x: real, y: real)
    requires x >= 0.0 && y >= 0.0
    ensures Times(x, y) >= 0.0
  {
  }

  lemma Distributes(x: real, y: real, r: real)
    ensures Times(x + y, r) == Times(x, r) + Times(y, r)
  {
  }

  lemma Shrinks(q: real, d: real)
    requires 0.0 <= q <= 1.0 && 0.0 <= d
    ensures 0.0 <= Times(q, d) <= d
  {
    TimesNonnegative(q, d);
    TimesNonnegative(1.0 - q, d);
    Distributes(q, 1.0 - q, d);
  }

  lemma BlendForms(alpha: real, v: real, s: real)
    ensures Blend(alpha, v, s) == s + Times(alpha, v - s)
    ensures Blend(alpha, v, s) == s - Times(alpha, s - v)
    ensures Blend(alpha, v, s) == v - Times(1.0 - alpha, v - s)
  {
  }

  lemma BlendBetween(alpha: real, v: real, s: real, lo: real, hi: real)
    requires 0.0 <= alpha <= 1.0 && lo <= v <= hi && lo <= s <= hi
    ensures lo <= Blend(alpha, v, s) <= hi
  {
    BlendForms(alpha, v, s);
    if v <= s {
      Shrinks(alpha, s - v);
    } else {
      Shrinks(alpha, v - s);
    }
  }

  /** Smoothing never leaves the range of the values. */
  lemma {:induction false} SmoothedWithin(values: seq<real>, alpha: real, lo: real, hi: real)
    requires values != [] && 0.0 <= alpha <= 1.0
    requires forall i :: 0 <= i < |values| ==> lo <= values[i] <= hi
    ensures forall i :: 0 <= i < |values| ==> lo <= Smoothed(values, alpha)[i] <= hi
  {
    var n := |values| - 1;
    if n > 0 {
      SmoothedWithin(values[..n], alpha, lo, hi);
      BlendBetween(alpha, values[n], Smoothed(values[..n], alpha)[n - 1], lo, hi);
    }
  }

  // ------------------------------------------------------------------------ following a line

  function Line(a: real, b: real, t: nat): real {
    a + Times(b, t as real)
  }

  predicate OnLine(values: seq<real>, a: real, b: real) {
    forall i :: 0 <= i < |values| ==> values[i] == Line(a, b, i)
  }

  /** How many steps of the line smoothing lags behind after `i` of them. */
  function Lag(q: real, i: nat): real {
    if i == 0 then 0.0 else Times(q, 1.0 + Lag(q, i - 1))
  }

  lemma Scales(q: real, x: real, y: real)
    requires 0.0 <= q && 0.0 < x <= y
    ensures 0.0 <= Times(q, x) <= Times(q, y)
    ensures (q > 0.0 ==> Times(q, x) > 0.0) && (q == 0.0 ==> Times(q, x) == 0.0)
  {
  }

  lemma {:induction false} LagGrows(q: real, i: nat)
    requires 0.0 <= q
    ensures 0.0 <= Lag(q, i) <= Lag(q, i + 1)
    ensures q > 0.0 && i > 0 ==> Lag(q, i) > 0.0
    ensures q == 0.0 ==> Lag(q, i) == 0.0
  {
    if i > 0 {
      LagGrows(q, i - 1);
      Scales(q, 1.0 + Lag(q, i - 1), 1.0 + Lag(q, i));
    }
  }

  lemma {:induction false} LagGrowsOver(q: real, i: nat, k: nat)
    requires 0.0 <= q
    ensures Lag(q, i) <= Lag(q, i + k)
  {
    if k > 0 {
      LagGrowsOver(q, i, k - 1);
      LagGrows(q, i + k - 1);
    }
  }

  lemma NextOnLine(a: real, b: real, t: nat, lag: real)
    ensures Line(a, b, t + 1) - (Line(a, b, t) - Times(b, lag)) == Times(b, 1.0 + lag)
  {
  }

  lemma Swap(q: real, b: real, x: real)
    ensures Times(q, Times(b, x)) == Times(b, Times(q, x))
  {
  }

  /** On a line, the smoothed value is short of the true one by the lag. */
  lemma {:induction false} SmoothedLags(values: seq<real>, alpha: real, a: real, b: real, i: nat)
    requires i < |values| && OnLine(values, a, b)
    ensures Smoothed(values, alpha)[i] == values[i] - Times(b, Lag(1.0 - alpha, i))
  {
    var n, q := |values| - 1, 1.0 - alpha;
    if i < n {
      SmoothedLags(values[..n], alpha, a, b, i);
    } else if n > 0 {
      SmoothedLags(values[..n], alpha, a, b, n - 1);
      var s := Smoothed(values[..n], alpha)[n - 1];
      BlendForms(alpha, values[n], s);
      NextOnLine(a, b, n - 1, Lag(q, n - 1));
      Swap(q, b, 1.0 + Lag(q, n - 1));
    }
  }

  /** How far behind a line the forecast for `h` steps ahead is, in steps of the line, after `n` values. */
  function Shortfall(q: real, n: nat, h: nat): real
    requires n > 0
  {
    var k := Span(n);
    if k == 0 then h as real
    else Lag(q, n - 1) + Times(Over(Lag(q, n - 1) - Lag(q, n - 1 - k), k), h as real)
  }

  lemma Cancel(u: real, v: real, r: real)
    requires r > 0.0 && Times(u, r) == Times(v, r)
    ensures u == v
  {
    assert (u - v) * r == 0.0;
  }

  lemma OverTimesBack(x: real, k: nat)
    requires k > 0
    ensures Times(Over(x, k), k as real) == x
  {
  }

  lemma OverRest(x: real, k: nat)
    requires k > 0
    ensures Over(k as real - x, k) == 1.0 - Over(x, k)
  {
    var r := k as real;
    OverTimesBack(x, k);
    OverTimesBack(r - x, k);
    Distributes(Over(r - x, k), Over(x, k), r);
    Cancel(Over(r - x, k) + Over(x, k), 1.0, r);
  }

  lemma ChordOnLine(a: real, b: real, t: nat, k: nat, late: real, early: real)
    requires k > 0 && t >= k
    ensures Over((Line(a, b, t) - Times(b, late)) - (Line(a, b, t - k) - Times(b, early)), k)
         == Times(b, 1.0 - Over(late - early, k))
  {
    assert Times(b, t as real) - Times(b, (t - k) as real) == Times(b, k as real);
    assert Times(b, k as real) - Times(b, late) + Times(b, early) == Times(b, k as real - (late - early));
    OverTimes(b, k as real - (late - early), k);
    OverRest(late - early, k);
  }

  lemma OverTimes(b: real, x: real, k: nat)
    requires k > 0
    ensures Over(Times(b, x), k) == Times(b, Over(x, k))
  {
  }

  lemma AheadOnLine(a: real, b: real, t: nat, h: nat, lag: real, grown: real)
    ensures Line(a, b, t) - Times(b, lag) + Times(Times(b, 1.0 - grown), h as real)
         == Line(a, b, t + h) - Times(b, lag + Times(grown, h as real))
  {
    var g := Times(grown, h as real);
    assert Times(Times(b, 1.0 - grown), h as real) == Times(b, h as real - g);
    assert Times(b, (t + h) as real) == Times(b, t as real) + Times(b, h as real);
  }

  lemma AheadFromChord(s: seq<real>, a: real, b: real, h: nat, late: real, early: real)
    requires |s| > 1 && s[|s| - 1] == Line(a, b, |s| - 1) - Times(b, late)
    requires var i := |s| - 1 - Span(|s|); s[i] == Line(a, b, i) - Times(b, early)
    ensures s[|s| - 1] + Times(Trend(s), h as real)
         == Line(a, b, |s| - 1 + h) - Times(b, late + Times(Over(late - early, Span(|s|)), h as real))
  {
    ChordOnLine(a, b, |s| - 1, Span(|s|), late, early);
    AheadOnLine(a, b, |s| - 1, h, late, Over(late - early, Span(|s|)));
  }

  /** Along a line the forecast is behind by a fixed number of its steps, whatever the line. */
  lemma ForecastFallsShort(values: seq<real>, alpha: real, a: real, b: real, h: nat)
    requires values != [] && OnLine(values, a, b)
    ensures Ahead(values, alpha, h) == Line(a, b, |values| - 1 + h) - Times(b, Shortfall(1.0 - alpha, |values|, h))
  {
    var n, k, q := |values|, Span(|values|), 1.0 - alpha;
    SmoothedLags(values, alpha, a, b, n - 1);
    if k > 0 {
      SmoothedLags(values, alpha, a, b, n - 1 - k);
      AheadFromChord(Smoothed(values, alpha), a, b, h, Lag(q, n - 1), Lag(q, n - 1 - k));
    } else {
      AloneOnLine(a, b, h);
    }
  }

  lemma AloneOnLine(a: real, b: real, h: nat)
    ensures Line(a, b, 0) - Times(b, 0.0) + Times(0.0, h as real) == Line(a, b, h) - Times(b, h as real)
  {
  }

  lemma OverNonnegative(x: real, k: nat, h: nat)
    requires k > 0 && x >= 0.0
    ensures Times(Over(x, k), h as real) >= 0.0
  {
    assert Over(x, k) >= 0.0;
  }

  lemma ShortfallSign(q: real, n: nat, h: nat)
    requires n > 0 && h > 0 && q >= 0.0
    ensures Shortfall(q, n, h) >= 0.0
    ensures Shortfall(q, n, h) == 0.0 <==> q == 0.0 && n > 1
  {
    var k := Span(n);
    if k > 0 {
      LagGrows(q, n - 1);
      LagGrows(q, n - 1 - k);
      LagGrowsOver(q, n - 1 - k, k);
      OverNonnegative(Lag(q, n - 1) - Lag(q, n - 1 - k), k, h);
    }
  }

  lemma TimesSign(b: real, x: real)
    requires x >= 0.0
    ensures Times(b, x) == 0.0 <==> b == 0.0 || x == 0.0
    ensures b >= 0.0 ==> Times(b, x) >= 0.0
    ensures b <= 0.0 ==> Times(b, x) <= 0.0
  {
  }

  /**
   * Before the cut at zero a line is continued exactly when it is flat, or when nothing is smoothed and there are two
   * values to tell its slope; otherwise a rising line is forecast too low, and a falling one too high.
   */
  lemma AheadFollowsIff(values: seq<real>, alpha: real, a: real, b: real, h: nat)
    requires values != [] && OnLine(values, a, b) && h > 0 && 0.0 <= alpha <= 1.0
    ensures Ahead(values, alpha, h) == Line(a, b, |values| - 1 + h) <==> b == 0.0 || (alpha == 1.0 && |values| > 1)
    ensures b >= 0.0 ==> Ahead(values, alpha, h) <= Line(a, b, |values| - 1 + h)
    ensures b <= 0.0 ==> Ahead(values, alpha, h) >= Line(a, b, |values| - 1 + h)
  {
    ForecastFallsShort(values, alpha, a, b, h);
    ShortfallSign(1.0 - alpha, |values|, h);
    TimesSign(b, Shortfall(1.0 - alpha, |values|, h));
  }

  /**
   * A prediction continues a line exactly when the line is not below zero there, and is followed before the cut or
   * rises to zero just there.
   */
  lemma FollowsLineIff(values: seq<real>, alpha: real, a: real, b: real, h: nat)
    requires values != [] && OnLine(values, a, b) && h > 0 && 0.0 <= alpha <= 1.0
    ensures var line := Line(a, b, |values| - 1 + h);
      && (AtLeastZero(Ahead(values, alpha, h)) == line
          <==> line >= 0.0 && (b == 0.0 || (alpha == 1.0 && |values| > 1) || (line == 0.0 && b > 0.0)))
      && (line < 0.0 || b <= 0.0 ==> AtLeastZero(Ahead(values, alpha, h)) >= line)
      && (line >= 0.0 && b >= 0.0 ==> AtLeastZero(Ahead(values, alpha, h)) <= line)
  {
    AheadFollowsIff(values, alpha, a, b, h);
  }

  lemma LineRises(a: real, b: real, t: nat, k: nat)
    ensures b > 0.0 && k > 0 ==> Line(a, b, t) < Line(a, b, t + k)
    ensures b >= 0.0 ==> Line(a, b, t) <= Line(a, b, t + k)
    ensures b <= 0.0 ==> Line(a, b, t) >= Line(a, b, t + k)
  {
    LineApart(a, b, t, k);
    TimesSign(b, k as real);
  }

  lemma LineApart(a: real, b: real, t: nat, k: nat)
    ensures Line(a, b, t + k) == Line(a, b, t) + Times(b, k as real)
  {
    assert (t + k) as real == t as real + k as real;
  }

  /**
   * All predictions continue a line exactly when neither the first nor the last of its points there is below zero, and
   * the line is flat, or nothing is smoothed, or there is but one prediction and the line rises to zero just there.
   */
  method ForecastFollowsLine(values: seq<real>, steps: nat, alpha: real, ghost a: real, ghost b: real)
    returns (predictions: seq<real>)
    requires values != [] && OnLine(values, a, b) && steps > 0 && 0.0 <= alpha <= 1.0
    ensures |predictions| == steps
    ensures var n := |values|;
      (forall i :: 0 <= i < steps ==> predictions[i] == Line(a, b, n + i))
      <==> && Line(a, b, n) >= 0.0 && Line(a, b, n + steps - 1) >= 0.0
           && (b == 0.0 || (alpha == 1.0 && n > 1) || (steps == 1 && b > 0.0 && Line(a, b, n) == 0.0))
  {
    predictions := ExponentialSmoothingForecast(values, steps, alpha);
    ghost var n := |values|;
    forall i | 0 <= i < steps
      ensures predictions[i] == Line(a, b, n + i)
        <==> && Line(a, b, n + i) >= 0.0
             && (b == 0.0 || (alpha == 1.0 && n > 1) || (Line(a, b, n + i) == 0.0 && b > 0.0))
      ensures Line(a, b, n) >= 0.0 && Line(a, b, n + steps - 1) >= 0.0 ==> Line(a, b, n + i) >= 0.0
    {
      FollowsLineIff(values, alpha, a, b, i + 1);
      LineRises(a, b, n, i);
      LineRises(a, b, n + i, steps - 1 - i);
    }
    LineRises(a, b, n, steps - 1);
    if steps > 1 && forall i :: 0 <= i < steps ==> predictions[i] == Line(a, b, n + i) {
      assert predictions[0] == Line(a, b, n + 0) && predictions[steps - 1] == Line(a, b, n + (steps - 1));
    }
    assert predictions[0] == Line(a, b, n + 0) ==> Line(a, b, n) >= 0.0;
  }
}
