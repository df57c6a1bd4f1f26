/** The rolling metrics of `calculate_metrics` and the trend label shown beside them.
    Arithmetic is over `real`: floating-point rounding is not modelled. The square
    root of the rolling standard deviation is foreign numerics and is passed in as
    `sqrt`; the properties that need it state what they assume of it. */
module Indicators {
  import opened Market

  /** Length of the rolling window: 12 ticks of 5 seconds, one minute. */
  const MaWindow: nat := 12

  function Sum(s: seq<real>): real
  {
    if s == [] then 0.0 else Sum(s[..|s| - 1]) + s[|s| - 1]
  }

  function Mean(s: seq<real>): real
    requires s != []
  {
    Sum(s) / |s| as real
  }

  /** The sum of squared deviations of `s` from `m`. */
  function SquaredDeviations(s: seq<real>, m: real): real
  {
    if s == [] then 0.0
    else SquaredDeviations(s[..|s| - 1], m) + (s[|s| - 1] - m) * (s[|s| - 1] - m)
  }

  /** The sample variance (one degree of freedom removed), as `rolling(12).std()` squares. */
  function SampleVariance(s: seq<real>): real
    requires |s| >= 2
  {
    SquaredDeviations(s, Mean(s)) / (|s| - 1) as real
  }

  /** The last 12 prices of the frame. */
  function Trailing(window: seq<Tick>): (last12: seq<real>)
    requires |window| >= MaWindow
    ensures |last12| == MaWindow
    ensures forall i :: 0 <= i < MaWindow ==> last12[i] == window[|window| - MaWindow + i].price
  {
    Prices(window)[|window| - MaWindow..]
  }

  /** The metrics dictionary: latest price, percent change, 12-tick moving average and
      the bands two standard deviations either side of it. */
  datatype Metrics = Metrics(price: real, changePct: Option<real>, ma12: real, upperBand: real, lowerBand: real)

  /** `(latest - previous) / previous * 100`; `None` for a previous price of 0,
      where the floating-point division gives an infinite or NaN value. */
  function ChangePct(previous: real, latest: real): Option<real>
  {
    if previous == 0.0 then None else Some((latest - previous) / previous * 100.0)
  }

  /** `calculate_metrics` on a window of at least 12 rows, the only windows the driver
      passes it. Shorter windows give `None` here; the code itself raises on 0 or 1 row
      and gives a NaN moving average and NaN bands on 2 to 11 rows. */
  function CalculateMetrics(window: seq<Tick>, sqrt: real -> real): (m: Option<Metrics>)
    ensures m.Some? <==> |window| >= MaWindow
    ensures m.Some? ==> m.value.price == window[|window| - 1].price
  {
    if |window| < MaWindow then None
    else
      var n := |window|;
      var last12 := Trailing(window);
      var ma := Mean(last12);
      var sd := sqrt(SampleVariance(last12));
      Some(Metrics(window[n - 1].price, ChangePct(window[n - 2].price, window[n - 1].price),
                   ma, ma + 2.0 * sd, ma - 2.0 * sd))
  }

  datatype Trend = Bullish | Bearish

  /** The TREND box: "Bullish" when the price is above the moving average. */
  function TrendOf(m: Metrics): Trend
  {
    if m.price > m.ma12 then Bullish else Bearish
  }

  // ---------------------------------------------------------------- sums

  /** A sum of values none below `lo` is at least `n*lo`. */
  lemma {:induction false} SumAtLeast(s: seq<real>, lo: real)
    requires forall i :: 0 <= i < |s| ==> lo <= s[i]
    ensures |s| as real * lo <= Sum(s)
  {
    if s != [] {
      var n := |s|;
      SumAtLeast(s[..n - 1], lo);
      assert (n - 1) as real * lo + lo == n as real * lo;
    }
  }

  /** A sum of values none above `hi` is at most `n*hi`. */
  lemma {:induction false} SumAtMost(s: seq<real>, hi: real)
    requires forall i :: 0 <= i < |s| ==> s[i] <= hi
    ensures Sum(s) <= |s| as real * hi
  {
    if s != [] {
      var n := |s|;
      SumAtMost(s[..n - 1], hi);
      assert (n - 1) as real * hi + hi == n as real * hi;
    }
  }

  /** A sum of values all strictly above `lo` is strictly above `n*lo`. */
  lemma {:induction false} SumAbove(s: seq<real>, lo: real)
    requires s != []
    requires forall i :: 0 <= i < |s| ==> lo < s[i]
    ensures |s| as real * lo < Sum(s)
  {
    var n := |s|;
    if n > 1 {
      SumAbove(s[..n - 1], lo);
    }
    assert (n - 1) as real * lo + lo == n as real * lo;
  }

  /** A sum of values all strictly below `hi` is strictly below `n*hi`. */
  lemma {:induction false} SumBelow(s: seq<real>, hi: real)
    requires s != []
    requires forall i :: 0 <= i < |s| ==> s[i] < hi
    ensures Sum(s) < |s| as real * hi
  {
    var n := |s|;
    if n > 1 {
      SumBelow(s[..n - 1], hi);
    }
    assert (n - 1) as real * hi + hi == n as real * hi;
  }

  /** The sum of `n` copies of `p` is `n*p`. */
  lemma {:induction false} SumConstant(s: seq<real>, p: real)
    requires forall i :: 0 <= i < |s| ==> s[i] == p
    ensures Sum(s) == |s| as real * p
  {
    if s != [] {
      var n := |s|;
      SumConstant(s[..n - 1], p);
      assert (n - 1) as real * p + p == n as real * p;
    }
  }

  /** Squared deviations never sum to a negative number. */
  lemma {:induction false} SquaredDeviationsNonNegative(s: seq<real>, m: real)
    ensures SquaredDeviations(s, m) >= 0.0
  {
    if s != [] {
      SquaredDeviationsNonNegative(s[..|s| - 1], m);
      var d := s[|s| - 1] - m;
      assert d * d >= 0.0;
    }
  }

  /** Values that all equal `m` do not deviate from it. */
  lemma {:induction false} SquaredDeviationsConstant(s: seq<real>, m: real)
    requires forall i :: 0 <= i < |s| ==> s[i] == m
    ensures SquaredDeviations(s, m) == 0.0
  {
    if s != [] {
      SquaredDeviationsConstant(s[..|s| - 1], m);
    }
  }

  // ---------------------------------------------------------------- the mean

  /** The mean lies within any bounds of its values. */
  lemma MeanWithinBounds(s: seq<real>, lo: real, hi: real)
    requires s != []
    requires forall i :: 0 <= i < |s| ==> lo <= s[i] <= hi
    ensures lo <= Mean(s) <= hi
  {
    SumAtLeast(s, lo);
    SumAtMost(s, hi);
    var n := |s| as real;
    assert Mean(s) * n == Sum(s);
  }

  /** The mean lies between the smallest and the largest of its values: some value is at
      or below it and some value is at or above it. */
  lemma MeanBetweenExtremes(s: seq<real>)
    requires s != []
    ensures exists i :: 0 <= i < |s| && s[i] <= Mean(s)
    ensures exists j :: 0 <= j < |s| && Mean(s) <= s[j]
  {
    var n := |s| as real;
    assert Mean(s) * n == Sum(s);
    if forall i :: 0 <= i < |s| ==> Mean(s) < s[i] {
      SumAbove(s, Mean(s));
      assert false;
    }
    if forall j :: 0 <= j < |s| ==> s[j] < Mean(s) {
      SumBelow(s, Mean(s));
      assert false;
    }
  }

  /** The mean of `n` copies of `p` is `p`. */
  lemma MeanConstant(s: seq<real>, p: real)
    requires s != []
    requires forall i :: 0 <= i < |s| ==> s[i] == p
    ensures Mean(s) == p
  {
    SumConstant(s, p);
  }

  // ---------------------------------------------------------------- metrics

  /** The 12-tick moving average lies between the lowest and the highest of the last 12
      prices and within any bounds they share. */
  lemma MovingAverageBounds(window: seq<Tick>, sqrt: real -> real, lo: real, hi: real)
    requires |window| >= MaWindow
    requires forall i :: |window| - MaWindow <= i < |window| ==> lo <= window[i].price <= hi
    ensures var m := CalculateMetrics(window, sqrt).value;
      && lo <= m.ma12 <= hi
      && (exists i :: |window| - MaWindow <= i < |window| && window[i].price <= m.ma12)
      && (exists j :: |window| - MaWindow <= j < |window| && m.ma12 <= window[j].price)
  {
    var last12 := Trailing(window);
    var base := |window| - MaWindow;
    MeanWithinBounds(last12, lo, hi);
    MeanBetweenExtremes(last12);
    var i :| 0 <= i < |last12| && last12[i] <= Mean(last12);
    assert window[base + i].price == last12[i];
    var j :| 0 <= j < |last12| && Mean(last12) <= last12[j];
    assert window[base + j].price == last12[j];
  }

  /** With a square root that is never negative, the bands sit symmetrically around the
      moving average: lower <= ma <= upper. */
  lemma BandsBracketMean(window: seq<Tick>, sqrt: real -> real)
    requires |window| >= MaWindow
    requires sqrt(SampleVariance(Trailing(window))) >= 0.0
    ensures var m := CalculateMetrics(window, sqrt).value;
      && m.lowerBand <= m.ma12 <= m.upperBand
      && m.upperBand - m.ma12 == m.ma12 - m.lowerBand
  {
  }

  /** The variance the bands are built from is never negative. */
  lemma VarianceNonNegative(window: seq<Tick>)
    requires |window| >= MaWindow
    ensures SampleVariance(Trailing(window)) >= 0.0
  {
    var last12 := Trailing(window);
    SquaredDeviationsNonNegative(last12, Mean(last12));
  }

  /** When the last 12 prices all equal `p`, the moving average is `p`, the variance is 0,
      both bands collapse onto `p` (given sqrt(0) = 0) and the trend reads "Bearish". */
  lemma FlatWindow(window: seq<Tick>, sqrt: real -> real, p: real)
    requires |window| >= MaWindow
    requires forall i :: |window| - MaWindow <= i < |window| ==> window[i].price == p
    requires sqrt(0.0) == 0.0
    ensures SampleVariance(Trailing(window)) == 0.0
    ensures var m := CalculateMetrics(window, sqrt).value;
      && m.ma12 == p
      && m.upperBand == p
      && m.lowerBand == p
      && TrendOf(m) == Bearish
  {
    var last12 := Trailing(window);
    MeanConstant(last12, p);
    SquaredDeviationsConstant(last12, p);
  }

  /** A latest price strictly above each of the 11 before it reads "Bullish". */
  lemma NewHighIsBullish(window: seq<Tick>, sqrt: real -> real)
    requires |window| >= MaWindow
    requires forall i :: |window| - MaWindow <= i < |window| - 1 ==> window[i].price < window[|window| - 1].price
    ensures TrendOf(CalculateMetrics(window, sqrt).value) == Bullish
  {
    var last12 := Trailing(window);
    var latest := window[|window| - 1].price;
    var older := last12[..MaWindow - 1];
    SumBelow(older, latest);
    assert last12[..|last12| - 1] == older;
    assert Sum(last12) < 12.0 * latest;
  }

  /** A latest price at or below each of the 11 before it reads "Bearish". */
  lemma NewLowIsBearish(window: seq<Tick>, sqrt: real -> real)
    requires |window| >= MaWindow
    requires forall i :: |window| - MaWindow <= i < |window| - 1 ==> window[|window| - 1].price <= window[i].price
    ensures TrendOf(CalculateMetrics(window, sqrt).value) == Bearish
  {
    var last12 := Trailing(window);
    var latest := window[|window| - 1].price;
    SumAtLeast(last12, latest);
    assert Sum(last12) >= 12.0 * latest;
  }

  /** The percent change is positive exactly when the price rose, zero exactly when it
      stayed, for a positive previous price. */
  lemma ChangePctSign(previous: real, latest: real)
    requires previous > 0.0
    ensures ChangePct(previous, latest).Some?
    ensures ChangePct(previous, latest).value > 0.0 <==> latest > previous
    ensures ChangePct(previous, latest).value == 0.0 <==> latest == previous
  {
    var q := (latest - previous) / previous;
    assert q * previous == latest - previous;
  }

  /** The metrics' percent change compares the latest row with the row just before it,
      not with any earlier one: for a positive previous price it exists, times that price
      it is 100 times the move, and its sign is the direction of the move. */
  lemma ChangeVsPrevious(window: seq<Tick>, sqrt: real -> real)
    requires |window| >= MaWindow
    requires window[|window| - 2].price > 0.0
    ensures var m := CalculateMetrics(window, sqrt).value;
      var previous, latest := window[|window| - 2].price, window[|window| - 1].price;
      && m.changePct.Some?
      && m.changePct.value * previous == (latest - previous) * 100.0
      && (m.changePct.value > 0.0 <==> latest > previous)
      && (m.changePct.value == 0.0 <==> latest == previous)
  {
    var previous, latest := window[|window| - 2].price, window[|window| - 1].price;
    ChangePctSign(previous, latest);
    var q := (latest - previous) / previous;
    assert q * previous == latest - previous;
    assert q * 100.0 * previous == (latest - previous) * 100.0;
  }
}
