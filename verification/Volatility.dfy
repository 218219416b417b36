/** Average true range, its recent history, and where the present value stands in it. */
module Volatility {
  import opened Wrappers
  import opened Bars
  import opened Sums
  import Indicators

  function TrueRange(c: Candle, prevClose: real): (r: real)
    ensures c.high - c.low <= r
  {
    Larger(Larger(c.high - c.low, Abs(c.high - prevClose)), Abs(c.low - prevClose))
  }

  function TrueRanges(candles: seq<Candle>): seq<real>
  {
    if |candles| < 2 then []
    else seq(|candles| - 1, i requires 0 <= i < |candles| - 1 => TrueRange(candles[i + 1], candles[i].close))
  }

  function WilderStep(acc: real, tr: real, n: real): real
    requires 0.0 < n
  {
    (acc * (n - 1.0) + tr) / n
  }

  /** Wilder's smoothing of the ranges after the seed. */
  function Smoothed(seed: real, trs: seq<real>, period: nat): real
    requires 0 < period
  {
    if trs == [] then seed
    else WilderStep(Smoothed(seed, trs[..|trs| - 1], period), trs[|trs| - 1], period as real)
  }

  function AtrOf(candles: seq<Candle>, period: nat): Option<real>
  {
    if period == 0 || |candles| <= period then None
    else
      var trs := TrueRanges(candles);
      Some(Smoothed(Sum(trs[..period]) / period as real, trs[period..], period))
  }

  method Atr(candles: seq<Candle>, period: nat) returns (r: Option<real>)
    ensures r == AtrOf(candles, period)
  {
    hide WilderStep, TrueRange;
    if period == 0 || |candles| <= period { return None; }
    var trs := TrueRanges(candles);
    var seed := 0.0;
    for i := 0 to period
      invariant seed == Sum(trs[..i])
    {
      assert trs[..i + 1][..i] == trs[..i];
      seed := seed + trs[i];
    }
    var acc, n := seed / period as real, period as real;
    ghost var rest := trs[period..];
    for i := period to |trs|
      invariant acc == Smoothed(seed / period as real, rest[..i - period], period)
    {
      assert rest[..i + 1 - period][..i - period] == rest[..i - period];
      acc := WilderStep(acc, trs[i], n);
    }
    assert rest[..|trs| - period] == rest;
    r := Some(acc);
  }

  /** One true range spans the bar and the close before it. */
  lemma TrueRangeIsTheSpan(c: Candle, prevClose: real)
    requires c.low <= c.high
    ensures TrueRange(c, prevClose) == Larger(c.high, prevClose) - Lesser(c.low, prevClose)
  {
  }

  lemma StepsAgree(acc: real, last: real, period: nat)
    requires 0 < period
    ensures WilderStep(acc, last, period as real) == Indicators.EmaStep(acc, last, 2 * period - 1)
  {
    var n := period as real;
    assert (2 * period - 1) as real + 1.0 == 2.0 * n;
    var k := 2.0 / (2.0 * n);
    assert k * (2.0 * n) == 2.0;
    assert k * n == 1.0;
    var s := last * k + acc * (1.0 - k);
    assert s * n == last * (k * n) + acc * (n - k * n);
    Indicators.SameQuotient(acc * (n - 1.0) + last, n, s);
  }

  /** Wilder's smoothing over `period` ranges is the exponential average of period 2 * period - 1. */
  lemma {:induction false} WilderIsAnExponentialAverage(seed: real, trs: seq<real>, period: nat)
    requires 0 < period
    ensures Smoothed(seed, trs, period) == Indicators.EmaFrom(seed, trs, 2 * period - 1)
  {
    hide WilderStep, Indicators.EmaStep;
    if trs != [] {
      var n := |trs| - 1;
      WilderIsAnExponentialAverage(seed, trs[..n], period);
      StepsAgree(Smoothed(seed, trs[..n], period), trs[n], period);
    }
  }

  /**
   The average true range in closed form: the mean of the first ranges as seed, and after it a
   share of one over the period of each range, faded by the rest for every range after it.
   */
  lemma AtrIsTheFadingMean(candles: seq<Candle>, period: nat)
    requires 0 < period < |candles|
    ensures var trs := TrueRanges(candles);
      && |trs| == |candles| - 1
      && (forall i | 0 <= i < |trs| :: trs[i] == TrueRange(candles[i + 1], candles[i].close))
      && AtrOf(candles, period) == Some(Indicators.FadingMean(Sum(trs[..period]) / period as real, trs[period..], 1.0 / period as real))
  {
    hide TrueRange, Indicators.FadingMean, Sum, Smoothed;
    var trs := TrueRanges(candles);
    var seed := Sum(trs[..period]) / period as real;
    WilderIsAnExponentialAverage(seed, trs[period..], period);
    Indicators.EmaIsTheFadingMean(seed, trs[period..], 2 * period - 1);
    SameShare(period);
  }

  lemma SameShare(period: nat)
    requires 0 < period
    ensures 2.0 / ((2 * period - 1) as real + 1.0) == 1.0 / period as real
  {
    var n := period as real;
    assert (2 * period - 1) as real + 1.0 == 2.0 * n;
    assert 1.0 / n * n == 1.0;
    Indicators.SameQuotient(2.0, 2.0 * n, 1.0 / n);
  }

  predicate Within(xs: seq<real>, lo: real, hi: real)
  {
    forall i | 0 <= i < |xs| :: lo <= xs[i] <= hi
  }

  lemma {:induction false} SumWithin(xs: seq<real>, lo: real, hi: real)
    requires Within(xs, lo, hi)
    ensures lo * |xs| as real <= Sum(xs) <= hi * |xs| as real
  {
    if xs != [] {
      var n := |xs| - 1;
      SumWithin(xs[..n], lo, hi);
      assert lo * (n + 1) as real == lo * n as real + lo && hi * (n + 1) as real == hi * n as real + hi;
    }
  }

  lemma Quotient(x: real, n: real, lo: real, hi: real)
    requires 0.0 < n && lo * n <= x <= hi * n
    ensures lo <= x / n <= hi
  {
    var q := x / n;
    assert q * n == x;
    assert q < lo ==> (lo - q) * n > 0.0;
    assert q > hi ==> (q - hi) * n > 0.0;
  }

  lemma {:induction false} SmoothingStaysWithin(seed: real, trs: seq<real>, period: nat, lo: real, hi: real)
    requires 0 < period && lo <= seed <= hi && Within(trs, lo, hi)
    ensures lo <= Smoothed(seed, trs, period) <= hi
  {
    hide WilderStep;
    if trs != [] {
      SmoothingStaysWithin(seed, trs[..|trs| - 1], period, lo, hi);
      StepStaysWithin(Smoothed(seed, trs[..|trs| - 1], period), trs[|trs| - 1], period as real, lo, hi);
    }
  }

  lemma StepStaysWithin(acc: real, last: real, n: real, lo: real, hi: real)
    requires 1.0 <= n && lo <= acc <= hi && lo <= last <= hi
    ensures lo <= WilderStep(acc, last, n) <= hi
  {
    Blend(acc, last, n, lo, hi);
    Quotient(acc * (n - 1.0) + last, n, lo, hi);
  }

  lemma Blend(acc: real, last: real, n: real, lo: real, hi: real)
    requires 1.0 <= n && lo <= acc <= hi && lo <= last <= hi
    ensures lo * n <= acc * (n - 1.0) + last <= hi * n
  {
    assert lo * (n - 1.0) <= acc * (n - 1.0) <= hi * (n - 1.0);
    assert lo * (n - 1.0) + lo == lo * n && hi * (n - 1.0) + hi == hi * n;
  }

  /** Wilder's average never leaves the span of the true ranges it averages. */
  lemma AtrStaysWithinTheRanges(candles: seq<Candle>, period: nat, lo: real, hi: real)
    requires 0 < period < |candles| && Within(TrueRanges(candles), lo, hi)
    ensures lo <= AtrOf(candles, period).value <= hi
  {
    hide Smoothed, TrueRange, Sum;
    var trs := TrueRanges(candles);
    assert Within(trs[..period], lo, hi) && Within(trs[period..], lo, hi);
    SumWithin(trs[..period], lo, hi);
    Quotient(Sum(trs[..period]), period as real, lo, hi);
    SmoothingStaysWithin(Sum(trs[..period]) / period as real, trs[period..], period, lo, hi);
  }

  // ---------------------------------------------------------------- percentile rank

  function CountBelow(sample: seq<real>, value: real): (n: nat)
    ensures n <= |sample|
  {
    if sample == [] then 0
    else CountBelow(sample[..|sample| - 1], value) + if sample[|sample| - 1] < value then 1 else 0
  }

  /** The count is of positions, each as good as any other. */
  lemma {:induction false} CountBelowCounts(sample: seq<real>, value: real)
    ensures CountBelow(sample, value) == |set i | 0 <= i < |sample| && sample[i] < value|
  {
    if sample != [] {
      var n := |sample| - 1;
      CountBelowCounts(sample[..n], value);
      var before := set i | 0 <= i < n && sample[..n][i] < value;
      assert (set i | 0 <= i < |sample| && sample[i] < value) == before + if sample[n] < value then {n} else {};
    }
  }

  function PercentileRank(sample: seq<real>, value: real): Option<real>
  {
    if sample == [] then None else Some(CountBelow(sample, value) as real / |sample| as real)
  }

  lemma {:induction false} CountBelowGrows(sample: seq<real>, v: real, w: real)
    requires v <= w
    ensures CountBelow(sample, v) <= CountBelow(sample, w)
    ensures CountBelow(sample, w) == |sample| <==> forall i | 0 <= i < |sample| :: sample[i] < w
    ensures CountBelow(sample, w) == 0 <==> forall i | 0 <= i < |sample| :: w <= sample[i]
  {
    if sample != [] {
      CountBelowGrows(sample[..|sample| - 1], v, w);
      assert forall i | 0 <= i < |sample| - 1 :: sample[..|sample| - 1][i] == sample[i];
    }
  }

  /** A rank is a fraction of the sample, grows with the value, and is one exactly above all of it. */
  lemma RanksAreFractions(sample: seq<real>, v: real, w: real)
    requires sample != [] && v <= w
    ensures 0.0 <= PercentileRank(sample, v).value <= PercentileRank(sample, w).value <= 1.0
    ensures PercentileRank(sample, w) == Some(1.0) <==> forall i | 0 <= i < |sample| :: sample[i] < w
    ensures PercentileRank(sample, w) == Some(0.0) <==> forall i | 0 <= i < |sample| :: w <= sample[i]
  {
    CountBelowGrows(sample, v, w);
    var n := |sample| as real;
    Fraction(CountBelow(sample, v) as real, CountBelow(sample, w) as real, n);
  }

  lemma Fraction(a: real, b: real, n: real)
    requires 0.0 <= a <= b <= n && 0.0 < n
    ensures 0.0 <= a / n <= b / n <= 1.0
    ensures (b / n == 1.0 <==> b == n) && (b / n == 0.0 <==> b == 0.0)
  {
    assert (a / n) * n == a && (b / n) * n == b;
    assert (b / n - a / n) * n == b - a;
  }

  // ---------------------------------------------------------------- the volatility reading

  /** What could be measured; the scorer puts zero and the midpoint in place of what could not. */
  datatype Reading = Reading(atrPct: Option<real>, percentile: Option<real>)

  const UNMEASURED := Reading(None, None)

  function Percent(range: real, price: real): real
    requires 0.0 < price
  {
    range / price * 100.0
  }

  function Point(window: seq<Candle>, period: nat): seq<real>
  {
    var a := AtrOf(window, period);
    if a.None? || window == [] || window[|window| - 1].close <= 0.0 then []
    else [Percent(a.value, window[|window| - 1].close)]
  }

  /** The history over windows that begin at `start` and end before `end + 1`. */
  function History(candles: seq<Candle>, start: nat, end: nat, period: nat): seq<real>
    requires start <= end <= |candles|
    decreases end
  {
    if end < start + period + 1 then []
    else History(candles, start, end - 1, period) + Point(candles[start..end], period)
  }

  function WindowStart(n: nat, window: nat): nat
  {
    if n < window then 0 else n - window
  }

  function VolatilityOf(candles: seq<Candle>, period: nat, window: nat): Reading
  {
    var a := AtrOf(candles, period);
    if a.None? || candles[|candles| - 1].close <= 0.0 then UNMEASURED
    else
      var atrPct := Percent(a.value, candles[|candles| - 1].close);
      Reading(Some(atrPct), PercentileRank(History(candles, WindowStart(|candles|, window), |candles|, period), atrPct))
  }

  method Volatility(candles: seq<Candle>, period: nat, window: nat) returns (atrPct: real, percentile: real)
    ensures atrPct == VolatilityOf(candles, period, window).atrPct.GetOr(0.0)
    ensures percentile == VolatilityOf(candles, period, window).percentile.GetOr(0.5)
  {
    hide AtrOf, Percent, PercentileRank, History;
    var current := Atr(candles, period);
    if current.None? { return 0.0, 0.5; }
    AtrNeedsBars(candles, period);
    var n := |candles|;
    var price := candles[n - 1].close;
    if price <= 0.0 { return 0.0, 0.5; }
    atrPct := Percent(current.value, price);
    var history := RecentHistory(candles, WindowStart(n, window), period);
    percentile := PercentileRank(history, atrPct).GetOr(0.5);
  }

  lemma ShortHistory(candles: seq<Candle>, start: nat, period: nat)
    requires start <= |candles|
    ensures forall end | start <= end <= |candles| && end <= start + period :: History(candles, start, end, period) == []
  {
  }

  lemma LongerHistory(candles: seq<Candle>, start: nat, end: nat, period: nat)
    requires start + period + 1 <= end <= |candles|
    ensures History(candles, start, end, period) == History(candles, start, end - 1, period) + Point(candles[start..end], period)
  {
  }

  /** The range percentage at the end of every window that begins at `start`. */
  method RecentHistory(candles: seq<Candle>, start: nat, period: nat) returns (history: seq<real>)
    requires start <= |candles|
    ensures history == History(candles, start, |candles|, period)
  {
    hide AtrOf, Percent, History;
    var n := |candles|;
    history := [];
    var idx := start + period + 1;
    ShortHistory(candles, start, period);
    while idx <= n
      invariant start + period + 1 <= idx
      invariant history == History(candles, start, if idx <= n then idx - 1 else n, period)
    {
      LongerHistory(candles, start, idx, period);
      var a := Atr(candles[start..idx], period);
      if a.Some? {
        var p := candles[idx - 1].close;
        if p > 0.0 { history := history + [Percent(a.value, p)]; }
      }
      idx := idx + 1;
    }
  }

  predicate AllSane(candles: seq<Candle>)
  {
    forall i | 0 <= i < |candles| :: IsSane(candles[i])
  }

  lemma AtrNeedsBars(candles: seq<Candle>, period: nat)
    ensures AtrOf(candles, period).Some? <==> 0 < period < |candles|
  {
  }

  lemma OnePointEach(window: seq<Candle>, period: nat)
    requires AllSane(window) && 0 < period < |window|
    ensures |Point(window, period)| == 1
  {
    AtrNeedsBars(window, period);
    hide AtrOf;
  }

  lemma {:induction false} HistoryLength(candles: seq<Candle>, start: nat, end: nat, period: nat)
    requires AllSane(candles) && start <= end <= |candles| && 0 < period
    ensures |History(candles, start, end, period)| == if end < start + period then 0 else end - start - period
    decreases end
  {
    hide Point, IsSane;
    if end >= start + period + 1 {
      HistoryLength(candles, start, end - 1, period);
      assert AllSane(candles[start..end]);
      OnePointEach(candles[start..end], period);
    }
  }

  /** The history has one range percentage for every end after the first full period, each of the whole window up to it. */
  lemma {:induction false} HistoryIsEachWindow(candles: seq<Candle>, start: nat, end: nat, period: nat, k: nat)
    requires AllSane(candles) && start <= end <= |candles| && 0 < period && k < end - start - period
    ensures var window := candles[start..start + period + 1 + k];
      && k < |History(candles, start, end, period)|
      && AtrOf(window, period).Some? && 0.0 < window[|window| - 1].close
      && History(candles, start, end, period)[k] == AtrOf(window, period).value / window[|window| - 1].close * 100.0
    decreases end
  {
    hide AtrOf, IsSane, History, Percent, AllSane, Point;
    HistoryLength(candles, start, end - 1, period);
    LongerHistory(candles, start, end, period);
    ThePoint(candles, start, end, period);
    if k < end - 1 - start - period { HistoryIsEachWindow(candles, start, end - 1, period, k); }
  }

  lemma ThePoint(candles: seq<Candle>, start: nat, end: nat, period: nat)
    requires AllSane(candles) && start + period < end <= |candles| && 0 < period
    ensures var window := candles[start..end];
      && AtrOf(window, period).Some? && 0.0 < window[|window| - 1].close
      && Point(window, period) == [AtrOf(window, period).value / window[|window| - 1].close * 100.0]
  {
    hide AtrOf, IsSane;
    var window := candles[start..end];
    AtrNeedsBars(window, period);
    SaneClosesArePositive(candles[end - 1]);
    hide AllSane;
    assert window[|window| - 1] == candles[end - 1];
  }

  lemma SaneClosesArePositive(c: Candle)
    requires IsSane(c)
    ensures 0.0 < c.close
  {
  }

  /**
   On sane bars the range is measured exactly from one bar more than the period, and its
   percentile exactly when the look-back window also outlasts the period.
   */
  lemma MeasuredExactlyWhen(candles: seq<Candle>, period: nat, window: nat)
    requires AllSane(candles) && 0 < period
    ensures var r := VolatilityOf(candles, period, window);
      && (r.atrPct.Some? <==> period < |candles|)
      && (r.percentile.Some? <==> period < |candles| && period < window)
  {
    HistoryLength(candles, WindowStart(|candles|, window), |candles|, period);
  }

  /** A measured reading is in range: a non-negative percentage and a fraction. */
  lemma ReadingsAreInRange(candles: seq<Candle>, period: nat, window: nat)
    requires AllSane(candles) && 0 < period
    ensures var r := VolatilityOf(candles, period, window);
      (r.atrPct.Some? ==> 0.0 <= r.atrPct.value) && (r.percentile.Some? ==> 0.0 <= r.percentile.value <= 1.0)
  {
    hide TrueRange, Percent, AtrOf;
    var r := VolatilityOf(candles, period, window);
    AtrNeedsBars(candles, period);
    if r.atrPct.Some? {
      var trs := TrueRanges(candles);
      var hi := Peak(trs);
      AtrStaysWithinTheRanges(candles, period, 0.0, hi);
      PercentIsNonNegative(AtrOf(candles, period).value, candles[|candles| - 1].close);
      if r.percentile.Some? {
        RanksAreFractions(History(candles, WindowStart(|candles|, window), |candles|, period), r.atrPct.value, r.atrPct.value);
      }
    }
  }

  lemma PercentIsNonNegative(range: real, price: real)
    requires 0.0 <= range && 0.0 < price
    ensures 0.0 <= Percent(range, price)
  {
    Quotient(range, price, 0.0, range / price);
  }

  function Peak(xs: seq<real>): (hi: real)
    ensures 0.0 <= hi && forall i | 0 <= i < |xs| :: xs[i] <= hi
  {
    if xs == [] then 0.0 else Larger(Peak(xs[..|xs| - 1]), xs[|xs| - 1])
  }
}
