/** The realised-volatility gate: which bars decide it. */
module VolGate {
  import opened Wrappers

  const RV_WINDOW_1M: nat := 1440
  const RV_PCTL_SAMPLES_H: nat := 720
  const BARS_PER_HOUR: nat := 60

  /**
   The statistics the gate rests on, kept abstract: the deviation of the log returns between
   some consecutive closes, where it is finite, and the two quartiles of some samples.
   */
  datatype Stats = Stats(deviation: seq<real> -> Option<real>, lower: seq<real> -> real, upper: seq<real> -> real)

  /** `rv[i]`: over the window's returns, the last of them into bar `i + 1`. */
  function Rv(s: Stats, close: seq<real>, i: nat): Option<real>
    requires i + 1 < |close|
  {
    if i + 1 < RV_WINDOW_1M then None else s.deviation(close[i + 1 - RV_WINDOW_1M..i + 2])
  }

  /** The hourly sample: as of the start of hour `k`, from closes before it. */
  function Sample(s: Stats, close: seq<real>, k: nat): Option<real>
    requires BARS_PER_HOUR * k <= |close|
  {
    if k == 0 then None else Rv(s, close, BARS_PER_HOUR * k - 2)
  }

  predicate AllKnown(xs: seq<Option<real>>)
  {
    forall i | 0 <= i < |xs| :: xs[i].Some?
  }

  function Values(xs: seq<Option<real>>): seq<real>
    requires AllKnown(xs)
  {
    seq(|xs|, i requires 0 <= i < |xs| => xs[i].value)
  }

  /** A rolling statistic shifted by one: over the full window strictly before `k`, else nothing. */
  function Trailing(stat: seq<real> -> real, samples: seq<Option<real>>, k: nat): Option<real>
    requires k <= |samples|
  {
    if k < RV_PCTL_SAMPLES_H || !AllKnown(samples[k - RV_PCTL_SAMPLES_H..k]) then None
    else Some(stat(Values(samples[k - RV_PCTL_SAMPLES_H..k])))
  }

  function Samples(s: Stats, close: seq<real>, n: nat): seq<Option<real>>
    requires BARS_PER_HOUR * n <= |close|
  {
    seq(n, k requires 0 <= k < n => Sample(s, close, k))
  }

  /** `realized_vol_gate_arrays` */
  method RealizedVolGateArrays(s: Stats, close: seq<real>) returns (rv: seq<Option<real>>, p25: seq<Option<real>>, p75: seq<Option<real>>)
    ensures |rv| == (if close == [] then 0 else |close| - 1) && |p25| == |p75| == |close| / BARS_PER_HOUR
    ensures forall i | 0 <= i < |rv| :: rv[i] == Rv(s, close, i)
    ensures forall k | 0 <= k < |p25| :: p25[k] == Trailing(s.lower, Samples(s, close, k), k)
    ensures forall k | 0 <= k < |p75| :: p75[k] == Trailing(s.upper, Samples(s, close, k), k)
  {
    var m := if close == [] then 0 else |close| - 1;
    rv := seq(m, i requires 0 <= i < m => Rv(s, close, i));
    var hours := |close| / BARS_PER_HOUR;
    var samples := new Option<real>[hours](_ => None);
    forall k | 0 <= k < hours && BARS_PER_HOUR * k >= 2 {
      samples[k] := rv[BARS_PER_HOUR * k - 2];
    }
    var all := samples[..];
    assert forall k | 0 <= k < hours :: all[k] == Sample(s, close, k);
    assert forall k | 0 <= k < hours :: all[..k] == Samples(s, close, k);
    p25 := seq(hours, k requires 0 <= k < hours => Trailing(s.lower, all[..k], k));
    p75 := seq(hours, k requires 0 <= k < hours => Trailing(s.upper, all[..k], k));
  }

  /** `g_vol_at` */
  predicate GVolAt(g: nat, rv: seq<Option<real>>, p25: seq<Option<real>>, p75: seq<Option<real>>)
    requires g <= |rv| + 1 && |p25| == |p75|
  {
    var k := g / BARS_PER_HOUR;
    && 2 <= g
    && k < |p25|
    && rv[g - 2].Some? && p25[k].Some? && p75[k].Some?
    && p25[k].value <= rv[g - 2].value <= p75[k].value
  }

  /** The gate at bar `g` of a tape. */
  predicate Gate(s: Stats, close: seq<real>, g: nat)
    requires g < |close|
  {
    var k := g / BARS_PER_HOUR;
    && k < |close| / BARS_PER_HOUR
    && PastGate(s, close[..g])
  }

  /** What the bars before the next one decide. */
  predicate PastGate(s: Stats, past: seq<real>)
  {
    var g, k := |past|, |past| / BARS_PER_HOUR;
    && 2 <= g
    && var now, lo, hi := Rv(s, past, g - 2), Trailing(s.lower, Samples(s, past, k), k), Trailing(s.upper, Samples(s, past, k), k);
       now.Some? && lo.Some? && hi.Some? && lo.value <= now.value <= hi.value
  }

  lemma RvSeesItsWindow(s: Stats, close: seq<real>, g: nat, i: nat)
    requires i + 1 < g <= |close|
    ensures Rv(s, close[..g], i) == Rv(s, close, i)
  {
    if RV_WINDOW_1M <= i + 1 {
      assert close[..g][i + 1 - RV_WINDOW_1M..i + 2] == close[i + 1 - RV_WINDOW_1M..i + 2];
    }
  }

  lemma SamplesSeeThePast(s: Stats, close: seq<real>, g: nat, k: nat)
    requires BARS_PER_HOUR * k <= g <= |close|
    ensures Samples(s, close[..g], k) == Samples(s, close, k)
  {
    forall j | 0 <= j < k ensures Sample(s, close[..g], j) == Sample(s, close, j) {
      if j > 0 { RvSeesItsWindow(s, close, g, BARS_PER_HOUR * j - 2); }
    }
  }

  /**
   The arrays and the lookup together give the gate: the bars before `g` decide, except that
   the tape must also reach to the end of the hour `g` is in.
   */
  lemma ArraysGiveTheGate(s: Stats, close: seq<real>, g: nat, rv: seq<Option<real>>, p25: seq<Option<real>>, p75: seq<Option<real>>)
    requires g < |close|
    requires |rv| == |close| - 1 && |p25| == |p75| == |close| / BARS_PER_HOUR
    requires forall i | 0 <= i < |rv| :: rv[i] == Rv(s, close, i)
    requires forall k | 0 <= k < |p25| :: p25[k] == Trailing(s.lower, Samples(s, close, k), k)
    requires forall k | 0 <= k < |p75| :: p75[k] == Trailing(s.upper, Samples(s, close, k), k)
    ensures GVolAt(g, rv, p25, p75) <==> Gate(s, close, g)
  {
    if 2 <= g {
      RvSeesItsWindow(s, close, g, g - 2);
      SamplesSeeThePast(s, close, g, g / BARS_PER_HOUR);
    }
  }

  /** The bar's own hour is complete on the tape. */
  predicate HourIsComplete(close: seq<real>, g: nat)
  {
    g / BARS_PER_HOUR < |close| / BARS_PER_HOUR
  }


  /**
   Past-only, exactly: two tapes that agree before bar `g` give the same gate there for every
   choice of statistics if and only if both or neither complete that bar's hour, or `g` is so
   early that the gate cannot open.
   */
  lemma GateSeesOnlyThePast(a: seq<real>, b: seq<real>, g: nat)
    requires g < |a| && g < |b| && a[..g] == b[..g]
    ensures (forall s: Stats :: Gate(s, a, g) <==> Gate(s, b, g))
      <==> (HourIsComplete(a, g) <==> HourIsComplete(b, g)) || g < EARLIEST
  {
    if (HourIsComplete(a, g) <==> HourIsComplete(b, g)) {
    } else if g < EARLIEST {
      forall s: Stats ensures !PastGate(s, a[..g]) { ShutUntilMeasurable(s, a[..g]); }
    } else {
      var flat := Flat();
      FlatGateOpens(a[..g]);
      assert Gate(flat, a, g) != Gate(flat, b, g);
    }
  }

  /** First bar at which thirty days of samples, each over a full day of returns, are all known. */
  const EARLIEST: nat := 44700

  /** Less history than that shuts the gate, whatever the statistics are. */
  lemma ShutUntilMeasurable(s: Stats, past: seq<real>)
    requires |past| < EARLIEST
    ensures !PastGate(s, past)
  {
    var k := |past| / BARS_PER_HOUR;
    if k >= RV_PCTL_SAMPLES_H {
      var window := Samples(s, past, k)[k - RV_PCTL_SAMPLES_H..k];
      assert window[0] == Sample(s, past, k - RV_PCTL_SAMPLES_H);
      assert Sample(s, past, k - RV_PCTL_SAMPLES_H) == None;
    }
  }

  function Flat(): Stats
  {
    Stats(_ => Some(1.0), _ => 1.0, _ => 1.0)
  }

  lemma FlatGateOpens(past: seq<real>)
    requires EARLIEST <= |past|
    ensures PastGate(Flat(), past)
  {
  }

  /** Two flat tapes, one bar apart in length: at the start of the last hour one gate is open, the other shut. */
  lemma ThePartialHourIsShut()
    ensures var whole, partial := seq(44_760, _ => 1.0), seq(44_759, _ => 1.0);
      && whole[..EARLIEST] == partial[..EARLIEST]
      && Gate(Flat(), whole, EARLIEST) && !Gate(Flat(), partial, EARLIEST)
  {
    var whole, partial := seq(44_760, _ => 1.0), seq(44_759, _ => 1.0);
    FlatGateOpens(whole[..EARLIEST]);
    hide PastGate;
    assert EARLIEST / BARS_PER_HOUR == 745 && |whole| / BARS_PER_HOUR == 746 && |partial| / BARS_PER_HOUR == 745;
  }

  // ---------------------------------------------------------------- when the gate opens

  /** The deviations of the thirty days of hours before hour `k`, each over the day of returns that ends with it. */
  ghost predicate AreHourly(s: Stats, close: seq<real>, k: nat, values: seq<real>)
    requires 745 <= k && 60 * k <= |close|
  {
    && |values| == 720
    && forall i | 0 <= i < 720 :: s.deviation(DayBefore(close, 60 * (k - 720 + i))) == Some(values[i])
  }

  /** The closes of a day's worth of returns, the last of them into the bar before `end`. */
  function DayBefore(close: seq<real>, end: nat): seq<real>
    requires 1441 <= end <= |close|
  {
    close[end - 1441..end]
  }

  lemma HourlySample(s: Stats, close: seq<real>, k: nat)
    requires 25 <= k && 60 * k <= |close|
    ensures Sample(s, close, k) == s.deviation(DayBefore(close, 60 * k))
  {
  }

  lemma TrailingHours(s: Stats, close: seq<real>, k: nat, values: seq<real>)
    requires 745 <= k && 60 * k <= |close| && AreHourly(s, close, k, values)
    ensures forall stat :: Trailing(stat, Samples(s, close, k), k) == Some(stat(values))
  {
    var window := Samples(s, close, k)[k - 720..k];
    forall i | 0 <= i < 720 ensures window[i] == Some(values[i]) {
      HourlySample(s, close, k - 720 + i);
      assert s.deviation(DayBefore(close, 60 * (k - 720 + i))) == Some(values[i]);
      assert window[i] == Sample(s, close, k - 720 + i);
    }
    hide Sample;
    assert Values(window) == values;
  }

  lemma KnownHours(s: Stats, close: seq<real>, k: nat) returns (values: seq<real>)
    requires 745 <= k && 60 * k <= |close| && AllKnown(Samples(s, close, k)[k - 720..k])
    ensures AreHourly(s, close, k, values)
  {
    var window := Samples(s, close, k)[k - 720..k];
    values := Values(window);
    forall i | 0 <= i < 720 ensures s.deviation(DayBefore(close, 60 * (k - 720 + i))) == Some(values[i]) {
      HourlySample(s, close, k - 720 + i);
      assert window[i] == Sample(s, close, k - 720 + i);
    }
    hide Sample;
  }

  /** Between the quartiles of the hours, as of the bars before `g`. */
  ghost predicate InTheMiddle(s: Stats, past: seq<real>, values: seq<real>)
    requires 44_700 <= |past|
  {
    && AreHourly(s, past, |past| / 60, values)
    && var now := s.deviation(DayBefore(past, |past|));
       now.Some? && s.lower(values) <= now.value <= s.upper(values)
  }

  /**
   The gate is open at bar `g` exactly when its hour is complete on the tape, thirty days of
   hourly deviations lie before it, and the deviation over the day up to the bar before lies
   between their two quartiles.
   */
  lemma OpensExactlyBetweenTheQuartiles(s: Stats, close: seq<real>, g: nat)
    requires g < |close|
    ensures Gate(s, close, g) <==>
      HourIsComplete(close, g) && 44_700 <= g && exists values :: InTheMiddle(s, close[..g], values)
  {
    var past := close[..g];
    if g < 44_700 {
      ShutUntilMeasurable(s, past);
    } else {
      assert past[g - 1 - RV_WINDOW_1M..g] == DayBefore(past, g);
      OpensInTheMiddle(s, past);
    }
    hide PastGate;
  }

  lemma OpensInTheMiddle(s: Stats, past: seq<real>)
    requires 44_700 <= |past|
    ensures PastGate(s, past) <==> exists values :: InTheMiddle(s, past, values)
  {
    var k := |past| / 60;
    assert Rv(s, past, |past| - 2) == s.deviation(DayBefore(past, |past|));
    if values :| InTheMiddle(s, past, values) {
      TrailingHours(s, past, k, values);
    }
    if PastGate(s, past) {
      var values := KnownHours(s, past, k);
      TrailingHours(s, past, k, values);
      assert InTheMiddle(s, past, values);
    }
    hide Rv, Samples, AreHourly;
  }
}
