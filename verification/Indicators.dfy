/**
 The numeric indicators over the reals: the clamps that never bite, the incremental EMA,
 and the periods from which each indicator is defined.
 */
module Indicators {
  import opened Wrappers
  import opened Sums

  /** 2 to the power -52, the source's `f64::EPSILON`. */
  const EPSILON: real := 1.0 / 4503599627370496.0

  function Clamp(x: real, lo: real, hi: real): real
    requires lo <= hi
  {
    if x < lo then lo else if hi < x then hi else x
  }

  // ---------------------------------------------------------------- exponential moving average

  function EmaStep(prev: real, value: real, period: nat): real
  {
    var k := 2.0 / (period as real + 1.0);
    value * k + prev * (1.0 - k)
  }

  /** Folding the incremental step over the values after the seed. */
  function EmaFrom(seed: real, values: seq<real>, period: nat): real
  {
    if values == [] then seed
    else EmaStep(EmaFrom(seed, values[..|values| - 1], period), values[|values| - 1], period)
  }

  function EmaOf(values: seq<real>, period: nat): Option<real>
  {
    if period == 0 || |values| < period then None
    else Some(EmaFrom(Sum(values[..period]) / period as real, values[period..], period))
  }

  method Ema(values: seq<real>, period: nat) returns (r: Option<real>)
    ensures r == EmaOf(values, period)
  {
    if period == 0 || |values| < period {
      return None;
    }
    var sum := 0.0;
    for i := 0 to period
      invariant sum == Sum(values[..i])
    {
      assert values[..i + 1][..i] == values[..i];
      sum := sum + values[i];
    }
    var acc := sum / period as real;
    var k := 2.0 / (period as real + 1.0);
    ghost var rest := values[period..];
    for i := period to |values|
      invariant acc == EmaFrom(sum / period as real, rest[..i - period], period)
    {
      assert rest[..i + 1 - period][..i - period] == rest[..i - period];
      assert EmaStep(acc, values[i], period) == values[i] * k + acc * (1.0 - k);
      acc := values[i] * k + acc * (1.0 - k);
    }
    assert rest[..|values| - period] == rest;
    r := Some(acc);
  }

  lemma {:induction false} EmaFromSplits(seed: real, a: seq<real>, b: seq<real>, period: nat)
    ensures EmaFrom(seed, a + b, period) == EmaFrom(EmaFrom(seed, a, period), b, period)
  {
    if b == [] {
      assert a + b == a;
    } else {
      assert (a + b)[..|a + b| - 1] == a + b[..|b| - 1];
      EmaFromSplits(seed, a, b[..|b| - 1], period);
    }
  }

  /** Keeping an average live with the incremental step never differs from rescanning. */
  lemma IncrementalEmaMatchesBatch(values: seq<real>, more: seq<real>, period: nat)
    requires 0 < period <= |values|
    ensures EmaOf(values + more, period) == Some(EmaFrom(EmaOf(values, period).value, more, period))
  {
    assert (values + more)[..period] == values[..period];
    assert (values + more)[period..] == values[period..] + more;
    EmaFromSplits(Sum(values[..period]) / period as real, values[period..], more, period);
  }

  // ---------------------------------------------------------------- what the averages weigh

  function Pow(x: real, n: nat): real
  {
    if n == 0 then 1.0 else Pow(x, n - 1) * x
  }

  /** Each value faded by how many came after it. */
  function Faded(values: seq<real>, keep: real): seq<real>
  {
    seq(|values|, i requires 0 <= i < |values| => values[i] * Pow(keep, |values| - 1 - i))
  }

  lemma {:induction false} SumScales(xs: seq<real>, ys: seq<real>, k: real)
    requires |xs| == |ys| && forall i | 0 <= i < |xs| :: ys[i] == xs[i] * k
    ensures Sum(ys) == Sum(xs) * k
  {
    if xs != [] { SumScales(xs[..|xs| - 1], ys[..|ys| - 1], k); }
  }

  lemma FadedPrefix(values: seq<real>, keep: real, i: nat)
    requires i < |values| - 1
    ensures Faded(values, keep)[i] == Faded(values[..|values| - 1], keep)[i] * keep
  {
    FadesOnce(values[i], keep, |values| - 2 - i);
  }

  lemma FadedEnds(values: seq<real>, keep: real)
    requires values != []
    ensures |Faded(values, keep)| == |values| && Faded(values, keep)[|values| - 1] == values[|values| - 1]
  {
    assert Pow(keep, 0) == 1.0;
  }

  lemma FadedOneMore(values: seq<real>, keep: real)
    requires values != []
    ensures Sum(Faded(values, keep)) == Sum(Faded(values[..|values| - 1], keep)) * keep + values[|values| - 1]
  {
    var n := |values| - 1;
    var all, most := Faded(values, keep), Faded(values[..n], keep);
    FadedEnds(values, keep);
    assert |most| == n;
    hide Faded, Pow;
    forall i | 0 <= i < n ensures all[i] == most[i] * keep { FadedPrefix(values, keep, i); }
    SumScales(most, all[..n], keep);
    SumOfMost(all);
  }

  lemma SumOfMost(xs: seq<real>)
    requires xs != []
    ensures Sum(xs) == Sum(xs[..|xs| - 1]) + xs[|xs| - 1]
  {
  }

  lemma FadesOnce(x: real, keep: real, n: nat)
    ensures x * Pow(keep, n + 1) == x * Pow(keep, n) * keep
  {
  }

  /** A share of each value, faded by the rest for every value after it, and what is left of the seed. */
  function FadingMean(seed: real, values: seq<real>, share: real): real
  {
    seed * Pow(1.0 - share, |values|) + share * Sum(Faded(values, 1.0 - share))
  }

  lemma FadingMeanOneMore(seed: real, values: seq<real>, share: real)
    requires values != []
    ensures var n := |values| - 1;
      FadingMean(seed, values, share) == values[n] * share + FadingMean(seed, values[..n], share) * (1.0 - share)
  {
    var n := |values| - 1;
    FadedOneMore(values, 1.0 - share);
    assert Pow(1.0 - share, n + 1) == Pow(1.0 - share, n) * (1.0 - share);
    hide Faded, Sum, Pow;
    OneMoreFaded(seed, Pow(1.0 - share, n), share, Sum(Faded(values[..n], 1.0 - share)), values[n]);
  }

  lemma OneMoreFaded(seed: real, pow: real, share: real, sum: real, v: real)
    ensures seed * (pow * (1.0 - share)) + share * (sum * (1.0 - share) + v) == v * share + (seed * pow + share * sum) * (1.0 - share)
  {
  }

  /** The average in closed form: the share of each value is 2 / (period + 1). */
  lemma {:induction false} EmaIsTheFadingMean(seed: real, values: seq<real>, period: nat)
    ensures EmaFrom(seed, values, period) == FadingMean(seed, values, 2.0 / (period as real + 1.0))
  {
    var share := 2.0 / (period as real + 1.0);
    if values != [] {
      var n := |values| - 1;
      EmaIsTheFadingMean(seed, values[..n], period);
      FadingMeanOneMore(seed, values, share);
      hide FadingMean;
    } else {
      assert Faded(values, 1.0 - share) == [];
    }
  }

  /** ...and the seed is the plain mean of the first `period` values, from which on the average is defined. */
  lemma AveragesAreFadingMeans(values: seq<real>, period: nat)
    ensures EmaOf(values, period).Some? <==> 0 < period <= |values|
    ensures 0 < period <= |values| ==>
      EmaOf(values, period) == Some(FadingMean(Mean(values[..period]), values[period..], 2.0 / (period as real + 1.0)))
  {
    if 0 < period <= |values| { EmaIsTheFadingMean(Mean(values[..period]), values[period..], period); }
    hide FadingMean, Sum;
  }

  // ---------------------------------------------------------------- fast above slow on the way up

  predicate Rising(w: seq<real>)
  {
    forall i | 0 < i < |w| :: w[i - 1] <= w[i]
  }

  predicate Falling(w: seq<real>)
  {
    forall i | 0 < i < |w| :: w[i - 1] >= w[i]
  }

  /** A larger share of a newer, higher value leaves a higher average, and never one above that value. */
  lemma ShareKeepsOrder(slow: real, fast: real, v: real, ks: real, kf: real)
    requires 0.0 <= ks <= kf <= 1.0 && slow <= fast <= v
    ensures v * ks + slow * (1.0 - ks) <= v * kf + fast * (1.0 - kf) <= v
  {
    assert v * ks + slow * (1.0 - ks) == v - (v - slow) * (1.0 - ks);
    assert v * kf + fast * (1.0 - kf) == v - (v - fast) * (1.0 - kf);
    ProductOrder(v - fast, v - slow, 1.0 - kf, 1.0 - ks);
  }

  lemma ProductOrder(x: real, x': real, y: real, y': real)
    requires 0.0 <= x <= x' && 0.0 <= y <= y'
    ensures 0.0 <= x * y <= x' * y'
  {
    assert 0.0 <= (x' - x) * y;
    assert 0.0 <= x' * (y' - y);
  }

  function Share(period: nat): real
  {
    2.0 / (period as real + 1.0)
  }

  lemma SharesFall(fast: nat, slow: nat)
    requires 0 < fast <= slow
    ensures 0.0 <= Share(slow) <= Share(fast) <= 1.0
    ensures 1.0 / (slow as real + 1.0) <= Share(fast)
  {
    ReciprocalsFall(fast as real + 1.0, slow as real + 1.0);
    assert Share(fast) == 2.0 * (1.0 / (fast as real + 1.0)) && Share(slow) == 2.0 * (1.0 / (slow as real + 1.0));
    ReciprocalsFall(2.0, fast as real + 1.0);
  }

  lemma ReciprocalsFall(x: real, y: real)
    requires 0.0 < x <= y
    ensures 0.0 < 1.0 / y <= 1.0 / x
  {
    var p, q := 1.0 / x, 1.0 / y;
    assert p * x == 1.0 && q * y == 1.0;
    assert q <= 0.0 ==> q * y <= 0.0;
    assert q > p ==> (q - p) * x > 0.0 && q * (y - x) >= 0.0;
  }

  function Mean(values: seq<real>): real
    requires values != []
  {
    Sum(values) / |values| as real
  }

  lemma MeanOfOneMore(values: seq<real>, v: real)
    requires values != []
    ensures var k := 1.0 / (|values| as real + 1.0); Mean(values + [v]) == v * k + Mean(values) * (1.0 - k)
  {
    assert (values + [v])[..|values|] == values;
    var n, s := |values| as real, Sum(values);
    MeanStep(n, s, v);
  }

  lemma MeanStep(n: real, s: real, v: real)
    requires 0.0 < n
    ensures (s + v) / (n + 1.0) == v * (1.0 / (n + 1.0)) + (s / n) * (1.0 - 1.0 / (n + 1.0))
  {
    var k, m := 1.0 / (n + 1.0), s / n;
    assert m * n == s && k * (n + 1.0) == 1.0;
    assert (v * k + m * (1.0 - k)) * (n + 1.0) == v * (k * (n + 1.0)) + m * ((n + 1.0) - k * (n + 1.0));
    SameQuotient(s + v, n + 1.0, v * k + m * (1.0 - k));
  }

  lemma SameQuotient(x: real, y: real, q: real)
    requires 0.0 < y && q * y == x
    ensures x / y == q
  {
    var r := x / y;
    assert (r - q) * y == 0.0;
    ProductSign(r - q, y);
  }

  /** The average over the first `j` values, seeded as the batch form seeds it. */
  function EmaTo(values: seq<real>, period: nat, j: nat): real
    requires 0 < period <= j <= |values|
  {
    EmaFrom(Mean(values[..period]), values[period..j], period)
  }

  lemma EmaOfOneMore(values: seq<real>, period: nat, j: nat)
    requires 0 < period <= j < |values|
    ensures EmaTo(values, period, j + 1) == EmaStep(EmaTo(values, period, j), values[j], period)
  {
    var rest := values[period..j + 1];
    assert rest[..|rest| - 1] == values[period..j];
  }

  lemma RisingEnds(values: seq<real>, j: nat)
    requires Rising(values) && 0 < j < |values|
    ensures values[j - 1] <= values[j]
  {
  }

  /** While values rise, an average that favours recent ones is above their mean, and never above the last. */
  lemma {:induction false} RisingEmaIsAboveTheMean(values: seq<real>, period: nat, j: nat)
    requires Rising(values) && 0 < period <= j <= |values|
    ensures Mean(values[..j]) <= EmaTo(values, period, j) <= values[j - 1]
  {
    hide Mean, EmaFrom;
    if j == period {
      SeedIsTheMean(values, period);
      RisingMeanIsBelowTheLast(values, j);
    } else {
      var i := j - 1;
      RisingEmaIsAboveTheMean(values, period, i);
      EmaOfOneMore(values, period, i);
      assert values[..j] == values[..i] + [values[i]];
      MeanOfOneMore(values[..i], values[i]);
      SharesFall(period, i);
      RisingEnds(values, i);
      ShareKeepsOrder(Mean(values[..i]), EmaTo(values, period, i), values[i], 1.0 / (i as real + 1.0), Share(period));
    }
  }

  lemma SeedIsTheMean(values: seq<real>, period: nat)
    requires 0 < period <= |values|
    ensures EmaTo(values, period, period) == Mean(values[..period])
  {
    assert values[period..period] == [];
  }

  lemma MeanOfOne(v: real)
    ensures Mean([v]) == v
  {
    var one := [v];
    assert one[..0] == [] && |one| == 1;
    assert Sum(one) == Sum(one[..0]) + v == v;
    SameQuotient(Sum(one), |one| as real, v);
  }

  lemma {:induction false} RisingMeanIsBelowTheLast(values: seq<real>, j: nat)
    requires Rising(values) && 0 < j <= |values|
    ensures Mean(values[..j]) <= values[j - 1]
  {
    if j == 1 {
      assert values[..j] == [values[0]];
      MeanOfOne(values[0]);
    } else {
      var i := j - 1;
      RisingMeanIsBelowTheLast(values, i);
      assert values[..j] == values[..i] + [values[i]];
      RisingEnds(values, i);
      MeanStaysBelow(values[..i], values[i]);
    }
  }

  lemma MeanStaysBelow(values: seq<real>, v: real)
    requires values != [] && Mean(values) <= v
    ensures Mean(values + [v]) <= v
  {
    var n := |values| as real + 1.0;
    MeanOfOneMore(values, v);
    ReciprocalsFall(1.0, n);
    ShareKeepsOrder(Mean(values), Mean(values), v, 1.0 / n, 1.0 / n);
  }

  /** While values rise, the faster average never falls below the slower one. */
  lemma {:induction false} RisingKeepsFastAboveSlow(values: seq<real>, fast: nat, slow: nat, j: nat)
    requires Rising(values) && 0 < fast <= slow <= j <= |values|
    ensures EmaTo(values, slow, j) <= EmaTo(values, fast, j) <= values[j - 1]
  {
    hide Mean, EmaFrom;
    RisingEmaIsAboveTheMean(values, fast, j);
    if j == slow {
      SeedIsTheMean(values, slow);
    } else {
      var i := j - 1;
      RisingKeepsFastAboveSlow(values, fast, slow, i);
      EmaOfOneMore(values, fast, i);
      EmaOfOneMore(values, slow, i);
      SharesFall(fast, slow);
      RisingEnds(values, i);
      ShareKeepsOrder(EmaTo(values, slow, i), EmaTo(values, fast, i), values[i], Share(slow), Share(fast));
    }
  }

  function Negated(values: seq<real>): seq<real>
  {
    seq(|values|, i requires 0 <= i < |values| => -values[i])
  }

  lemma {:induction false} SumNegates(values: seq<real>)
    ensures Sum(Negated(values)) == -Sum(values)
  {
    if values != [] {
      var n := |values| - 1;
      SumNegates(values[..n]);
      assert Negated(values)[..n] == Negated(values[..n]);
    }
  }

  lemma {:induction false} EmaNegates(seed: real, values: seq<real>, period: nat)
    ensures EmaFrom(-seed, Negated(values), period) == -EmaFrom(seed, values, period)
  {
    if values != [] {
      var n := |values| - 1;
      EmaNegates(seed, values[..n], period);
      assert Negated(values)[..n] == Negated(values[..n]);
      StepNegates(EmaFrom(seed, values[..n], period), values[n], period);
    }
  }

  lemma StepNegates(prev: real, value: real, period: nat)
    ensures EmaStep(-prev, -value, period) == -EmaStep(prev, value, period)
  {
  }

  lemma EmaOfNegated(values: seq<real>, period: nat)
    requires 0 < period <= |values|
    ensures EmaOf(Negated(values), period) == Some(-EmaOf(values, period).value)
  {
    assert Negated(values)[..period] == Negated(values[..period]);
    assert Negated(values)[period..] == Negated(values[period..]);
    SumNegates(values[..period]);
    SameQuotient(-Sum(values[..period]), period as real, -(Sum(values[..period]) / period as real));
    EmaNegates(Sum(values[..period]) / period as real, values[period..], period);
  }

  lemma EmaToTheEnd(values: seq<real>, period: nat)
    requires 0 < period <= |values|
    ensures EmaOf(values, period) == Some(EmaTo(values, period, |values|))
  {
    assert values[period..|values|] == values[period..];
  }

  /** On values that never fall the fast average is at or above the slow one; that never rise, at or below. */
  lemma AveragesFollowTheDirection(values: seq<real>, fast: nat, slow: nat)
    requires 0 < fast <= slow <= |values|
    ensures Rising(values) ==> EmaOf(values, slow).value <= EmaOf(values, fast).value
    ensures Falling(values) ==> EmaOf(values, fast).value <= EmaOf(values, slow).value
  {
    hide EmaTo, EmaFrom;
    if Rising(values) {
      EmaToTheEnd(values, fast);
      EmaToTheEnd(values, slow);
      RisingKeepsFastAboveSlow(values, fast, slow, |values|);
    }
    if Falling(values) {
      var up := Negated(values);
      EmaOfNegated(values, fast);
      EmaOfNegated(values, slow);
      EmaToTheEnd(up, fast);
      EmaToTheEnd(up, slow);
      RisingKeepsFastAboveSlow(up, fast, slow, |values|);
    }
  }

  // ---------------------------------------------------------------- efficiency ratio

  /** Path length: the sum of the absolute steps. */
  function Path(w: seq<real>): real
  {
    if |w| < 2 then 0.0 else Path(w[..|w| - 1]) + Abs(w[|w| - 1] - w[|w| - 2])
  }

  /** Net travel is at most the path, with equality exactly for a monotone window. */
  lemma {:induction false} NetIsAtMostThePath(w: seq<real>)
    requires w != []
    ensures Abs(w[|w| - 1] - w[0]) <= Path(w)
    ensures Abs(w[|w| - 1] - w[0]) == Path(w) <==> Rising(w) || Falling(w)
    ensures Path(w) == 0.0 <==> Rising(w) && Falling(w)
  {
    if |w| > 1 {
      var n := |w| - 1;
      var most := w[..n];
      NetIsAtMostThePath(most);
      assert Rising(w) <==> Rising(most) && w[n - 1] <= w[n];
      assert Falling(w) <==> Falling(most) && w[n - 1] >= w[n];
      MonotoneEnds(most);
    }
  }

  lemma {:induction false} MonotoneEnds(w: seq<real>)
    requires w != []
    ensures Rising(w) ==> w[0] <= w[|w| - 1]
    ensures Falling(w) ==> w[0] >= w[|w| - 1]
    ensures Rising(w) && w[0] == w[|w| - 1] ==> Falling(w)
    ensures Falling(w) && w[0] == w[|w| - 1] ==> Rising(w)
  {
    if |w| > 1 {
      var n := |w| - 1;
      MonotoneEnds(w[..n]);
      assert Rising(w) ==> Rising(w[..n]) && w[n - 1] <= w[n];
      assert Falling(w) ==> Falling(w[..n]) && w[n - 1] >= w[n];
      assert Rising(w) && w[0] == w[n] ==> Falling(w[..n]) && w[n - 1] == w[n];
      assert Falling(w) && w[0] == w[n] ==> Rising(w[..n]) && w[n - 1] == w[n];
    }
  }

  function EfficiencyRatio(closes: seq<real>, period: nat): Option<real>
  {
    if period == 0 || |closes| < period + 1 then None
    else
      var w := closes[|closes| - period - 1..];
      var net, path := Abs(w[|w| - 1] - w[0]), Path(w);
      if path <= EPSILON then Some(0.0) else Some(Clamp(net / path, 0.0, 1.0))
  }

  /**
   The ratio is defined from one bar more than the period, the clamp never changes it, and
   it is one exactly for a monotone window with a measurable path.
   */
  lemma EfficiencyNeedsNoClamp(closes: seq<real>, period: nat)
    requires 0 < period < |closes|
    ensures var w := closes[|closes| - period - 1..];
      var net, path := Abs(w[|w| - 1] - w[0]), Path(w);
      && EfficiencyRatio(closes, period) == Some(if path <= EPSILON then 0.0 else net / path)
      && 0.0 <= EfficiencyRatio(closes, period).value <= 1.0
      && (EfficiencyRatio(closes, period) == Some(1.0) <==> path > EPSILON && (Rising(w) || Falling(w)))
  {
    var w := closes[|closes| - period - 1..];
    NetIsAtMostThePath(w);
    if Path(w) > EPSILON { QuotientOfParts(Abs(w[|w| - 1] - w[0]), Path(w)); }
  }

  lemma QuotientOfParts(net: real, path: real)
    requires 0.0 <= net <= path && 0.0 < path
    ensures 0.0 <= net / path <= 1.0
    ensures net / path == 1.0 <==> net == path
  {
    var q := net / path;
    assert q * path == net;
    assert q < 0.0 ==> (-q) * path > 0.0;
    assert q > 1.0 ==> (q - 1.0) * path > 0.0;
  }

  // ---------------------------------------------------------------- correlation

  lemma DotOfOneMore(a: seq<real>, b: seq<real>, i: nat)
    requires i < |a| == |b|
    ensures Dot(a[..i + 1], b[..i + 1]) == AddProduct(Dot(a[..i], b[..i]), a[i], b[i])
  {
    assert a[..i + 1][..i] == a[..i] && b[..i + 1][..i] == b[..i];
  }

  /** The three accumulators of the correlation loop. */
  method CovarianceSums(a: seq<real>, b: seq<real>) returns (cov: real, varA: real, varB: real)
    requires |a| == |b| >= 2
    ensures cov == Dot(Centered(a), Centered(b))
    ensures varA == Dot(Centered(a), Centered(a)) && varB == Dot(Centered(b), Centered(b))
  {
    hide Dot, Centered, Sum, AddProduct;
    var meanA, meanB := Sum(a) / |a| as real, Sum(b) / |b| as real;
    ghost var ca, cb := Centered(a), Centered(b);
    CenteredAt(a);
    CenteredAt(b);
    EmptyDots(ca, cb);
    cov, varA, varB := 0.0, 0.0, 0.0;
    for i := 0 to |a|
      invariant cov == Dot(ca[..i], cb[..i]) && varA == Dot(ca[..i], ca[..i]) && varB == Dot(cb[..i], cb[..i])
    {
      DotOfOneMore(ca, cb, i);
      DotOfOneMore(ca, ca, i);
      DotOfOneMore(cb, cb, i);
      var da, db := a[i] - meanA, b[i] - meanB;
      cov := AddProduct(cov, da, db);
      varA := AddProduct(varA, da, da);
      varB := AddProduct(varB, db, db);
    }
    assert ca[..|a|] == ca && cb[..|b|] == cb;
  }

  lemma CenteredAt(a: seq<real>)
    requires a != []
    ensures |Centered(a)| == |a| && forall i | 0 <= i < |a| :: Centered(a)[i] == a[i] - Sum(a) / |a| as real
  {
    hide Sum;
  }

  /** An accumulator after one more product. */
  function AddProduct(acc: real, x: real, y: real): real
  {
    acc + x * y
  }

  lemma EmptyDots(a: seq<real>, b: seq<real>)
    ensures Dot(a[..0], b[..0]) == Dot(a[..0], a[..0]) == Dot(b[..0], b[..0]) == 0.0
  {
  }

  /** `root` is the square root the source takes. */
  function Correlation(cov: real, root: real): Option<real>
  {
    if root <= EPSILON then None else Some(Clamp(cov / root, -1.0, 1.0))
  }

  /**
   The clamp on a correlation never bites: with the exact square root of the product of the
   variances the quotient already lies between minus one and one, and its square is one
   exactly when the centred series are proportional.
   */
  lemma CorrelationNeedsNoClamp(a: seq<real>, b: seq<real>, root: real)
    requires |a| == |b| >= 2 && root > EPSILON
    requires root * root == Dot(Centered(a), Centered(a)) * Dot(Centered(b), Centered(b))
    ensures var q := Dot(Centered(a), Centered(b)) / root;
      && Correlation(Dot(Centered(a), Centered(b)), root) == Some(q)
      && -1.0 <= q <= 1.0
      && (q * q == 1.0 <==> Proportional(Centered(a), Centered(b)))
  {
    hide Dot;
    var ca, cb := Centered(a), Centered(b);
    assert |ca| == |cb|;
    hide Centered;
    var cov := Dot(ca, cb);
    CauchySchwarz(ca, cb);
    assert cov * cov <= root * root;
    QuotientOfRoot(cov, root);
    InsideNeedsNoClamp(cov / root);
  }

  lemma InsideNeedsNoClamp(q: real)
    requires -1.0 <= q <= 1.0
    ensures Clamp(q, -1.0, 1.0) == q
  {
  }

  lemma QuotientOfRoot(cov: real, root: real)
    requires 0.0 < root && cov * cov <= root * root
    ensures -1.0 <= cov / root <= 1.0
    ensures (cov / root) * (cov / root) == 1.0 <==> cov * cov == root * root
  {
    assert (cov / root) * root == cov;
    BoundedFactor(cov / root, root, cov);
  }

  lemma BoundedFactor(q: real, root: real, cov: real)
    requires 0.0 < root && q * root == cov && cov * cov <= root * root
    ensures -1.0 <= q <= 1.0
    ensures q * q == 1.0 <==> cov * cov == root * root
  {
    SquareOfProduct(q, root, cov);
    ProductSign(root, root);
    var r := root * root;
    assert (q * q) * r == cov * cov;
    SquareAtMostOne(q, r, cov * cov);
  }

  lemma SquareAtMostOne(q: real, r: real, p: real)
    requires 0.0 < r && p == (q * q) * r && p <= r
    ensures -1.0 <= q <= 1.0
    ensures q * q == 1.0 <==> p == r
  {
    assert q * q > 1.0 ==> (q * q - 1.0) * r > 0.0;
    assert q > 1.0 ==> q * q > 1.0;
    assert q < -1.0 ==> (-q) * (-q) > 1.0;
    assert q * q < 1.0 ==> (1.0 - q * q) * r > 0.0;
  }

  lemma SquareOfProduct(x: real, y: real, p: real)
    requires p == x * y
    ensures p * p == (x * x) * (y * y)
  {
    assert p * p == p * (x * y) == (p * x) * y;
    assert (p * x) * y == ((x * x) * y) * y;
  }
}
