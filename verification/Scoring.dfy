/** The tradability score: gates, factors, and what an unvetoed score rests on. */
module Scoring {
  import opened Wrappers
  import opened Bars
  import opened Sums
  import opened Volatility
  import I = Indicators

  datatype TimeframeData = TimeframeData(weight: real, candles: seq<Candle>)

  datatype Snapshot = Snapshot(now: int, feedTs: int, timeframes: seq<TimeframeData>,
                               fundingRate: real, oiDelta: real, spreadBps: real, depthUsd: real)

  datatype Weights = Weights(trend: real, volatility: real, efficiency: real, liquidity: real, positioning: real, book: real)

  datatype Config = Config(maxSpreadBps: real, minDepthUsd: real, maxFeedAge: int, maxAbsFunding: real,
                           atrPeriod: nat, erPeriod: nat, emaFast: nat, emaSlow: nat, volWindow: nat,
                           targetDepthUsd: real, deadband: real, weights: Weights)

  datatype Veto = StaleFeed | SpreadTooWide | InsufficientDepth | FundingExtreme | InsufficientHistory

  datatype Factors = Factors(trend: real, volatility: real, efficiency: real, liquidity: real, positioning: real, book: real)

  // ---------------------------------------------------------------- the primary timeframe

  /** `max_by` over the timeframes that have bars: of equal weights it keeps the last. */
  function Primary(tfs: seq<TimeframeData>): (r: Option<nat>)
    ensures r.Some? ==> r.value < |tfs|
  {
    if tfs == [] then None
    else
      var n := |tfs| - 1;
      var best := Primary(tfs[..n]);
      if tfs[n].candles == [] then best
      else if best.Some? && tfs[n].weight < tfs[best.value].weight then best
      else Some(n)
  }

  /** The primary timeframe is the last of the heaviest that have any bars. */
  lemma {:induction false} PrimaryIsTheLastHeaviest(tfs: seq<TimeframeData>, i: nat)
    requires i < |tfs|
    ensures Primary(tfs) == Some(i) <==>
      && tfs[i].candles != []
      && (forall j | 0 <= j < i && tfs[j].candles != [] :: tfs[j].weight <= tfs[i].weight)
      && (forall j | i < j < |tfs| && tfs[j].candles != [] :: tfs[j].weight < tfs[i].weight)
  {
    var n := |tfs| - 1;
    var best := Primary(tfs[..n]);
    if best.Some? { PrimaryIsTheLastHeaviest(tfs[..n], best.value); }
    if i < n { PrimaryIsTheLastHeaviest(tfs[..n], i); }
    NoPrimaryNoBars(tfs[..n]);
  }

  lemma {:induction false} NoPrimaryNoBars(tfs: seq<TimeframeData>)
    ensures Primary(tfs).None? <==> forall j | 0 <= j < |tfs| :: tfs[j].candles == []
  {
    if tfs != [] { NoPrimaryNoBars(tfs[..|tfs| - 1]); }
  }

  function PrimaryBars(s: Snapshot): seq<Candle>
  {
    var p := Primary(s.timeframes);
    if p.None? then [] else s.timeframes[p.value].candles
  }

  function Closes(candles: seq<Candle>): seq<real>
  {
    seq(|candles|, i requires 0 <= i < |candles| => candles[i].close)
  }

  // ---------------------------------------------------------------- the trend vote

  /** The direction one timeframe votes for, or nothing when it lacks the history. */
  function VoteOf(tf: TimeframeData, cfg: Config): Option<real>
  {
    var closes := Closes(tf.candles);
    var fast, slow := I.EmaOf(closes, cfg.emaFast), I.EmaOf(closes, cfg.emaSlow);
    if fast.None? || slow.None? || closes == [] || closes[|closes| - 1] <= 0.0 then None
    else Some(DirectionOf(fast.value, slow.value, closes[|closes| - 1], cfg.deadband))
  }

  function DirectionOf(fast: real, slow: real, price: real, deadband: real): (d: real)
    requires 0.0 < price
    ensures d == -1.0 || d == 0.0 || d == 1.0
  {
    var separation := (fast - slow) / price;
    if Abs(separation) < deadband then 0.0 else if separation > 0.0 then 1.0 else -1.0
  }

  /** What one timeframe adds to the weighted sum... */
  function Contribution(tf: TimeframeData, cfg: Config): real
  {
    var v := VoteOf(tf, cfg);
    if v.None? then 0.0 else v.value * tf.weight
  }

  /** ...and to the total weight: an absent opinion adds nothing to either. */
  function CountedWeight(tf: TimeframeData, cfg: Config): real
  {
    if VoteOf(tf, cfg).None? then 0.0 else tf.weight
  }

  function VoteSum(tfs: seq<TimeframeData>, cfg: Config): real
  {
    if tfs == [] then 0.0 else VoteSum(tfs[..|tfs| - 1], cfg) + Contribution(tfs[|tfs| - 1], cfg)
  }

  function VoteWeight(tfs: seq<TimeframeData>, cfg: Config): real
  {
    if tfs == [] then 0.0 else VoteWeight(tfs[..|tfs| - 1], cfg) + CountedWeight(tfs[|tfs| - 1], cfg)
  }

  /** Magnitude and signed direction. */
  function TrendOf(tfs: seq<TimeframeData>, cfg: Config): (real, real)
  {
    var total := VoteWeight(tfs, cfg);
    if total <= I.EPSILON then (0.0, 0.0)
    else
      var net := VoteSum(tfs, cfg) / total;
      (I.Clamp(Abs(net), 0.0, 1.0), I.Clamp(net, -1.0, 1.0))
  }

  method Vote(tf: TimeframeData, cfg: Config) returns (v: Option<real>)
    ensures v == VoteOf(tf, cfg)
  {
    hide I.EmaOf, DirectionOf;
    var closes := Closes(tf.candles);
    var fast := I.Ema(closes, cfg.emaFast);
    var slow := I.Ema(closes, cfg.emaSlow);
    if fast.None? || slow.None? || closes == [] { return None; }
    var price := closes[|closes| - 1];
    if price <= 0.0 { return None; }
    return Some(DirectionOf(fast.value, slow.value, price, cfg.deadband));
  }

  method Trend(tfs: seq<TimeframeData>, cfg: Config) returns (magnitude: real, direction: real)
    ensures (magnitude, direction) == TrendOf(tfs, cfg)
  {
    hide VoteOf;
    var weightedSum, weightTotal := 0.0, 0.0;
    for i := 0 to |tfs|
      invariant weightedSum == VoteSum(tfs[..i], cfg) && weightTotal == VoteWeight(tfs[..i], cfg)
    {
      assert tfs[..i + 1][..i] == tfs[..i];
      var v := Vote(tfs[i], cfg);
      if v.None? { continue; }
      weightedSum := weightedSum + v.value * tfs[i].weight;
      weightTotal := weightTotal + tfs[i].weight;
    }
    assert tfs[..|tfs|] == tfs;
    if weightTotal <= I.EPSILON { return 0.0, 0.0; }
    var net := weightedSum / weightTotal;
    return I.Clamp(Abs(net), 0.0, 1.0), I.Clamp(net, -1.0, 1.0);
  }

  /** The timeframe does not vote, votes without weight, or votes for `d`. */
  predicate Agrees(tf: TimeframeData, cfg: Config, d: real)
  {
    tf.weight == 0.0 || VoteOf(tf, cfg).None? || VoteOf(tf, cfg).value == d
  }

  /** On closes that never fall a timeframe never votes down, on closes that never rise never up. */
  lemma VotesFollowThePrice(tf: TimeframeData, cfg: Config)
    requires 0 < cfg.emaFast <= cfg.emaSlow && 0.0 < cfg.deadband && VoteOf(tf, cfg).Some?
    ensures I.Rising(Closes(tf.candles)) ==> VoteOf(tf, cfg).value >= 0.0
    ensures I.Falling(Closes(tf.candles)) ==> VoteOf(tf, cfg).value <= 0.0
  {
    hide I.EmaFrom, I.Rising, I.Falling, Closes;
    var closes := Closes(tf.candles);
    I.AveragesFollowTheDirection(closes, cfg.emaFast, cfg.emaSlow);
    var fast, slow, price := I.EmaOf(closes, cfg.emaFast).value, I.EmaOf(closes, cfg.emaSlow).value, closes[|closes| - 1];
    SeparationSign(fast, slow, price, cfg.deadband);
  }

  lemma SeparationSign(fast: real, slow: real, price: real, deadband: real)
    requires 0.0 < price && 0.0 < deadband
    ensures slow <= fast ==> DirectionOf(fast, slow, price, deadband) >= 0.0
    ensures fast <= slow ==> DirectionOf(fast, slow, price, deadband) <= 0.0
  {
    var q := (fast - slow) / price;
    assert q * price == fast - slow;
    assert q < 0.0 ==> (-q) * price > 0.0;
    assert q > 0.0 ==> q * price > 0.0;
  }

  /** Every timeframe that votes with weight votes for `d`. */
  predicate Unanimous(tfs: seq<TimeframeData>, cfg: Config, d: real)
  {
    forall i | 0 <= i < |tfs| :: Agrees(tfs[i], cfg, d)
  }

  predicate WeightsAreNonNegative(tfs: seq<TimeframeData>)
  {
    forall i | 0 <= i < |tfs| :: 0.0 <= tfs[i].weight
  }

  lemma OneVoteIsBounded(tf: TimeframeData, cfg: Config)
    requires 0.0 <= tf.weight
    ensures -CountedWeight(tf, cfg) <= Contribution(tf, cfg) <= CountedWeight(tf, cfg)
    ensures Contribution(tf, cfg) == CountedWeight(tf, cfg) <==> Agrees(tf, cfg, 1.0)
    ensures Contribution(tf, cfg) == -CountedWeight(tf, cfg) <==> Agrees(tf, cfg, -1.0)
  {
    hide I.EmaOf;
    var v := VoteOf(tf, cfg);
    assert v.Some? ==> v.value == -1.0 || v.value == 0.0 || v.value == 1.0;
    hide VoteOf;
  }

  lemma {:induction false} VotesAreBounded(tfs: seq<TimeframeData>, cfg: Config)
    requires WeightsAreNonNegative(tfs)
    ensures -VoteWeight(tfs, cfg) <= VoteSum(tfs, cfg) <= VoteWeight(tfs, cfg)
    ensures VoteSum(tfs, cfg) == VoteWeight(tfs, cfg) <==> Unanimous(tfs, cfg, 1.0)
    ensures VoteSum(tfs, cfg) == -VoteWeight(tfs, cfg) <==> Unanimous(tfs, cfg, -1.0)
  {
    if tfs != [] {
      var n := |tfs| - 1;
      VotesAreBounded(tfs[..n], cfg);
      OneVoteIsBounded(tfs[n], cfg);
      UnanimityGrows(tfs, cfg, 1.0);
      UnanimityGrows(tfs, cfg, -1.0);
      hide Agrees, Contribution, CountedWeight, Unanimous;
    }
  }

  lemma UnanimityGrows(tfs: seq<TimeframeData>, cfg: Config, d: real)
    requires tfs != []
    ensures Unanimous(tfs, cfg, d) <==> Unanimous(tfs[..|tfs| - 1], cfg, d) && Agrees(tfs[|tfs| - 1], cfg, d)
  {
    hide Agrees;
    var n := |tfs| - 1;
    assert forall i | 0 <= i < n :: tfs[..n][i] == tfs[i];
  }

  /**
   The clamps on the trend never bite, and full alignment means just what it says: every
   timeframe that votes points the same way, up or down.
   */
  lemma TrendNeedsNoClamp(tfs: seq<TimeframeData>, cfg: Config)
    requires WeightsAreNonNegative(tfs) && VoteWeight(tfs, cfg) > I.EPSILON
    ensures var net := VoteSum(tfs, cfg) / VoteWeight(tfs, cfg);
      TrendOf(tfs, cfg) == (Abs(net), net) && -1.0 <= net <= 1.0
    ensures TrendOf(tfs, cfg).0 == 1.0 <==> Unanimous(tfs, cfg, 1.0) || Unanimous(tfs, cfg, -1.0)
  {
    VotesAreBounded(tfs, cfg);
    hide VoteSum, VoteWeight, Unanimous;
    Ratio(VoteSum(tfs, cfg), VoteWeight(tfs, cfg));
  }

  lemma Ratio(x: real, total: real)
    requires -total <= x <= total && 0.0 < total
    ensures -1.0 <= x / total <= 1.0
    ensures (x / total == 1.0 <==> x == total) && (x / total == -1.0 <==> x == -total)
  {
    var q := x / total;
    assert q * total == x;
    assert q > 1.0 ==> (q - 1.0) * total > 0.0;
    assert q < -1.0 ==> (-1.0 - q) * total > 0.0;
  }

  // ---------------------------------------------------------------- the other factors

  function PositioningScore(s: Snapshot, cfg: Config): real
  {
    if cfg.maxAbsFunding <= I.EPSILON then 1.0
    else
      var stretch := I.Clamp(Abs(s.fundingRate) / cfg.maxAbsFunding, 0.0, 1.0);
      var amplifier := if s.oiDelta > 0.0 then 1.0 + I.Clamp(s.oiDelta, 0.0, 1.0) else 1.0;
      I.Clamp(1.0 - I.Clamp(stretch * amplifier, 0.0, 1.0), 0.0, 1.0)
  }

  function SpreadQuality(s: Snapshot, cfg: Config): real
  {
    if cfg.maxSpreadBps <= I.EPSILON then 0.0
    else 1.0 - I.Clamp(Larger(s.spreadBps, 0.0) / cfg.maxSpreadBps, 0.0, 1.0)
  }

  function DepthQuality(s: Snapshot, cfg: Config): real
  {
    if cfg.targetDepthUsd <= I.EPSILON then 0.0
    else I.Clamp(Larger(s.depthUsd, 0.0) / cfg.targetDepthUsd, 0.0, 1.0)
  }

  function BookQualityScore(s: Snapshot, cfg: Config): real
  {
    if SpreadQuality(s, cfg) < DepthQuality(s, cfg) then SpreadQuality(s, cfg) else DepthQuality(s, cfg)
  }

  function TotalWeight(w: Weights): real
  {
    w.trend + w.volatility + w.efficiency + w.liquidity + w.positioning + w.book
  }

  function WeightedScore(f: Factors, w: Weights): real
  {
    if TotalWeight(w) <= I.EPSILON then 0.0
    else I.Clamp(WeightedSum(f, w) / TotalWeight(w) * 100.0, 0.0, 100.0)
  }

  function Part(f: real, w: real): real
  {
    f * w
  }

  function WeightedSum(f: Factors, w: Weights): real
  {
    Part(f.trend, w.trend) + Part(f.volatility, w.volatility) + Part(f.efficiency, w.efficiency)
    + Part(f.liquidity, w.liquidity) + Part(f.positioning, w.positioning) + Part(f.book, w.book)
  }

  predicate Fraction(x: real) { 0.0 <= x <= 1.0 }

  predicate Fractions(f: Factors)
  {
    && Fraction(f.trend) && Fraction(f.volatility) && Fraction(f.efficiency)
    && Fraction(f.liquidity) && Fraction(f.positioning) && Fraction(f.book)
  }

  predicate NonNegative(w: Weights)
  {
    0.0 <= w.trend && 0.0 <= w.volatility && 0.0 <= w.efficiency && 0.0 <= w.liquidity && 0.0 <= w.positioning && 0.0 <= w.book
  }

  /** A factor reaches all of its weight, or none of it. */
  predicate Full(f: real, w: real) { w == 0.0 || f == 1.0 }

  lemma Share(f: real, w: real)
    requires Fraction(f) && 0.0 <= w
    ensures 0.0 <= Part(f, w) <= w && (Part(f, w) == w <==> Full(f, w))
  {
    if 0.0 < w {
      assert (1.0 - f) * w == w - f * w;
      assert f < 1.0 ==> (1.0 - f) * w > 0.0;
    }
  }

  /** The weighted score is a percentage whenever each factor is a fraction: its clamp never bites either. */
  lemma ScoresArePercentages(f: Factors, w: Weights)
    requires Fractions(f) && NonNegative(w) && TotalWeight(w) > I.EPSILON
    ensures WeightedScore(f, w) == WeightedSum(f, w) / TotalWeight(w) * 100.0
    ensures 0.0 <= WeightedScore(f, w) <= 100.0
    ensures WeightedScore(f, w) == 100.0 <==> AllFull(f, w)
  {
    AllShares(f, w);
    hide WeightedSum, TotalWeight, AllFull, NonNegative, Fractions;
    Ratio(WeightedSum(f, w), TotalWeight(w));
  }

  predicate AllFull(f: Factors, w: Weights)
  {
    && Full(f.trend, w.trend) && Full(f.volatility, w.volatility) && Full(f.efficiency, w.efficiency)
    && Full(f.liquidity, w.liquidity) && Full(f.positioning, w.positioning) && Full(f.book, w.book)
  }

  lemma AllShares(f: Factors, w: Weights)
    requires Fractions(f) && NonNegative(w)
    ensures 0.0 <= WeightedSum(f, w) <= TotalWeight(w)
    ensures WeightedSum(f, w) == TotalWeight(w) <==> AllFull(f, w)
  {
    Share(f.trend, w.trend);
    Share(f.volatility, w.volatility);
    Share(f.efficiency, w.efficiency);
    Share(f.liquidity, w.liquidity);
    Share(f.positioning, w.positioning);
    Share(f.book, w.book);
    hide Full, Fraction, Part;
  }

  /** The vetoes are the cliff the factors slope down to: where one falls, its factor is already zero. */
  lemma VetoedDimensionsScoreZero(s: Snapshot, cfg: Config)
    ensures cfg.maxAbsFunding > I.EPSILON && Abs(s.fundingRate) >= cfg.maxAbsFunding ==> PositioningScore(s, cfg) == 0.0
    ensures cfg.maxSpreadBps > I.EPSILON && s.spreadBps >= cfg.maxSpreadBps ==> BookQualityScore(s, cfg) == 0.0
    ensures Fraction(PositioningScore(s, cfg)) && Fraction(BookQualityScore(s, cfg))
  {
    if cfg.maxAbsFunding > I.EPSILON && Abs(s.fundingRate) >= cfg.maxAbsFunding {
      AtLeastOne(Abs(s.fundingRate), cfg.maxAbsFunding);
    }
    if cfg.maxSpreadBps > I.EPSILON && s.spreadBps >= cfg.maxSpreadBps {
      AtLeastOne(Larger(s.spreadBps, 0.0), cfg.maxSpreadBps);
    }
  }

  lemma AtLeastOne(x: real, y: real)
    requires 0.0 < y <= x
    ensures 1.0 <= x / y
  {
    var q := x / y;
    assert q * y == x;
    assert q < 1.0 ==> (1.0 - q) * y > 0.0;
  }

  function SessionLiquidity(ts: int): real
  {
    var hour := TruncDiv(ts, 3600000) % 24;
    if 12 <= hour <= 15 then 1.0
    else if 16 <= hour <= 20 then 0.85
    else if 7 <= hour <= 11 then 0.8
    else if 21 <= hour <= 23 then 0.45
    else if hour <= 2 then 0.4
    else 0.55
  }

  // ---------------------------------------------------------------- the score

  function AtLeast(a: nat, b: nat): nat { if a < b then b else a }

  predicate HasHistory(s: Snapshot, cfg: Config)
  {
    Primary(s.timeframes).Some? && |PrimaryBars(s)| > AtLeast(AtLeast(cfg.atrPeriod, cfg.erPeriod), cfg.emaSlow)
  }

  function If(b: bool, v: Veto): seq<Veto>
  {
    if b then [v] else []
  }

  function VetoesOf(s: Snapshot, cfg: Config): seq<Veto>
  {
    If(s.now - s.feedTs > cfg.maxFeedAge, StaleFeed)
    + If(s.spreadBps > cfg.maxSpreadBps, SpreadTooWide)
    + If(s.depthUsd < cfg.minDepthUsd, InsufficientDepth)
    + If(Abs(s.fundingRate) > cfg.maxAbsFunding, FundingExtreme)
    + If(!HasHistory(s, cfg), InsufficientHistory)
  }

  function ReadingOf(s: Snapshot, cfg: Config): Reading
  {
    if Primary(s.timeframes).None? then UNMEASURED else VolatilityOf(PrimaryBars(s), cfg.atrPeriod, cfg.volWindow)
  }

  function EfficiencyOf(s: Snapshot, cfg: Config): Option<real>
  {
    if Primary(s.timeframes).None? then None else I.EfficiencyRatio(Closes(PrimaryBars(s)), cfg.erPeriod)
  }

  /** `hump` is the Gaussian band around the tradable percentile. */
  function FactorsOf(s: Snapshot, cfg: Config, hump: real -> real): Factors
  {
    Factors(TrendOf(s.timeframes, cfg).0,
            hump(ReadingOf(s, cfg).percentile.GetOr(0.5)),
            EfficiencyOf(s, cfg).GetOr(0.0),
            SessionLiquidity(s.feedTs),
            PositioningScore(s, cfg),
            BookQualityScore(s, cfg))
  }

  /** Zero under any veto, else the score rounded to a whole percentage. */
  function Tradability(vetoes: seq<Veto>, raw: real): int
  {
    if vetoes != [] then 0 else (I.Clamp(raw, 0.0, 100.0) + 0.5).Floor
  }

  method PushIf(vetoes: seq<Veto>, gate: bool, v: Veto) returns (out: seq<Veto>)
    ensures out == vetoes + If(gate, v)
  {
    out := vetoes;
    if gate { out := out + [v]; }
  }

  /** The hard gates, in the order they are pushed. */
  method Gates(s: Snapshot, cfg: Config) returns (vetoes: seq<Veto>)
    ensures vetoes == VetoesOf(s, cfg)
  {
    hide HasHistory, If;
    vetoes := PushIf([], s.now - s.feedTs > cfg.maxFeedAge, StaleFeed);
    vetoes := PushIf(vetoes, s.spreadBps > cfg.maxSpreadBps, SpreadTooWide);
    vetoes := PushIf(vetoes, s.depthUsd < cfg.minDepthUsd, InsufficientDepth);
    vetoes := PushIf(vetoes, Abs(s.fundingRate) > cfg.maxAbsFunding, FundingExtreme);
    vetoes := PushIf(vetoes, !HasHistory(s, cfg), InsufficientHistory);
  }

  method Score(s: Snapshot, cfg: Config, hump: real -> real) returns (vetoes: seq<Veto>, factors: Factors, tradability: int)
    ensures vetoes == VetoesOf(s, cfg) && factors == FactorsOf(s, cfg, hump)
    ensures tradability == Tradability(VetoesOf(s, cfg), WeightedScore(FactorsOf(s, cfg, hump), cfg.weights))
  {
    hide TrendOf, PositioningScore, BookQualityScore, VolatilityOf, WeightedScore, Tradability, SessionLiquidity, EfficiencyOf, VetoesOf;
    vetoes := Gates(s, cfg);
    var magnitude, direction := Trend(s.timeframes, cfg);
    var atrPct, percentile := 0.0, 0.5;
    if Primary(s.timeframes).Some? {
      atrPct, percentile := Volatility.Volatility(PrimaryBars(s), cfg.atrPeriod, cfg.volWindow);
    }
    factors := Factors(magnitude, hump(percentile), EfficiencyOf(s, cfg).GetOr(0.0), SessionLiquidity(s.feedTs),
                       PositioningScore(s, cfg), BookQualityScore(s, cfg));
    tradability := Tradability(vetoes, WeightedScore(factors, cfg.weights));
  }

  // ---------------------------------------------------------------- exactly when each gate falls

  /** The condition of one veto, in the source's own units. */
  predicate Falls(v: Veto, s: Snapshot, cfg: Config)
  {
    match v
    case StaleFeed => cfg.maxFeedAge < s.now - s.feedTs
    case SpreadTooWide => cfg.maxSpreadBps < s.spreadBps
    case InsufficientDepth => s.depthUsd < cfg.minDepthUsd
    case FundingExtreme => s.fundingRate < -cfg.maxAbsFunding || cfg.maxAbsFunding < s.fundingRate
    case InsufficientHistory => |PrimaryBars(s)| <= cfg.atrPeriod || |PrimaryBars(s)| <= cfg.erPeriod || |PrimaryBars(s)| <= cfg.emaSlow
  }

  lemma NoPrimaryNoPrimaryBars(s: Snapshot)
    ensures Primary(s.timeframes).None? ==> PrimaryBars(s) == []
  {
  }

  lemma InIf(b: bool, v: Veto, x: Veto)
    ensures x in If(b, v) <==> b && x == v
    ensures multiset(If(b, v))[x] == if b && x == v then 1 else 0
  {
  }

  /** Each veto is in the list exactly under its own condition, and then once. */
  lemma VetoesExactlyWhen(s: Snapshot, cfg: Config, v: Veto)
    ensures v in VetoesOf(s, cfg) <==> Falls(v, s, cfg)
    ensures multiset(VetoesOf(s, cfg))[v] <= 1
  {
    NoPrimaryNoPrimaryBars(s);
    InIf(s.now - s.feedTs > cfg.maxFeedAge, StaleFeed, v);
    InIf(s.spreadBps > cfg.maxSpreadBps, SpreadTooWide, v);
    InIf(s.depthUsd < cfg.minDepthUsd, InsufficientDepth, v);
    InIf(Abs(s.fundingRate) > cfg.maxAbsFunding, FundingExtreme, v);
    InIf(!HasHistory(s, cfg), InsufficientHistory, v);
    hide PrimaryBars, Primary, If;
  }

  /** Young enough, tight enough, deep enough, tame enough, and with history enough. */
  predicate WithinLimits(s: Snapshot, cfg: Config)
  {
    && s.now <= s.feedTs + cfg.maxFeedAge
    && s.spreadBps <= cfg.maxSpreadBps
    && cfg.minDepthUsd <= s.depthUsd
    && -cfg.maxAbsFunding <= s.fundingRate <= cfg.maxAbsFunding
    && cfg.atrPeriod < |PrimaryBars(s)| && cfg.erPeriod < |PrimaryBars(s)| && cfg.emaSlow < |PrimaryBars(s)|
  }

  /** The weighted mean of six factors, as a percentage. */
  function MeanPercent(f: Factors, w: Weights): real
    requires TotalWeight(w) > I.EPSILON
  {
    (f.trend * w.trend + f.volatility * w.volatility + f.efficiency * w.efficiency
     + f.liquidity * w.liquidity + f.positioning * w.positioning + f.book * w.book)
    / (w.trend + w.volatility + w.efficiency + w.liquidity + w.positioning + w.book) * 100.0
  }

  lemma ScoresAreMeans(f: Factors, w: Weights)
    requires Fractions(f) && NonNegative(w) && TotalWeight(w) > I.EPSILON
    ensures WeightedScore(f, w) == MeanPercent(f, w) && 0.0 <= MeanPercent(f, w) <= 100.0
  {
    ScoresArePercentages(f, w);
    hide WeightedScore, Fractions, NonNegative;
  }

  /**
   Nothing is vetoed exactly when everything is within its limit, and then the score is the
   weighted mean of the factors as a whole percentage, rounded half up; otherwise it is zero.
   */
  lemma ScoresExactlyWithinLimits(s: Snapshot, cfg: Config, hump: real -> real)
    requires NonNegative(cfg.weights) && TotalWeight(cfg.weights) > I.EPSILON
    requires forall x :: Fraction(hump(x))
    ensures VetoesOf(s, cfg) == [] <==> WithinLimits(s, cfg)
    ensures var f := FactorsOf(s, cfg, hump);
      var mean, score := MeanPercent(f, cfg.weights), Tradability(VetoesOf(s, cfg), WeightedScore(f, cfg.weights));
      if WithinLimits(s, cfg) then score as real - 0.5 <= mean < score as real + 0.5 else score == 0
  {
    hide FactorsOf, VetoesOf, WithinLimits, NonNegative, WeightedScore, Tradability, MeanPercent, Fractions, TotalWeight;
    var f := FactorsOf(s, cfg, hump);
    EmptyExactlyWithinLimits(s, cfg);
    FactorsAreFractions(s, cfg, hump);
    ScoresAreMeans(f, cfg.weights);
    WholePercentages(VetoesOf(s, cfg), WeightedScore(f, cfg.weights));
  }

  lemma WholePercentages(vetoes: seq<Veto>, raw: real)
    requires 0.0 <= raw <= 100.0
    ensures var score := Tradability(vetoes, raw);
      if vetoes == [] then score as real - 0.5 <= raw < score as real + 0.5 else score == 0
  {
  }

  lemma EmptyExactlyWithinLimits(s: Snapshot, cfg: Config)
    ensures VetoesOf(s, cfg) == [] <==> WithinLimits(s, cfg)
  {
    forall v: Veto ensures v in VetoesOf(s, cfg) <==> Falls(v, s, cfg) { VetoesExactlyWhen(s, cfg, v); }
    hide VetoesOf, PrimaryBars;
    if VetoesOf(s, cfg) != [] {
      var v := VetoesOf(s, cfg)[0];
      assert v in VetoesOf(s, cfg);
      assert Falls(v, s, cfg);
    } else {
      assert !Falls(StaleFeed, s, cfg) && !Falls(SpreadTooWide, s, cfg) && !Falls(InsufficientDepth, s, cfg)
        && !Falls(FundingExtreme, s, cfg) && !Falls(InsufficientHistory, s, cfg);
    }
  }

  // ---------------------------------------------------------------- what the factors measure

  lemma SignOfProduct(q: real, y: real)
    requires 0.0 < y
    ensures 0.0 < q * y <==> 0.0 < q
    ensures q * y < 0.0 <==> q < 0.0
  {
    if q < 0.0 { assert 0.0 < (-q) * y; }
  }

  lemma QuotientTimes(x: real, y: real, q: real)
    requires 0.0 < y && q == x / y
    ensures q * y == x && (q < 1.0 <==> x < y) && (0.0 < q <==> 0.0 < x)
  {
    assert q * y == x;
    var rest := 1.0 - q;
    assert rest * y == y - q * y;
    SignOfProduct(rest, y);
    SignOfProduct(q, y);
    assert 0.0 < rest <==> 0.0 < y - x;
  }

  /**
   Positioning is lost in proportion to the funding rate, up to twice as fast as open interest
   grows: full exactly without funding, and gone where the stretch so amplified reaches the limit.
   */
  lemma PositioningFallsWithFunding(s: Snapshot, cfg: Config)
    requires cfg.maxAbsFunding > I.EPSILON
    ensures var score, funding := PositioningScore(s, cfg), if s.fundingRate < 0.0 then -s.fundingRate else s.fundingRate;
      var pace := if s.oiDelta <= 0.0 then 1.0 else if 1.0 <= s.oiDelta then 2.0 else 1.0 + s.oiDelta;
      && (score == 1.0 <==> s.fundingRate == 0.0)
      && (score == 0.0 <==> cfg.maxAbsFunding <= funding * pace)
      && (0.0 < score ==> (1.0 - score) * cfg.maxAbsFunding == funding * pace)
  {
    var funding := Abs(s.fundingRate);
    var q := funding / cfg.maxAbsFunding;
    var pace := if s.oiDelta > 0.0 then 1.0 + I.Clamp(s.oiDelta, 0.0, 1.0) else 1.0;
    QuotientTimes(funding, cfg.maxAbsFunding, q);
    assert q * pace * cfg.maxAbsFunding == funding * pace;
    Amplified(funding, cfg.maxAbsFunding, q, pace);
  }

  lemma Amplified(x: real, y: real, q: real, pace: real)
    requires 0.0 < y && 0.0 <= x && q * y == x && 1.0 <= pace && 0.0 <= q
    ensures q * pace * y == x * pace
    ensures q * pace < 1.0 <==> x * pace < y
    ensures q * pace == 0.0 <==> x == 0.0
    ensures 1.0 <= q ==> 1.0 <= q * pace && y <= x * pace
    ensures q <= q * pace
  {
    var z := q * pace;
    assert z * y == (q * y) * pace;
    SignOfProduct(1.0 - z, y);
    assert (1.0 - z) * y == y - x * pace;
    SignOfProduct(z, y);
    SignOfProduct(x, pace);
    if 0.0 < q { SignOfProduct(pace - 1.0, q); }
    assert z - q == (pace - 1.0) * q;
  }

  /** The spread's share of its limit is lost, and the depth's share of its target kept; the worse of the two counts. */
  lemma BooksAreAsGoodAsTheirWorstSide(s: Snapshot, cfg: Config)
    requires cfg.maxSpreadBps > I.EPSILON && cfg.targetDepthUsd > I.EPSILON
    ensures var spread, depth, book := SpreadQuality(s, cfg), DepthQuality(s, cfg), BookQualityScore(s, cfg);
      && (book == spread || book == depth) && book <= spread && book <= depth
      && (s.spreadBps <= 0.0 ==> spread == 1.0) && (cfg.maxSpreadBps <= s.spreadBps ==> spread == 0.0)
      && (0.0 <= s.spreadBps <= cfg.maxSpreadBps ==> (1.0 - spread) * cfg.maxSpreadBps == s.spreadBps)
      && (s.depthUsd <= 0.0 ==> depth == 0.0) && (cfg.targetDepthUsd <= s.depthUsd ==> depth == 1.0)
      && (0.0 <= s.depthUsd <= cfg.targetDepthUsd ==> depth * cfg.targetDepthUsd == s.depthUsd)
  {
    var spread, depth := Larger(s.spreadBps, 0.0), Larger(s.depthUsd, 0.0);
    QuotientTimes(spread, cfg.maxSpreadBps, spread / cfg.maxSpreadBps);
    QuotientTimes(depth, cfg.targetDepthUsd, depth / cfg.targetDepthUsd);
    WholeShare(spread, cfg.maxSpreadBps);
    WholeShare(depth, cfg.targetDepthUsd);
  }

  lemma WholeShare(x: real, y: real)
    requires 0.0 < y && 0.0 <= x
    ensures x == y ==> x / y == 1.0
    ensures x == 0.0 ==> x / y == 0.0
    ensures x <= y ==> x / y <= 1.0
  {
    Ratio(if x <= y then x else 0.0, y);
    QuotientTimes(x, y, x / y);
    assert x == 0.0 ==> (x / y) * y == 0.0;
  }

  /** A vote is up or down exactly when the averages are at least the dead band of the price apart. */
  lemma VotesAreSeparations(fast: real, slow: real, price: real, deadband: real)
    requires 0.0 < price && 0.0 < deadband
    ensures DirectionOf(fast, slow, price, deadband) == 1.0 <==> fast - slow >= deadband * price
    ensures DirectionOf(fast, slow, price, deadband) == -1.0 <==> slow - fast >= deadband * price
  {
    var q := (fast - slow) / price;
    assert q * price == fast - slow;
    assert q >= deadband ==> (q - deadband) * price >= 0.0;
    assert q < deadband ==> (deadband - q) * price > 0.0;
    assert -q >= deadband ==> (-q - deadband) * price >= 0.0;
    assert -q < deadband ==> (deadband + q) * price > 0.0;
  }

  /** The clock factor depends on the hour alone: full in the overlap of London and New York, least right after midnight. */
  lemma LiquidityFollowsTheClock(ts: int)
    requires 0 <= ts
    ensures SessionLiquidity(ts + 86_400_000) == SessionLiquidity(ts)
    ensures var minute := ts / 60_000 % 1440;
      && (SessionLiquidity(ts) == 1.0 <==> 720 <= minute < 960)
      && (SessionLiquidity(ts) >= 0.8 <==> 420 <= minute < 1260)
      && (SessionLiquidity(ts) > 0.8 <==> 720 <= minute < 1260)
      && (SessionLiquidity(ts) > 0.45 <==> 180 <= minute < 1260)
      && (SessionLiquidity(ts) == 0.4 <==> minute < 180)
      && 0.4 <= SessionLiquidity(ts) <= 1.0
  {
    HourOfTheMinute(ts);
    TheNextDay(ts);
  }

  lemma HourOfTheMinute(ts: int)
    requires 0 <= ts
    ensures var hour, minute := ts / 3_600_000 % 24, ts / 60_000 % 1440; hour * 60 <= minute < hour * 60 + 60
  {
    var minutes := ts / 60_000;
    assert minutes / 60 == ts / 3_600_000;
    var day := minutes / 60 / 24;
    assert minutes / 60 == day * 24 + minutes / 60 % 24;
    assert minutes == minutes / 60 * 60 + minutes % 60;
    assert minutes == day * 1440 + (minutes / 60 % 24 * 60 + minutes % 60);
  }

  lemma TheNextDay(ts: int)
    requires 0 <= ts
    ensures TruncDiv(ts + 86_400_000, 3600000) % 24 == TruncDiv(ts, 3600000) % 24
  {
    assert (ts + 86_400_000) / 3600000 == ts / 3600000 + 24;
  }

  /** Where a limit, a target or all weight vanishes nothing is divided by it: what each reading then is. */
  lemma VanishingLimitsAreNotDividedBy(s: Snapshot, cfg: Config, f: Factors)
    ensures cfg.maxAbsFunding <= I.EPSILON ==> PositioningScore(s, cfg) == 1.0
    ensures cfg.maxSpreadBps <= I.EPSILON || cfg.targetDepthUsd <= I.EPSILON ==> BookQualityScore(s, cfg) == 0.0
    ensures VoteWeight(s.timeframes, cfg) <= I.EPSILON ==> TrendOf(s.timeframes, cfg) == (0.0, 0.0)
    ensures TotalWeight(cfg.weights) <= I.EPSILON ==> WeightedScore(f, cfg.weights) == 0.0
  {
    VetoedDimensionsScoreZero(s, cfg);
    hide VoteSum, VoteWeight;
  }

  /** The last `n` closes of some bars. */
  predicate AreLastCloses(w: seq<real>, bars: seq<Candle>, n: nat)
  {
    |w| == n <= |bars| && forall k | 0 <= k < n :: w[k] == bars[|bars| - n + k].close
  }

  /**
   What the measured factors measure: the last of the heaviest timeframes that have bars. Its
   efficiency is net travel over path for the last closes; its volatility is the hump at the share
   of the history below the present range. Without bars both fall back to their defaults.
   */
  lemma FactorsMeasureThePrimary(s: Snapshot, cfg: Config, hump: real -> real, w: seq<real>)
    ensures (forall j | 0 <= j < |s.timeframes| :: s.timeframes[j].candles == []) ==>
      FactorsOf(s, cfg, hump).volatility == hump(0.5) && FactorsOf(s, cfg, hump).efficiency == 0.0
    ensures forall i: nat | i < |s.timeframes| && Primary(s.timeframes) == Some(i) ::
      var f, bars := FactorsOf(s, cfg, hump), s.timeframes[i].candles;
      && (0 < cfg.erPeriod < |bars| && AreLastCloses(w, bars, cfg.erPeriod + 1) ==>
            f.efficiency == if I.Path(w) <= I.EPSILON then 0.0 else Abs(w[|w| - 1] - w[0]) / I.Path(w))
      && (cfg.erPeriod == 0 || |bars| <= cfg.erPeriod ==> f.efficiency == 0.0)
      && f.volatility == hump(VolatilityOf(bars, cfg.atrPeriod, cfg.volWindow).percentile.GetOr(0.5))
  {
    NoPrimaryNoBars(s.timeframes);
    hide VolatilityOf, TrendOf, PositioningScore, BookQualityScore, SessionLiquidity, Primary, I.Path;
    if Primary(s.timeframes).Some? {
      EfficiencyOfThePrimary(s, cfg, w);
    }
    hide EfficiencyOf;
  }

  lemma EfficiencyOfThePrimary(s: Snapshot, cfg: Config, w: seq<real>)
    requires Primary(s.timeframes).Some?
    ensures var bars := s.timeframes[Primary(s.timeframes).value].candles;
      && (0 < cfg.erPeriod < |bars| && AreLastCloses(w, bars, cfg.erPeriod + 1) ==>
            EfficiencyOf(s, cfg) == Some(if I.Path(w) <= I.EPSILON then 0.0 else Abs(w[|w| - 1] - w[0]) / I.Path(w)))
      && (cfg.erPeriod == 0 || |bars| <= cfg.erPeriod ==> EfficiencyOf(s, cfg).None?)
  {
    hide Primary, I.Path, AreLastCloses, Closes, I.EfficiencyRatio;
    EfficiencyOfBars(PrimaryBars(s), cfg.erPeriod, w);
  }

  lemma LastCloses(bars: seq<Candle>, n: nat, w: seq<real>)
    requires n <= |bars| && AreLastCloses(w, bars, n)
    ensures |Closes(bars)| == |bars| && w == Closes(bars)[|bars| - n..]
  {
  }

  lemma EfficiencyOfBars(bars: seq<Candle>, period: nat, w: seq<real>)
    ensures 0 < period < |bars| && AreLastCloses(w, bars, period + 1) ==>
      w != [] && I.EfficiencyRatio(Closes(bars), period) == Some(if I.Path(w) <= I.EPSILON then 0.0 else Abs(w[|w| - 1] - w[0]) / I.Path(w))
    ensures period == 0 || |bars| <= period ==> I.EfficiencyRatio(Closes(bars), period).None?
  {
    hide I.Path;
    if 0 < period < |bars| {
      I.EfficiencyNeedsNoClamp(Closes(bars), period);
      if AreLastCloses(w, bars, period + 1) { LastCloses(bars, period + 1, w); }
      hide I.EfficiencyRatio, AreLastCloses;
    }
  }

  // ---------------------------------------------------------------- what an unvetoed score rests on

  predicate SaneBars(s: Snapshot)
  {
    forall i | 0 <= i < |s.timeframes| :: AllSane(s.timeframes[i].candles)
  }

  predicate PositivePeriods(cfg: Config)
  {
    0 < cfg.atrPeriod && 0 < cfg.erPeriod && 0 < cfg.emaFast && 0 < cfg.emaSlow
  }

  predicate PositiveWeights(s: Snapshot)
  {
    forall i | 0 <= i < |s.timeframes| :: I.EPSILON < s.timeframes[i].weight
  }

  /** No default stands in for a measurement: efficiency, range, percentile and the primary's vote. */
  predicate RestsOnData(s: Snapshot, cfg: Config)
  {
    var p := Primary(s.timeframes);
    && p.Some?
    && EfficiencyOf(s, cfg).Some?
    && ReadingOf(s, cfg).atrPct.Some?
    && ReadingOf(s, cfg).percentile.Some?
    && VoteOf(s.timeframes[p.value], cfg).Some?
    && VoteWeight(s.timeframes, cfg) > I.EPSILON
  }

  lemma {:induction false} VoteWeightCovers(tfs: seq<TimeframeData>, cfg: Config, i: nat)
    requires i < |tfs| && WeightsAreNonNegative(tfs)
    ensures 0.0 <= VoteWeight(tfs, cfg)
    ensures VoteOf(tfs[i], cfg).Some? ==> tfs[i].weight <= VoteWeight(tfs, cfg)
  {
    hide VoteOf;
    var n := |tfs| - 1;
    if i < n { VoteWeightCovers(tfs[..n], cfg, i); } else if n > 0 { VoteWeightCovers(tfs[..n], cfg, 0); }
  }

  lemma VotesExactlyWhen(tf: TimeframeData, cfg: Config)
    requires AllSane(tf.candles) && 0 < cfg.emaFast && 0 < cfg.emaSlow
    ensures VoteOf(tf, cfg).Some? <==> cfg.emaFast <= |tf.candles| && cfg.emaSlow <= |tf.candles|
  {
    hide I.EmaFrom, DirectionOf;
  }

  /**
   Past the history gate, a score rests on data exactly when the volatility window outlasts
   the range period and the fast average fits the primary's bars: the gate checks neither.
   */
  lemma GatedScoresRestOnDataExactlyWhen(s: Snapshot, cfg: Config)
    requires SaneBars(s) && PositivePeriods(cfg) && PositiveWeights(s)
    requires HasHistory(s, cfg)
    ensures RestsOnData(s, cfg) <==> cfg.atrPeriod < cfg.volWindow && cfg.emaFast <= |PrimaryBars(s)|
  {
    var p := Primary(s.timeframes).value;
    MeasuredExactlyWhen(PrimaryBars(s), cfg.atrPeriod, cfg.volWindow);
    VotesExactlyWhen(s.timeframes[p], cfg);
    VoteWeightCovers(s.timeframes, cfg, p);
    EfficiencyIsMeasured(s, cfg);
    hide VolatilityOf, VoteOf, VoteWeight, AllSane, EfficiencyOf, SaneBars;
  }

  lemma EfficiencyIsMeasured(s: Snapshot, cfg: Config)
    requires HasHistory(s, cfg) && 0 < cfg.erPeriod
    ensures EfficiencyOf(s, cfg).Some?
  {
    hide I.Path;
  }

  /** With the fast period no longer than the slow one, an empty veto list is a guarantee. */
  lemma UnvetoedScoresRestOnData(s: Snapshot, cfg: Config)
    requires SaneBars(s) && PositivePeriods(cfg) && PositiveWeights(s)
    requires cfg.emaFast <= cfg.emaSlow && cfg.atrPeriod < cfg.volWindow
    ensures VetoesOf(s, cfg) == [] ==> RestsOnData(s, cfg)
  {
    if VetoesOf(s, cfg) == [] {
      assert HasHistory(s, cfg) by { assert If(!HasHistory(s, cfg), InsufficientHistory) == []; }
      GatedScoresRestOnDataExactlyWhen(s, cfg);
    }
  }

  lemma FactorsAreFractions(s: Snapshot, cfg: Config, hump: real -> real)
    requires forall x :: Fraction(hump(x))
    ensures Fractions(FactorsOf(s, cfg, hump))
  {
    VetoedDimensionsScoreZero(s, cfg);
    ClampedFactorsAreFractions(s, cfg);
    hide PositioningScore, BookQualityScore, TrendOf, EfficiencyOf, ReadingOf;
    var percentile: real := ReadingOf(s, cfg).percentile.GetOr(0.5);
    assert Fraction(hump(percentile));
  }

  lemma ClampedFactorsAreFractions(s: Snapshot, cfg: Config)
    ensures Fraction(TrendOf(s.timeframes, cfg).0)
    ensures Fraction(EfficiencyOf(s, cfg).GetOr(0.0))
  {
    hide VoteSum, VoteWeight, I.Path, PrimaryBars, Closes;
  }

  /**
   A positive score is earned: the feed is young, the book good enough, funding tame, and
   every measured factor is a measurement; a score never leaves 0 to 100.
   */
  lemma APositiveScoreIsEarned(s: Snapshot, cfg: Config, hump: real -> real)
    requires SaneBars(s) && PositivePeriods(cfg) && PositiveWeights(s)
    requires cfg.emaFast <= cfg.emaSlow && cfg.atrPeriod < cfg.volWindow
    requires NonNegative(cfg.weights) && TotalWeight(cfg.weights) > I.EPSILON
    requires forall x :: Fraction(hump(x))
    ensures var f := FactorsOf(s, cfg, hump);
      var score := Tradability(VetoesOf(s, cfg), WeightedScore(f, cfg.weights));
      && 0 <= score <= 100
      && (score > 0 ==>
            && s.now - s.feedTs <= cfg.maxFeedAge && s.spreadBps <= cfg.maxSpreadBps
            && cfg.minDepthUsd <= s.depthUsd && Abs(s.fundingRate) <= cfg.maxAbsFunding
            && RestsOnData(s, cfg)
            && score == (WeightedSum(f, cfg.weights) / TotalWeight(cfg.weights) * 100.0 + 0.5).Floor)
  {
    FactorsAreFractions(s, cfg, hump);
    UnvetoedScoresRestOnData(s, cfg);
    ScoresArePercentages(FactorsOf(s, cfg, hump), cfg.weights);
    hide FactorsOf, RestsOnData, HasHistory, WeightedSum, TotalWeight, WeightedScore, NonNegative, SaneBars, PositivePeriods, PositiveWeights;
  }

  /** The periods and windows the scorer ships with meet what the guarantee asks. */
  lemma ShippedPeriodsAreEnough(s: Snapshot, cfg: Config)
    requires SaneBars(s) && PositiveWeights(s)
    requires cfg.atrPeriod == 14 && cfg.erPeriod == 20 && cfg.emaFast == 21 && cfg.emaSlow == 55 && cfg.volWindow == 200
    ensures VetoesOf(s, cfg) == [] ==> RestsOnData(s, cfg) && |PrimaryBars(s)| > 55
  {
    UnvetoedScoresRestOnData(s, cfg);
    if VetoesOf(s, cfg) == [] { assert If(!HasHistory(s, cfg), InsufficientHistory) == []; }
  }
}
