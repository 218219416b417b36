/** Bracket resolution on one-minute bars: first hits, same-bar ambiguity, and fees. */
module Bracket {
  import opened Wrappers

  datatype Minute = Minute(openTime: int, low: real, high: real, close: real, volume: real, takerBuy: real)

  datatype Direction = Long | Short

  /** How a bar that spans both stop and target is counted. */
  datatype SameBar = Pessimistic | Optimistic

  datatype Reason = Stop | Target | Time

  datatype Resolved = Resolved(exitIndex: nat, reason: Reason, netR: real, feeR: real, barsHeld: int)

  const TIME_STOP_BARS: nat := 480
  const MAKER_FEE: real := 0.0002
  const TAKER_FEE: real := 0.0005

  /** Where the trade gets out. */
  datatype Exit = Exit(index: nat, price: real, reason: Reason)

  datatype Levels = Levels(direction: Direction, stop: real, target: real)

  predicate StopHit(v: Levels, b: Minute)
  {
    if v.direction == Long then b.low <= v.stop else b.high >= v.stop
  }

  predicate TargetHit(v: Levels, b: Minute)
  {
    if v.direction == Long then b.high >= v.target else b.low <= v.target
  }

  /** `argmax` of a hit mask, when it holds anywhere. */
  function FirstStop(m: seq<Minute>, i: nat, end: nat, v: Levels): (r: Option<nat>)
    requires i <= end <= |m|
    decreases end - i
  {
    if i == end then None else if StopHit(v, m[i]) then Some(i) else FirstStop(m, i + 1, end, v)
  }

  function FirstTarget(m: seq<Minute>, i: nat, end: nat, v: Levels): (r: Option<nat>)
    requires i <= end <= |m|
    decreases end - i
  {
    if i == end then None else if TargetHit(v, m[i]) then Some(i) else FirstTarget(m, i + 1, end, v)
  }

  /** The exit from two whole-window scans, as `resolve_bracket` finds it. */
  function TwoScans(m: seq<Minute>, i: nat, end: nat, v: Levels, rule: SameBar): Exit
    requires i < end <= |m|
  {
    var s, t := FirstStop(m, i, end, v), FirstTarget(m, i, end, v);
    if s.None? && t.None? then Exit(end - 1, m[end - 1].close, Time)
    else if t.None? || (s.Some? && (s.value < t.value || (s == t && rule == Pessimistic)))
    then Exit(s.value, v.stop, Stop)
    else Exit(t.value, v.target, Target)
  }

  /**
   The same trade lived bar by bar. `stopFirst(k)` says which level was really touched first
   inside bar `k`, should that bar span both.
   */
  function Walk(m: seq<Minute>, i: nat, end: nat, v: Levels, stopFirst: nat -> bool): Exit
    requires i < end <= |m|
    decreases end - i
  {
    if StopHit(v, m[i]) && (!TargetHit(v, m[i]) || stopFirst(i)) then Exit(i, v.stop, Stop)
    else if TargetHit(v, m[i]) then Exit(i, v.target, Target)
    else if i + 1 == end then Exit(i, m[i].close, Time)
    else Walk(m, i + 1, end, v, stopFirst)
  }

  lemma {:induction false} FirstHitsAreForward(m: seq<Minute>, i: nat, end: nat, v: Levels)
    requires i <= end <= |m|
    ensures FirstStop(m, i, end, v).Some? ==> i <= FirstStop(m, i, end, v).value < end
    ensures FirstTarget(m, i, end, v).Some? ==> i <= FirstTarget(m, i, end, v).value < end
    decreases end - i
  {
    if i < end { FirstHitsAreForward(m, i + 1, end, v); }
  }

  /** Two whole-window scans find the exit of the bar-by-bar walk, under either rule. */
  lemma {:induction false} TwoScansAreOneWalk(m: seq<Minute>, i: nat, end: nat, v: Levels, rule: SameBar)
    requires i < end <= |m|
    ensures TwoScans(m, i, end, v, rule) == Walk(m, i, end, v, _ => rule == Pessimistic)
    decreases end - i
  {
    FirstHitsAreForward(m, i + 1, end, v);
    if i + 1 < end && !StopHit(v, m[i]) && !TargetHit(v, m[i]) {
      TwoScansAreOneWalk(m, i + 1, end, v, rule);
    }
  }

  /** The first bar that touches either level touches both. */
  predicate Straddles(m: seq<Minute>, i: nat, end: nat, v: Levels)
    requires i <= end <= |m|
  {
    exists k :: i <= k < end && StopHit(v, m[k]) && TargetHit(v, m[k])
      && forall j | i <= j < k :: !StopHit(v, m[j]) && !TargetHit(v, m[j])
  }

  /**
   Whatever order the levels were really touched in, a trade exits on the same bar: at the
   stop or at the target when the first touching bar spans both, and otherwise at one price.
   */
  lemma {:induction false} TheTruthIsOneOfTwo(m: seq<Minute>, i: nat, end: nat, v: Levels, stopFirst: nat -> bool)
    requires i < end <= |m|
    ensures var x := Walk(m, i, end, v, stopFirst);
      var pess, opt := TwoScans(m, i, end, v, Pessimistic), TwoScans(m, i, end, v, Optimistic);
      && i <= x.index < end
      && x.index == pess.index == opt.index
      && (Straddles(m, i, end, v) ==> pess == Exit(x.index, v.stop, Stop) && opt == Exit(x.index, v.target, Target) && (x == pess || x == opt))
      && (!Straddles(m, i, end, v) ==> x == pess == opt)
    decreases end - i
  {
    FirstHitsAreForward(m, i + 1, end, v);
    if i + 1 < end && !StopHit(v, m[i]) && !TargetHit(v, m[i]) {
      TheTruthIsOneOfTwo(m, i + 1, end, v, stopFirst);
      assert Straddles(m, i, end, v) <==> Straddles(m, i + 1, end, v);
    } else if StopHit(v, m[i]) && TargetHit(v, m[i]) {
      assert Straddles(m, i, end, v);
    }
  }

  // ---------------------------------------------------------------- money

  function Risk(entry: real, stop: real): real
  {
    if entry < stop then stop - entry else entry - stop
  }

  function TargetOf(entry: real, stop: real, rMult: real, d: Direction): real
  {
    if d == Long then entry + rMult * Risk(entry, stop) else entry - rMult * Risk(entry, stop)
  }

  function Sign(d: Direction): real
  {
    if d == Long then 1.0 else -1.0
  }

  function Fees(entry: real, exit: real, entryRate: real, exitRate: real): real
  {
    entryRate * entry + exitRate * exit
  }

  function NetR(d: Direction, entry: real, stop: real, exit: real, fees: real): real
    requires Risk(entry, stop) > 0.0
  {
    (Sign(d) * (exit - entry) - fees) / Risk(entry, stop)
  }

  /** The window a trade entered at `entryIdx` lives in: after the entry bar, to the time stop. */
  function WindowEnd(m: seq<Minute>, entryIdx: nat): nat
  {
    if |m| < entryIdx + 1 + TIME_STOP_BARS then |m| else entryIdx + 1 + TIME_STOP_BARS
  }

  function LevelsOf(entry: real, stop: real, rMult: real, d: Direction): Levels
  {
    Levels(d, stop, TargetOf(entry, stop, rMult, d))
  }

  /** Is there a bar to trade on, and any distance to the stop? */
  predicate Tradable(m: seq<Minute>, entryIdx: nat, entry: real, stop: real)
  {
    entryIdx + 1 < |m| && Risk(entry, stop) > 0.0
  }

  function V1Row(entryIdx: nat, entry: real, stop: real, d: Direction, x: Exit): Resolved
    requires Risk(entry, stop) > 0.0
  {
    var fees := TAKER_FEE * (entry + x.price);
    Resolved(x.index, x.reason, NetR(d, entry, stop, x.price, fees), fees / Risk(entry, stop), x.index - entryIdx)
  }

  function ResolveBracket(m: seq<Minute>, entryIdx: nat, entry: real, stop: real, rMult: real, d: Direction, rule: SameBar): Option<Resolved>
  {
    if !Tradable(m, entryIdx, entry, stop) then None
    else
      var x := TwoScans(m, entryIdx + 1, WindowEnd(m, entryIdx), LevelsOf(entry, stop, rMult, d), rule);
      Some(V1Row(entryIdx, entry, stop, d, x))
  }

  /** The price a row got out at, read back from its reason. */
  function ExitPrice(row: Resolved, m: seq<Minute>, entry: real, stop: real, rMult: real, d: Direction): real
    requires row.exitIndex < |m|
  {
    match row.reason
    case Stop => stop
    case Target => TargetOf(entry, stop, rMult, d)
    case Time => m[row.exitIndex].close
  }

  function Reprice(row: Resolved, m: seq<Minute>, entry: real, stop: real, rMult: real, d: Direction, entryRate: real, exitRate: Reason -> real): Resolved
    requires row.exitIndex < |m| && Risk(entry, stop) > 0.0
  {
    var x := ExitPrice(row, m, entry, stop, rMult, d);
    var fees := Fees(entry, x, entryRate, exitRate(row.reason));
    row.(netR := NetR(d, entry, stop, x, fees), feeR := fees / Risk(entry, stop))
  }

  /** What the second study charges to get out. */
  function ExitFee(reason: Reason): real
  {
    if reason == Target then MAKER_FEE else TAKER_FEE
  }

  lemma ExitsPriceThemselves(m: seq<Minute>, i: nat, end: nat, v: Levels, rule: SameBar)
    requires i < end <= |m|
    ensures var x := TwoScans(m, i, end, v, rule);
      i <= x.index < end && x.price == match x.reason case Stop => v.stop case Target => v.target case Time => m[x.index].close
  {
    FirstHitsAreForward(m, i, end, v);
  }

  /** Repricing a resolved bracket at the first study's rate on both legs gives that row back. */
  lemma RepricingAtTakerIsTheIdentity(m: seq<Minute>, entryIdx: nat, entry: real, stop: real, rMult: real, d: Direction, rule: SameBar)
    requires Tradable(m, entryIdx, entry, stop)
    ensures var row := ResolveBracket(m, entryIdx, entry, stop, rMult, d, rule);
      && row.Some? && entryIdx < row.value.exitIndex < |m| && row.value.barsHeld <= TIME_STOP_BARS
      && Reprice(row.value, m, entry, stop, rMult, d, TAKER_FEE, _ => TAKER_FEE) == row.value
  {
    ExitsPriceThemselves(m, entryIdx + 1, WindowEnd(m, entryIdx), LevelsOf(entry, stop, rMult, d), rule);
  }

  // ---------------------------------------------------------------- what a resolved row says

  /** The bar trades at or beyond the stop, seen from the trade's side. */
  predicate ReachesStop(d: Direction, stop: real, b: Minute)
  {
    if d == Long then b.low <= stop else stop <= b.high
  }

  predicate ReachesTarget(d: Direction, target: real, b: Minute)
  {
    if d == Long then target <= b.high else b.low <= target
  }

  /** The exit found from `i` on: the first bar that reaches a level, or the last bar of the window. */
  predicate FirstReached(m: seq<Minute>, i: nat, end: nat, d: Direction, stop: real, target: real, rule: SameBar, x: Exit)
    requires i < end <= |m|
  {
    && i <= x.index < end
    && (forall k | i <= k < x.index :: !ReachesStop(d, stop, m[k]) && !ReachesTarget(d, target, m[k]))
    && (x.reason.Stop? <==> ReachesStop(d, stop, m[x.index]) && (rule == Pessimistic || !ReachesTarget(d, target, m[x.index])))
    && (x.reason.Target? <==> ReachesTarget(d, target, m[x.index]) && (rule == Optimistic || !ReachesStop(d, stop, m[x.index])))
    && (x.reason.Time? ==> x.index + 1 == end)
    && x.price == match x.reason case Stop => stop case Target => target case Time => m[x.index].close
  }

  lemma {:induction false} WalksStopAtTheFirst(m: seq<Minute>, i: nat, end: nat, d: Direction, stop: real, target: real, rule: SameBar)
    requires i < end <= |m|
    ensures FirstReached(m, i, end, d, stop, target, rule, Walk(m, i, end, Levels(d, stop, target), _ => rule == Pessimistic))
    decreases end - i
  {
    if i + 1 < end && !ReachesStop(d, stop, m[i]) && !ReachesTarget(d, target, m[i]) {
      WalksStopAtTheFirst(m, i + 1, end, d, stop, target, rule);
      hide ReachesStop, ReachesTarget, StopHit, TargetHit;
    }
  }

  /**
   Where a row got out: on the first bar after the entry bar that reaches a level, which one
   by the same-bar rule should it reach both; or, when none is reached, at the close of the
   480th bar after the entry or of the tape's last.
   */
  lemma RowsExitAtTheFirstLevelReached(m: seq<Minute>, entryIdx: nat, entry: real, stop: real, rMult: real, d: Direction, rule: SameBar)
    requires Tradable(m, entryIdx, entry, stop)
    ensures var row := ResolveBracket(m, entryIdx, entry, stop, rMult, d, rule).value;
      var k, target := row.exitIndex, if d == Long then entry + rMult * Risk(entry, stop) else entry - rMult * Risk(entry, stop);
      && entryIdx < k < |m| && k <= entryIdx + 480 && row.barsHeld == k - entryIdx
      && (forall j | entryIdx < j < k :: !ReachesStop(d, stop, m[j]) && !ReachesTarget(d, target, m[j]))
      && (row.reason.Stop? <==> ReachesStop(d, stop, m[k]) && (rule == Pessimistic || !ReachesTarget(d, target, m[k])))
      && (row.reason.Target? <==> ReachesTarget(d, target, m[k]) && (rule == Optimistic || !ReachesStop(d, stop, m[k])))
      && (row.reason.Time? ==> k == entryIdx + 480 || k + 1 == |m|)
  {
    var v := LevelsOf(entry, stop, rMult, d);
    TwoScansAreOneWalk(m, entryIdx + 1, WindowEnd(m, entryIdx), v, rule);
    WalksStopAtTheFirst(m, entryIdx + 1, WindowEnd(m, entryIdx), d, stop, v.target, rule);
    hide Walk, TwoScans, NetR, Risk, ReachesStop, ReachesTarget;
  }

  lemma SharesOfRisk(x: real, y: real, risk: real)
    requires 0.0 < risk
    ensures (x - y) / risk + y / risk == x / risk && (y / risk) * risk == y
  {
    assert (x / risk - y / risk) * risk == x - y;
    CancelRisk(x / risk - y / risk, risk);
  }

  lemma CancelRisk(k: real, risk: real)
    requires 0.0 < risk
    ensures (k * risk) / risk == k
  {
    var q := (k * risk) / risk;
    assert (q - k) * risk == 0.0;
    assert q > k ==> (q - k) * risk > 0.0;
    assert q < k ==> (k - q) * risk > 0.0;
  }

  /** What a row made before fees, in units of its risk. */
  function Gross(row: Resolved, m: seq<Minute>, entry: real, stop: real, rMult: real, d: Direction): real
    requires row.exitIndex < |m| && Risk(entry, stop) > 0.0
  {
    match row.reason
    case Stop => if (d == Long) == (stop < entry) then -1.0 else 1.0
    case Target => rMult
    case Time => (if d == Long then m[row.exitIndex].close - entry else entry - m[row.exitIndex].close) / Risk(entry, stop)
  }

  /** Net and fees add up to the gross, and the fees, turned back into money, are these. */
  predicate AddsUp(row: Resolved, m: seq<Minute>, entry: real, stop: real, rMult: real, d: Direction, fees: real)
    requires row.exitIndex < |m| && Risk(entry, stop) > 0.0
  {
    row.netR + row.feeR == Gross(row, m, entry, stop, rMult, d) && row.feeR * Risk(entry, stop) == fees
  }

  /**
   Fees are paid in full and counted once, under either study: net and fees add up to the
   gross, which is one R lost at a stop behind the entry and the multiple won at the target; and
   the fees are each leg's rate on each leg's price.
   */
  lemma NetAndFeesAddUpToTheGross(m: seq<Minute>, entryIdx: nat, entry: real, stop: real, rMult: real, d: Direction, rule: SameBar, entryRate: real)
    requires Tradable(m, entryIdx, entry, stop)
    ensures ResolveBracket(m, entryIdx, entry, stop, rMult, d, rule).Some?
    ensures var row := ResolveBracket(m, entryIdx, entry, stop, rMult, d, rule).value;
      && row.exitIndex < |m|
      && var exit := ExitPrice(row, m, entry, stop, rMult, d);
         var again := Reprice(row, m, entry, stop, rMult, d, entryRate, ExitFee);
      && again == row.(netR := again.netR, feeR := again.feeR)
      && AddsUp(row, m, entry, stop, rMult, d, 0.0005 * (entry + exit))
      && AddsUp(again, m, entry, stop, rMult, d, entryRate * entry + (if row.reason.Target? then 0.0002 else 0.0005) * exit)
  {
    hide Risk, Gross, NetR, ResolveBracket, Reprice, Sign, ExitPrice, Fees, AddsUp;
    RowOf(m, entryIdx, entry, stop, rMult, d, rule);
    var row := ResolveBracket(m, entryIdx, entry, stop, rMult, d, rule).value;
    var exit := ExitPrice(row, m, entry, stop, rMult, d);
    RepricedRow(row, m, entry, stop, rMult, d, entryRate);
    var again := Reprice(row, m, entry, stop, rMult, d, entryRate, ExitFee);
    ARowAddsUp(row, m, entry, stop, rMult, d, 0.0005 * (entry + exit));
    ARowAddsUp(again, m, entry, stop, rMult, d, Fees(entry, exit, entryRate, ExitFee(row.reason)));
  }

  lemma ARowAddsUp(row: Resolved, m: seq<Minute>, entry: real, stop: real, rMult: real, d: Direction, fees: real)
    requires row.exitIndex < |m| && Risk(entry, stop) > 0.0
    requires row.netR == NetR(d, entry, stop, ExitPrice(row, m, entry, stop, rMult, d), fees) && row.feeR == fees / Risk(entry, stop)
    ensures AddsUp(row, m, entry, stop, rMult, d, fees)
  {
    GrossOfAnExit(row, m, entry, stop, rMult, d);
    NetAndFees(d, entry, stop, ExitPrice(row, m, entry, stop, rMult, d), fees);
    hide Risk, Gross, NetR, Sign, ExitPrice;
  }

  lemma NetAndFees(d: Direction, entry: real, stop: real, exit: real, fees: real)
    requires Risk(entry, stop) > 0.0
    ensures NetR(d, entry, stop, exit, fees) + fees / Risk(entry, stop) == Sign(d) * (exit - entry) / Risk(entry, stop)
    ensures fees / Risk(entry, stop) * Risk(entry, stop) == fees
  {
    SharesOfRisk(Sign(d) * (exit - entry), fees, Risk(entry, stop));
    hide Risk;
  }

  /** A resolved row in terms of its exit price, and the same once repriced. */
  lemma RowOf(m: seq<Minute>, entryIdx: nat, entry: real, stop: real, rMult: real, d: Direction, rule: SameBar)
    requires Tradable(m, entryIdx, entry, stop)
    ensures ResolveBracket(m, entryIdx, entry, stop, rMult, d, rule).Some?
    ensures var row := ResolveBracket(m, entryIdx, entry, stop, rMult, d, rule).value;
      && row.exitIndex < |m|
      && var exit := ExitPrice(row, m, entry, stop, rMult, d);
         var fees := TAKER_FEE * (entry + exit);
      row.netR == NetR(d, entry, stop, exit, fees) && row.feeR == fees / Risk(entry, stop)
  {
    ExitsPriceThemselves(m, entryIdx + 1, WindowEnd(m, entryIdx), LevelsOf(entry, stop, rMult, d), rule);
    hide TwoScans, NetR, Risk;
  }

  lemma RepricedRow(row: Resolved, m: seq<Minute>, entry: real, stop: real, rMult: real, d: Direction, entryRate: real)
    requires row.exitIndex < |m| && Risk(entry, stop) > 0.0
    ensures var exit, again := ExitPrice(row, m, entry, stop, rMult, d), Reprice(row, m, entry, stop, rMult, d, entryRate, ExitFee);
      var fees := Fees(entry, exit, entryRate, ExitFee(row.reason));
      && again == row.(netR := again.netR, feeR := again.feeR)
      && ExitPrice(again, m, entry, stop, rMult, d) == exit
      && again.netR == NetR(d, entry, stop, exit, fees) && again.feeR == fees / Risk(entry, stop)
      && fees == entryRate * entry + (if row.reason.Target? then 0.0002 else 0.0005) * exit
  {
    hide NetR, Risk;
  }

  lemma GrossOfAnExit(row: Resolved, m: seq<Minute>, entry: real, stop: real, rMult: real, d: Direction)
    requires row.exitIndex < |m| && Risk(entry, stop) > 0.0
    ensures Sign(d) * (ExitPrice(row, m, entry, stop, rMult, d) - entry) / Risk(entry, stop) == Gross(row, m, entry, stop, rMult, d)
  {
    var risk, exit := Risk(entry, stop), ExitPrice(row, m, entry, stop, rMult, d);
    SignTimes(d, exit - entry);
    CancelRisk(1.0, risk);
    CancelRisk(-1.0, risk);
    CancelRisk(rMult, risk);
    hide Sign;
    match row.reason
    case Stop => assert exit - entry == if stop < entry then -1.0 * risk else 1.0 * risk;
      assert 0.0 - (exit - entry) == if stop < entry then 1.0 * risk else -1.0 * risk;
    case Target => assert exit - entry == if d == Long then rMult * risk else -(rMult * risk);
    case Time =>
  }

  lemma DivisionKeepsOrder(x: real, y: real, e: real)
    requires 0.0 < e
    ensures x / e <= y / e <==> x <= y
    ensures x / e < y / e <==> x < y
  {
  }

  /** A better exit price, in the trade's direction, is a better net R at any fee rate below one. */
  lemma BetterPriceBetterNet(d: Direction, entry: real, stop: real, p: real, q: real, fee: real)
    requires Risk(entry, stop) > 0.0 && 0.0 <= fee < 1.0
    ensures NetR(d, entry, stop, p, fee * (entry + p)) <= NetR(d, entry, stop, q, fee * (entry + q))
      <==> Sign(d) * p <= Sign(d) * q
  {
    DivisionKeepsOrder(Sign(d) * (p - entry) - fee * (entry + p), Sign(d) * (q - entry) - fee * (entry + q), Risk(entry, stop));
    FeesKeepOrder(d, p, q, fee);
    assert fee * (entry + p) == fee * entry + fee * p && fee * (entry + q) == fee * entry + fee * q;
    hide Risk;
  }

  lemma SignTimes(d: Direction, x: real)
    ensures Sign(d) * x == if d == Long then x else -x
  {
    if d == Long { assert Sign(d) == 1.0; } else { assert Sign(d) == -1.0; }
  }

  lemma FeesKeepOrder(d: Direction, p: real, q: real, fee: real)
    requires 0.0 <= fee < 1.0
    ensures Sign(d) * p - fee * p <= Sign(d) * q - fee * q <==> Sign(d) * p <= Sign(d) * q
  {
    var step := q - p;
    var x, keep := fee * step, 1.0 - fee;
    var kept := keep * step;
    assert kept == step - x;
    FeesAreSmaller(step, fee, x, keep, kept);
    assert fee * q - fee * p == x;
    SignTimes(d, p);
    SignTimes(d, q);
    hide Sign;
    SmallerFeesKeepOrder(Sign(d) * p, Sign(d) * q, fee * p, fee * q, step, x);
  }

  lemma SmallerFeesKeepOrder(p: real, q: real, fp: real, fq: real, step: real, fees: real)
    requires q - p == step || q - p == -step
    requires fq - fp == fees
    requires (0.0 < step ==> 0.0 <= fees < step) && (step < 0.0 ==> step < fees <= 0.0) && (step == 0.0 ==> fees == 0.0)
    ensures p - fp <= q - fq <==> p <= q
  {
  }

  lemma SameSign(k: real, x: real)
    requires 0.0 <= k
    ensures (0.0 <= x ==> 0.0 <= k * x) && (x <= 0.0 ==> k * x <= 0.0)
    ensures 0.0 < k ==> (0.0 < x ==> 0.0 < k * x) && (x < 0.0 ==> k * x < 0.0)
  {
    if x < 0.0 { assert k * x == -(k * (-x)); }
  }

  lemma FeesAreSmaller(x: real, fee: real, paid: real, keep: real, kept: real)
    requires 0.0 <= fee < 1.0 && paid == fee * x && keep == 1.0 - fee && kept == keep * x && kept == x - paid
    ensures (0.0 < x ==> 0.0 <= paid < x) && (x < 0.0 ==> x < paid <= 0.0) && (x == 0.0 ==> paid == 0.0)
  {
    SameSign(fee, x);
    SameSign(keep, x);
    assert 0.0 < keep;
  }

  /** The stop loses to the target: always so from a multiple of one up, wherever the stop is. */
  predicate StopLosesToTarget(v: Levels)
  {
    Sign(v.direction) * v.stop <= Sign(v.direction) * v.target
  }

  lemma TargetsBeyondOneRBeatTheStop(entry: real, stop: real, rMult: real, d: Direction)
    requires 1.0 <= rMult || (0.0 <= rMult && Sign(d) * stop <= Sign(d) * entry)
    ensures StopLosesToTarget(LevelsOf(entry, stop, rMult, d))
  {
    var risk := Risk(entry, stop);
    if 1.0 <= rMult {
      assert rMult * risk >= risk;
    } else {
      assert rMult * risk >= 0.0;
    }
  }

  /** A row resolved by the way the levels were really touched. */
  function TrueRow(m: seq<Minute>, entryIdx: nat, entry: real, stop: real, rMult: real, d: Direction, stopFirst: nat -> bool): Resolved
    requires Tradable(m, entryIdx, entry, stop)
  {
    V1Row(entryIdx, entry, stop, d, Walk(m, entryIdx + 1, WindowEnd(m, entryIdx), LevelsOf(entry, stop, rMult, d), stopFirst))
  }

  /** The pessimistic row, the true one and the optimistic one, on the same exit bar and in order of net R. */
  predicate Between(low: Resolved, truth: Resolved, high: Resolved)
  {
    && low.exitIndex == truth.exitIndex == high.exitIndex
    && low.netR <= truth.netR <= high.netR
  }

  /**
   The truth is between the two runs exactly when the stop loses to the target or no bar
   straddles them first. It always is at the multiples the study uses (at least one), even
   with the stop on the winning side of the entry.
   */
  lemma TheTruthIsBetweenTheRuns(m: seq<Minute>, entryIdx: nat, entry: real, stop: real, rMult: real, d: Direction, stopFirst: nat -> bool)
    requires Tradable(m, entryIdx, entry, stop)
    ensures var pess := ResolveBracket(m, entryIdx, entry, stop, rMult, d, Pessimistic).value;
      var opt := ResolveBracket(m, entryIdx, entry, stop, rMult, d, Optimistic).value;
      var v := LevelsOf(entry, stop, rMult, d);
      && (Between(pess, TrueRow(m, entryIdx, entry, stop, rMult, d, stopFirst), opt)
          <==> StopLosesToTarget(v) || !Straddles(m, entryIdx + 1, WindowEnd(m, entryIdx), v))
      && (1.0 <= rMult ==> StopLosesToTarget(v))
  {
    var v := LevelsOf(entry, stop, rMult, d);
    TheTruthIsOneOfTwo(m, entryIdx + 1, WindowEnd(m, entryIdx), v, stopFirst);
    BetterPriceBetterNet(d, entry, stop, v.stop, v.target, TAKER_FEE);
    BetterPriceBetterNet(d, entry, stop, v.target, v.stop, TAKER_FEE);
    if 1.0 <= rMult { TargetsBeyondOneRBeatTheStop(entry, stop, rMult, d); }
    hide TwoScans, Walk, NetR, Straddles, Risk, TargetOf;
  }

  /** The prices a bracket can exit at are not negative where the fee on them matters. */
  predicate Priced(d: Direction, entry: real, stop: real)
  {
    if d == Long then 0.0 <= entry else 0.0 <= stop
  }

  /** Cheaper fees on targets than on stops only widen the gap between the two rules. */
  lemma RepricingKeepsTheOrder(m: seq<Minute>, entryIdx: nat, entry: real, stop: real, rMult: real, d: Direction, entryRate: real)
    requires Tradable(m, entryIdx, entry, stop) && 1.0 <= rMult && Priced(d, entry, stop)
    ensures var pess := ResolveBracket(m, entryIdx, entry, stop, rMult, d, Pessimistic).value;
      var opt := ResolveBracket(m, entryIdx, entry, stop, rMult, d, Optimistic).value;
      && pess.exitIndex < |m| && opt.exitIndex < |m|
      && Reprice(pess, m, entry, stop, rMult, d, entryRate, ExitFee).netR <= Reprice(opt, m, entry, stop, rMult, d, entryRate, ExitFee).netR
  {
    var v := LevelsOf(entry, stop, rMult, d);
    TheTruthIsOneOfTwo(m, entryIdx + 1, WindowEnd(m, entryIdx), v, _ => false);
    TargetsBeyondOneRBeatTheStop(entry, stop, rMult, d);
    TargetsOfPricedTrades(entry, stop, rMult, d);
    StopNetIsBelowTargetNet(d, entry, stop, v.target, entryRate);
    hide TwoScans, Walk, NetR, Straddles, Risk, TargetOf;
  }

  lemma TargetsOfPricedTrades(entry: real, stop: real, rMult: real, d: Direction)
    requires 1.0 <= rMult && Priced(d, entry, stop)
    ensures d == Long ==> 0.0 <= TargetOf(entry, stop, rMult, d)
  {
    assert 0.0 <= rMult * Risk(entry, stop);
  }

  lemma StopNetIsBelowTargetNet(d: Direction, entry: real, stop: real, target: real, entryRate: real)
    requires Risk(entry, stop) > 0.0 && Sign(d) * stop <= Sign(d) * target
    requires if d == Long then 0.0 <= target else 0.0 <= stop
    ensures NetR(d, entry, stop, stop, Fees(entry, stop, entryRate, TAKER_FEE)) <= NetR(d, entry, stop, target, Fees(entry, target, entryRate, MAKER_FEE))
  {
    var atEntry := entryRate * entry;
    DivisionKeepsOrder(Sign(d) * (stop - entry) - (atEntry + TAKER_FEE * stop), Sign(d) * (target - entry) - (atEntry + MAKER_FEE * target), Risk(entry, stop));
    hide Risk;
  }

  /** With a stop on the winning side and a half-R target the bounds cross: pessimism flatters. */
  lemma ASmallTargetBehindAStopFlatters()
    ensures var m := [Minute(0, 100.0, 100.0, 100.0, 1.0, 1.0), Minute(60000, 90.0, 120.0, 100.0, 1.0, 1.0)];
      var pess := ResolveBracket(m, 0, 100.0, 110.0, 0.5, Long, Pessimistic);
      var opt := ResolveBracket(m, 0, 100.0, 110.0, 0.5, Long, Optimistic);
      pess.Some? && opt.Some? && pess.value.netR > opt.value.netR
  {
    var m := [Minute(0, 100.0, 100.0, 100.0, 1.0, 1.0), Minute(60000, 90.0, 120.0, 100.0, 1.0, 1.0)];
    var v := LevelsOf(100.0, 110.0, 0.5, Long);
    assert v == Levels(Long, 110.0, 105.0);
    assert FirstStop(m, 1, 2, v) == Some(1) && FirstTarget(m, 1, 2, v) == Some(1);
  }
}
