/** The band-touch study: arming, touches, the arms of each event, and one event at a time. */
module BandStudy {
  import opened Wrappers
  import opened Bracket
  import Confirmation

  const WARMUP_1H: nat := 210
  const PRE_TOUCH_BARS: nat := 80
  const RETEST_WINDOW_BARS: nat := 60
  const HOUR_MS: int := 3600000
  const R_TARGETS: seq<real> := [1.5, 2.0]

  /** The latest confirmed swing of the trailing window, with indices into the whole hourly tape. */
  datatype Swing = Swing(high: real, highIndex: int, low: real, lowIndex: int)

  datatype Hour = Hour(openTime: int, close: real, swing: Option<Swing>)

  datatype Band = Band(edge: real, invalidation: real)

  datatype Armed = Armed(key: (int, int), direction: Direction, band: Option<Band>, consumed: bool)

  datatype Arm = ControlAll | Treatment | TreatmentWide | TreatmentRetest | ControlConfirmed

  datatype Row = Row(arm: Arm, rMult: real, outcome: Resolved)

  datatype Event = Event(touch: nat, direction: Direction, confirmed: bool, rows: seq<Row>)

  /** Which study prices the rows, and how it counts a straddling bar. */
  datatype Study = V1(rule: SameBar) | V2(rule: SameBar)

  /** The 0.705 and 0.886 retracements of an impulse; nothing of an inverted one. */
  function DiscountBand(low: real, high: real, d: Direction): Option<Band>
  {
    if high <= low then None
    else
      var rng := high - low;
      if d == Long then Some(Band(high - 0.705 * rng, high - 0.886 * rng))
      else Some(Band(low + 0.705 * rng, low + 0.886 * rng))
  }

  function DirectionOf(s: Swing): Direction
  {
    if s.highIndex > s.lowIndex then Long else Short
  }

  /** A new swing arms its band, unless price is already on the wrong side of it. */
  function Arming(h: Hour, s: Swing): Armed
  {
    var d := DirectionOf(s);
    var band := DiscountBand(s.low, s.high, d);
    var onSide := band.Some? && (if d == Long then band.value.edge < h.close else h.close < band.value.edge);
    Armed((s.highIndex, s.lowIndex), d, band, !onSide)
  }

  predicate NewSwing(armed: Option<Armed>, h: Hour)
  {
    h.swing.Some? && (armed.None? || armed.value.key != (h.swing.value.highIndex, h.swing.value.lowIndex))
  }

  function Rearm(armed: Option<Armed>, h: Hour): Option<Armed>
  {
    if NewSwing(armed, h) then Some(Arming(h, h.swing.value)) else armed
  }

  // ---------------------------------------------------------------- the rows of one event

  function EntryFee(arm: Arm): real
  {
    match arm
    case Treatment => TAKER_FEE
    case TreatmentWide => TAKER_FEE
    case _ => MAKER_FEE
  }

  function Resolve(study: Study, arm: Arm, m: seq<Minute>, idx: nat, entry: real, stop: real, rMult: real, d: Direction): (r: Option<Resolved>)
    ensures r.Some? <==> Tradable(m, idx, entry, stop)
    ensures r.Some? ==> idx < r.value.exitIndex < |m|
  {
    if !Tradable(m, idx, entry, stop) then None
    else
      RepricingAtTakerIsTheIdentity(m, idx, entry, stop, rMult, d, study.rule);
      var row := ResolveBracket(m, idx, entry, stop, rMult, d, study.rule);
      if study.V1? then row else Some(Reprice(row.value, m, entry, stop, rMult, d, EntryFee(arm), ExitFee))
  }

  /** The confirmed arm reuses the touch entry's walk; the second study reprices it as its own. */
  function Reuse(study: Study, ctl: Resolved, m: seq<Minute>, entry: real, stop: real, rMult: real, d: Direction): (r: Resolved)
    requires ctl.exitIndex < |m| && Risk(entry, stop) > 0.0
    ensures r.exitIndex == ctl.exitIndex
  {
    if study.V1? then ctl else Reprice(ctl, m, entry, stop, rMult, d, EntryFee(ControlConfirmed), ExitFee)
  }

  function ConfirmAt(m: seq<Minute>, g: nat, d: Direction, invalidation: real): Option<Confirmation.Entry>
    requires PRE_TOUCH_BARS <= g < |m|
  {
    var ahead := g + Confirmation.CONFIRM_WINDOW_BARS + 5;
    Confirmation.Confirmed(m[g - PRE_TOUCH_BARS..if |m| < ahead then |m| else ahead], PRE_TOUCH_BARS, d, Some(invalidation))
  }

  function FirstRefill(m: seq<Minute>, i: nat, end: nat, edge: real, d: Direction): (r: Option<nat>)
    requires i <= end <= |m|
    ensures r.Some? ==> i <= r.value < end
    decreases end - i
  {
    if i == end then None
    else if (if d == Long then m[i].low <= edge else m[i].high >= edge) then Some(i)
    else FirstRefill(m, i + 1, end, edge, d)
  }

  /** A limit rested back at the edge after confirmation, if it fills in time. */
  function Retest(study: Study, m: seq<Minute>, ge: nat, edge: real, stop: real, rMult: real, d: Direction): (r: Option<Resolved>)
    ensures r.Some? ==> ge < r.value.exitIndex < |m|
  {
    var end := if |m| < ge + 1 + RETEST_WINDOW_BARS then |m| else ge + 1 + RETEST_WINDOW_BARS;
    if end <= ge + 1 then None
    else
      var gf := FirstRefill(m, ge + 1, end, edge, d);
      if gf.None? then None else Resolve(study, TreatmentRetest, m, gf.value, edge, stop, rMult, d)
  }

  function Listed(arm: Arm, rMult: real, r: Option<Resolved>): seq<Row>
  {
    if r.None? then [] else [Row(arm, rMult, r.value)]
  }

  function StopBehind(d: Direction, band: Band): real
  {
    var buffer := Confirmation.STOP_BUFFER_FRAC * band.edge;
    if d == Long then band.invalidation - buffer else band.invalidation + buffer
  }

  /** Where in the tape a confirmed entry is. */
  function EntryIndex(g: nat, e: Confirmation.Entry): nat
    requires PRE_TOUCH_BARS <= g
  {
    g - PRE_TOUCH_BARS + e.index
  }

  /** How one arm of an event comes out; every arm but the first needs a confirmed entry. */
  function Outcome(study: Study, m: seq<Minute>, g: nat, d: Direction, band: Band, entry: Option<Confirmation.Entry>, rMult: real, arm: Arm): Option<Resolved>
    requires PRE_TOUCH_BARS <= g < |m|
  {
    var stop := StopBehind(d, band);
    var ctl := Resolve(study, ControlAll, m, g, band.edge, stop, rMult, d);
    if arm == ControlAll then ctl
    else if entry.None? then None
    else
      var e, ge := entry.value, EntryIndex(g, entry.value);
      if arm == Treatment then Resolve(study, Treatment, m, ge, e.price, e.stop, rMult, d)
      else if arm == TreatmentWide then Resolve(study, TreatmentWide, m, ge, e.price, stop, rMult, d)
      else if arm == TreatmentRetest then Retest(study, m, ge, band.edge, stop, rMult, d)
      else if ctl.None? then None else Some(Reuse(study, ctl.value, m, band.edge, stop, rMult, d))
  }

  const ARMS: seq<Arm> := [ControlAll, Treatment, TreatmentWide, TreatmentRetest, ControlConfirmed]

  /** The rows of some arms, in order; an arm that does not trade has none. */
  function RowsOf(study: Study, m: seq<Minute>, g: nat, d: Direction, band: Band, entry: Option<Confirmation.Entry>, rMult: real, arms: seq<Arm>): seq<Row>
    requires PRE_TOUCH_BARS <= g < |m|
  {
    if arms == [] then []
    else
      var n := |arms| - 1;
      RowsOf(study, m, g, d, band, entry, rMult, arms[..n]) + Listed(arms[n], rMult, Outcome(study, m, g, d, band, entry, rMult, arms[n]))
  }

  function RowsFor(study: Study, m: seq<Minute>, g: nat, d: Direction, band: Band, entry: Option<Confirmation.Entry>, rMult: real): seq<Row>
    requires PRE_TOUCH_BARS <= g < |m|
  {
    RowsOf(study, m, g, d, band, entry, rMult, ARMS)
  }

  function EventAt(study: Study, m: seq<Minute>, g: nat, d: Direction, band: Band): Event
    requires PRE_TOUCH_BARS <= g < |m|
  {
    var entry := ConfirmAt(m, g, d, band.invalidation);
    Event(g, d, entry.Some?,
          RowsFor(study, m, g, d, band, entry, R_TARGETS[0]) + RowsFor(study, m, g, d, band, entry, R_TARGETS[1]))
  }

  function LastExit(rows: seq<Row>): nat
    requires rows != []
  {
    var last := rows[|rows| - 1].outcome.exitIndex;
    if |rows| == 1 then last
    else
      var most := LastExit(rows[..|rows| - 1]);
      if most < last then last else most
  }

  // ---------------------------------------------------------------- the run

  /** `searchsorted` on the open times: how many bars open before `t`. */
  function BarsBefore(m: seq<Minute>, t: int): (n: nat)
    ensures n <= |m|
  {
    if m == [] || m[0].openTime >= t then 0 else 1 + BarsBefore(m[1..], t)
  }

  datatype Found = Quiet | Died | Touched(at: nat)

  predicate BandDies(b: Minute, d: Direction, band: Band)
  {
    if d == Long then b.close < band.invalidation else b.close > band.invalidation
  }

  predicate BandTouched(b: Minute, d: Direction, band: Band)
  {
    if d == Long then b.low <= band.edge else b.high >= band.edge
  }

  function ScanHour(m: seq<Minute>, d: Direction, band: Band, g: nat, g1: nat): (f: Found)
    requires g1 <= |m|
    ensures f.Touched? ==> g <= f.at < g1
    decreases g1 - g
  {
    if g >= g1 then Quiet
    else if BandDies(m[g], d, band) then Died
    else if BandTouched(m[g], d, band) then Touched(g)
    else ScanHour(m, d, band, g + 1, g1)
  }

  /** `aborted`: the run raised before finishing. `banded`: some swing has had a band. */
  datatype Lab = Lab(armed: Option<Armed>, banded: bool, aborted: bool, busyUntil: nat, events: seq<Event>)

  const FRESH := Lab(None, false, false, 0, [])

  function Max(a: nat, b: nat): nat { if a < b then b else a }

  function FirstFree(lab: Lab, g0: nat): nat
  {
    Max(Max(g0, lab.busyUntil), PRE_TOUCH_BARS)
  }

  function Book(lab: Lab, armed: Armed, e: Event): Lab
  {
    lab.(armed := Some(armed.(consumed := true)), events := lab.events + [e],
         busyUntil := if e.rows == [] then lab.busyUntil else LastExit(e.rows) + 1)
  }

  /** What the scan of an hour does to the run. */
  function Settle(study: Study, m: seq<Minute>, lab: Lab, a: Armed, band: Band, f: Found): Lab
    requires f.Touched? ==> PRE_TOUCH_BARS <= f.at < |m|
  {
    match f
    case Quiet => lab
    case Died => lab.(armed := Some(a.(consumed := true)))
    case Touched(g) => Book(lab, a, EventAt(study, m, g, a.direction, band))
  }

  /** A band computed for the first time from an inverted swing leaves its invalidation unset: the run raises. */
  predicate Raises(lab: Lab, h: Hour)
  {
    NewSwing(lab.armed, h) && Arming(h, h.swing.value).band.None? && !lab.banded
  }

  function AfterArming(lab: Lab, h: Hour): Lab
  {
    lab.(armed := Rearm(lab.armed, h),
         banded := lab.banded || (NewSwing(lab.armed, h) && Arming(h, h.swing.value).band.Some?))
  }

  /** The next hour of one-minute bars, if a live band is armed. */
  function AfterScan(study: Study, m: seq<Minute>, lab: Lab, openTime: int): Lab
  {
    if lab.armed.None? || lab.armed.value.consumed || lab.armed.value.band.None? then lab
    else
      var a, band := lab.armed.value, lab.armed.value.band.value;
      var g0, g1 := BarsBefore(m, openTime + HOUR_MS), BarsBefore(m, openTime + 2 * HOUR_MS);
      Settle(study, m, lab, a, band, ScanHour(m, a.direction, band, FirstFree(lab, g0), g1))
  }

  function AfterHour(study: Study, m: seq<Minute>, lab: Lab, h: Hour): Lab
  {
    if lab.aborted then lab
    else if Raises(lab, h) then lab.(aborted := true)
    else AfterScan(study, m, AfterArming(lab, h), h.openTime)
  }

  function AfterHours(study: Study, m: seq<Minute>, hours: seq<Hour>): Lab
  {
    if hours == [] then FRESH
    else AfterHour(study, m, AfterHours(study, m, hours[..|hours| - 1]), hours[|hours| - 1])
  }

  /** The hours a run visits: past the warm-up, short of the last. */
  function Visited(hours: seq<Hour>): seq<Hour>
  {
    if |hours| <= WARMUP_1H + 1 then [] else hours[WARMUP_1H..|hours| - 1]
  }

  /** The minute-by-minute scan of one hour for a touch, or for the band's death. */
  method FindTouch(m: seq<Minute>, d: Direction, band: Band, start: nat, g1: nat) returns (f: Found)
    requires g1 <= |m|
    ensures f == ScanHour(m, d, band, start, g1)
  {
    var g := start;
    while g < g1
      invariant ScanHour(m, d, band, start, g1) == ScanHour(m, d, band, g, g1)
    {
      if BandDies(m[g], d, band) { return Died; }
      if BandTouched(m[g], d, band) { return Touched(g); }
      g := g + 1;
    }
    return Quiet;
  }

  /** `run_symbol` */
  method RunSymbol(study: Study, m: seq<Minute>, hours: seq<Hour>) returns (events: seq<Event>, aborted: bool)
    ensures events == AfterHours(study, m, Visited(hours)).events
    ensures aborted == AfterHours(study, m, Visited(hours)).aborted
  {
    hide EventAt, BarsBefore, Arming, AfterHours, LastExit;
    var armed: Option<Armed> := None;
    var banded, busyUntil: nat := false, 0;
    events, aborted := [], false;
    NoHours(study, m);
    if |hours| <= WARMUP_1H + 1 { return; }
    assert hours[WARMUP_1H..WARMUP_1H] == [];
    for hi := WARMUP_1H to |hours| - 1
      invariant AfterHours(study, m, hours[WARMUP_1H..hi]) == Lab(armed, banded, false, busyUntil, events)
    {
      var h := hours[hi];
      NextHour(study, m, hours, hi);
      if NewSwing(armed, h) {
        var next := Arming(h, h.swing.value);
        if next.band.None? && !banded {
          AbortsForGood(study, m, hours[WARMUP_1H..hi + 1], Visited(hours));
          return events, true;
        }
        armed, banded := Some(next), banded || next.band.Some?;
      }
      if armed.None? || armed.value.consumed || armed.value.band.None? { continue; }
      var d, band := armed.value.direction, armed.value.band.value;
      var g0, g1 := BarsBefore(m, h.openTime + HOUR_MS), BarsBefore(m, h.openTime + 2 * HOUR_MS);
      var found := FindTouch(m, d, band, Max(Max(g0, busyUntil), PRE_TOUCH_BARS), g1);
      if found.Quiet? { continue; }
      armed := Some(armed.value.(consumed := true));
      if found.Touched? {
        var e := EventAt(study, m, found.at, d, band);
        events := events + [e];
        if e.rows != [] { busyUntil := LastExit(e.rows) + 1; }
      }
    }
  }

  lemma NoHours(study: Study, m: seq<Minute>)
    ensures AfterHours(study, m, []) == FRESH
  {
  }

  lemma NextHour(study: Study, m: seq<Minute>, hours: seq<Hour>, hi: nat)
    requires WARMUP_1H <= hi < |hours|
    ensures AfterHours(study, m, hours[WARMUP_1H..hi + 1]) == AfterHour(study, m, AfterHours(study, m, hours[WARMUP_1H..hi]), hours[hi])
  {
    var upTo := hours[WARMUP_1H..hi + 1];
    assert upTo[..|upTo| - 1] == hours[WARMUP_1H..hi];
  }

  lemma {:induction false} AbortsForGood(study: Study, m: seq<Minute>, some: seq<Hour>, all: seq<Hour>)
    requires |some| <= |all| && some == all[..|some|]
    requires AfterHours(study, m, some).aborted
    ensures AfterHours(study, m, all) == AfterHours(study, m, some)
  {
    if |some| < |all| {
      assert all[..|all| - 1][..|some|] == some;
      AbortsForGood(study, m, some, all[..|all| - 1]);
    } else {
      assert all == some;
    }
  }

  // ---------------------------------------------------------------- bands and touches

  /**
   A band exists exactly for an upright impulse. Seen from the trade's side it then lies
   inside the impulse, entry before invalidation, with the stop beyond both.
   */
  lemma BandsLieInsideTheImpulse(low: real, high: real, d: Direction)
    requires 0.0 < low
    ensures DiscountBand(low, high, d).Some? <==> low < high
    ensures low < high ==>
      var b := DiscountBand(low, high, d).value;
      && low < b.edge < high && low < b.invalidation < high
      && Sign(d) * StopBehind(d, b) < Sign(d) * b.invalidation < Sign(d) * b.edge
      && Risk(b.edge, StopBehind(d, b)) > 0.0
  {
  }

  /** A scan touches at `g` exactly when no bar before it touched or killed the band, and `g` touches without killing. */
  lemma {:induction false} ScanFindsTheFirstTouch(m: seq<Minute>, d: Direction, band: Band, start: nat, g1: nat, g: nat)
    requires g1 <= |m|
    ensures ScanHour(m, d, band, start, g1) == Touched(g) <==>
      && start <= g < g1
      && BandTouched(m[g], d, band) && !BandDies(m[g], d, band)
      && forall k | start <= k < g :: !BandTouched(m[k], d, band) && !BandDies(m[k], d, band)
    decreases g1 - start
  {
    hide BandTouched, BandDies;
    if start < g1 && !BandDies(m[start], d, band) && !BandTouched(m[start], d, band) {
      ScanFindsTheFirstTouch(m, d, band, start + 1, g1, g);
    }
  }

  lemma {:induction false} TradingArmHasARow(study: Study, m: seq<Minute>, g: nat, d: Direction, band: Band, entry: Option<Confirmation.Entry>, rMult: real, arms: seq<Arm>, k: nat)
    requires PRE_TOUCH_BARS <= g < |m| && k < |arms| && Outcome(study, m, g, d, band, entry, rMult, arms[k]).Some?
    ensures RowsOf(study, m, g, d, band, entry, rMult, arms) != []
  {
    hide Outcome;
    if k < |arms| - 1 { TradingArmHasARow(study, m, g, d, band, entry, rMult, arms[..|arms| - 1], k); }
  }

  /** With positive prices every touch but one on the tape's very last bar is traded. */
  lemma EveryTouchIsTradedExactlyWhen(study: Study, m: seq<Minute>, g: nat, low: real, high: real, d: Direction)
    requires PRE_TOUCH_BARS <= g < |m| && 0.0 < low < high
    ensures EventAt(study, m, g, d, DiscountBand(low, high, d).value).rows != [] <==> g + 1 < |m|
  {
    var band := DiscountBand(low, high, d).value;
    BandsLieInsideTheImpulse(low, high, d);
    var entry := ConfirmAt(m, g, d, band.invalidation);
    if g + 1 < |m| {
      assert Outcome(study, m, g, d, band, entry, R_TARGETS[0], ControlAll).Some?;
      TradingArmHasARow(study, m, g, d, band, entry, R_TARGETS[0], ARMS, 0);
      hide Outcome, DiscountBand, ConfirmAt, RowsOf;
    } else {
      EventFits(study, m, g, d, band);
    }
  }

  // ---------------------------------------------------------------- one event at a time

  lemma {:induction false} LastExitCovers(rows: seq<Row>, g: nat)
    requires rows != [] && ExitAfter(rows, g)
    ensures g < LastExit(rows) && forall i | 0 <= i < |rows| :: rows[i].outcome.exitIndex <= LastExit(rows)
  {
    if |rows| > 1 { LastExitCovers(rows[..|rows| - 1], g); }
  }

  lemma ConfirmedAfterTheTouch(m: seq<Minute>, g: nat, d: Direction, invalidation: real)
    requires PRE_TOUCH_BARS <= g < |m| && ConfirmAt(m, g, d, invalidation).Some?
    ensures ConfirmAt(m, g, d, invalidation).value.index > PRE_TOUCH_BARS
  {
    hide Confirmation.Enters, Confirmation.Confirmed;
    var ahead := g + Confirmation.CONFIRM_WINDOW_BARS + 5;
    var tape := m[g - PRE_TOUCH_BARS..if |m| < ahead then |m| else ahead];
    Confirmation.EntersExactlyWhen(tape, PRE_TOUCH_BARS, d, Some(invalidation), ConfirmAt(m, g, d, invalidation).value);
  }

  predicate ExitAfter(rows: seq<Row>, g: nat)
  {
    forall i | 0 <= i < |rows| :: g < rows[i].outcome.exitIndex
  }

  lemma {:induction false} RowsExitAfterTheTouch(study: Study, m: seq<Minute>, g: nat, d: Direction, band: Band, entry: Option<Confirmation.Entry>, rMult: real, arms: seq<Arm>)
    requires PRE_TOUCH_BARS <= g < |m| && (entry.Some? ==> entry.value.index > PRE_TOUCH_BARS)
    ensures ExitAfter(RowsOf(study, m, g, d, band, entry, rMult, arms), g)
    ensures ExitWithin(RowsOf(study, m, g, d, band, entry, rMult, arms), |m|)
  {
    if arms != [] {
      var n := |arms| - 1;
      RowsExitAfterTheTouch(study, m, g, d, band, entry, rMult, arms[..n]);
      OutcomeExitsAfterTheTouch(study, m, g, d, band, entry, rMult, arms[n]);
      hide Outcome;
    }
  }

  lemma OutcomeExitsAfterTheTouch(study: Study, m: seq<Minute>, g: nat, d: Direction, band: Band, entry: Option<Confirmation.Entry>, rMult: real, arm: Arm)
    requires PRE_TOUCH_BARS <= g < |m| && (entry.Some? ==> entry.value.index > PRE_TOUCH_BARS)
    ensures var r := Outcome(study, m, g, d, band, entry, rMult, arm); r.Some? ==> g < r.value.exitIndex < |m|
  {
    hide StopBehind, Resolve, Retest, Reuse;
  }

  predicate ExitWithin(rows: seq<Row>, n: nat)
  {
    forall i | 0 <= i < |rows| :: rows[i].outcome.exitIndex < n
  }

  /** Every trade of an event exits after its touch. */
  lemma ExitsFollowTheTouch(study: Study, m: seq<Minute>, g: nat, d: Direction, band: Band)
    requires PRE_TOUCH_BARS <= g < |m|
    ensures ExitAfter(EventAt(study, m, g, d, band).rows, g) && ExitWithin(EventAt(study, m, g, d, band).rows, |m|)
  {
    var entry := ConfirmAt(m, g, d, band.invalidation);
    if entry.Some? { ConfirmedAfterTheTouch(m, g, d, band.invalidation); }
    RowsExitAfterTheTouch(study, m, g, d, band, entry, R_TARGETS[0], ARMS);
    RowsExitAfterTheTouch(study, m, g, d, band, entry, R_TARGETS[1], ARMS);
    hide ConfirmAt, RowsOf;
  }

  /** An event on the tape's last bar has no room for a trade. */
  lemma EventFits(study: Study, m: seq<Minute>, g: nat, d: Direction, band: Band)
    requires PRE_TOUCH_BARS <= g < |m|
    ensures EventAt(study, m, g, d, band).rows != [] ==> g + 1 < |m|
  {
    ExitsFollowTheTouch(study, m, g, d, band);
    hide ConfirmAt, RowsFor;
    var rows := EventAt(study, m, g, d, band).rows;
    assert rows != [] ==> g < rows[0].outcome.exitIndex < |m|;
  }

  lemma {:induction false} BarsBeforeGrows(m: seq<Minute>, t: int, u: int)
    requires t <= u
    ensures BarsBefore(m, t) <= BarsBefore(m, u)
  {
    if m != [] && m[0].openTime < t { BarsBeforeGrows(m[1..], t, u); }
  }

  lemma {:induction false} BarsBeforeSplits(m: seq<Minute>, t: int, k: nat)
    requires k < |m| && forall i, j | 0 <= i < j < |m| :: m[i].openTime <= m[j].openTime
    ensures k < BarsBefore(m, t) <==> m[k].openTime < t
  {
    if k > 0 && m[0].openTime < t { BarsBeforeSplits(m[1..], t, k - 1); }
  }

  /** A touch happens in the hour after the bar that armed or kept the band has closed. */
  lemma TouchesFollowTheirHour(study: Study, m: seq<Minute>, lab: Lab, h: Hour)
    requires forall i, j | 0 <= i < j < |m| :: m[i].openTime <= m[j].openTime
    ensures var next := AfterHour(study, m, lab, h);
      next.events == lab.events
      || (&& next.events == lab.events + [next.events[|lab.events|]]
          && next.events[|lab.events|].touch < |m|
          && h.openTime + HOUR_MS <= m[next.events[|lab.events|].touch].openTime < h.openTime + 2 * HOUR_MS)
  {
    hide RowsFor, ConfirmAt;
    var next := AfterHour(study, m, lab, h);
    if next.events != lab.events {
      var touch := next.events[|lab.events|].touch;
      BarsBeforeSplits(m, h.openTime + HOUR_MS, touch);
      BarsBeforeSplits(m, h.openTime + 2 * HOUR_MS, touch);
    }
  }

  predicate Hourly(hours: seq<Hour>)
  {
    forall i, j | 0 <= i < j < |hours| :: hours[i].openTime + HOUR_MS <= hours[j].openTime
  }

  /** The bars an event occupies: from its touch to its last exit, or the touch alone. */
  function LastBar(e: Event): nat
  {
    if e.rows == [] then e.touch else LastExit(e.rows)
  }

  predicate Apart(events: seq<Event>)
  {
    && (forall i | 0 <= i < |events| :: events[i].touch <= LastBar(events[i]))
    && (forall i, j | 0 <= i < j < |events| :: LastBar(events[i]) < events[j].touch)
  }

  /** Everything booked so far ends before `bound`, or before the bar that is free again. */
  predicate Cleared(lab: Lab, bound: nat)
  {
    && Apart(lab.events)
    && forall i | 0 <= i < |lab.events| :: LastBar(lab.events[i]) < Max(lab.busyUntil, bound)
  }

  /** Events never overlap: each one's last exit comes before the next one's touch, in every run. */
  lemma {:induction false} EventsAreApart(study: Study, m: seq<Minute>, hours: seq<Hour>, t: int)
    requires Hourly(hours) && (hours != [] ==> hours[|hours| - 1].openTime + 2 * HOUR_MS <= t)
    ensures Cleared(AfterHours(study, m, hours), BarsBefore(m, t))
  {
    if hours != [] {
      var n := |hours| - 1;
      var h := hours[n];
      EventsAreApart(study, m, hours[..n], h.openTime + HOUR_MS);
      HourKeepsEventsApart(study, m, AfterHours(study, m, hours[..n]), h, t);
    }
  }

  lemma BookingKeepsEventsApart(lab: Lab, armed: Armed, e: Event, bound: nat, start: nat)
    requires Cleared(lab, start) && Max(start, lab.busyUntil) <= e.touch <= LastBar(e) && e.touch < bound
    ensures Cleared(Book(lab, armed, e), bound)
  {
  }

  lemma EventSpan(study: Study, m: seq<Minute>, g: nat, d: Direction, band: Band)
    requires PRE_TOUCH_BARS <= g < |m|
    ensures var e := EventAt(study, m, g, d, band);
      e.touch == g <= LastBar(e) && (e.rows != [] ==> g < LastBar(e))
  {
    ExitsFollowTheTouch(study, m, g, d, band);
    var e := EventAt(study, m, g, d, band);
    if e.rows != [] { LastExitCovers(e.rows, g); }
    hide RowsFor, ConfirmAt, LastExit;
  }

  lemma SettlingKeepsEventsApart(study: Study, m: seq<Minute>, lab: Lab, a: Armed, band: Band, start: nat, f: Found, bound: nat)
    requires Cleared(lab, start) && start <= bound
    requires f.Touched? ==> PRE_TOUCH_BARS <= f.at < |m| && Max(start, lab.busyUntil) <= f.at < bound
    ensures Cleared(Settle(study, m, lab, a, band, f), bound)
  {
    if f.Touched? {
      EventSpan(study, m, f.at, a.direction, band);
      BookingKeepsEventsApart(lab, a, EventAt(study, m, f.at, a.direction, band), bound, start);
    }
    hide EventAt, LastBar, Book;
  }

  lemma ScanKeepsEventsApart(study: Study, m: seq<Minute>, lab: Lab, openTime: int, t: int)
    requires Cleared(lab, BarsBefore(m, openTime + HOUR_MS)) && openTime + 2 * HOUR_MS <= t
    ensures Cleared(AfterScan(study, m, lab, openTime), BarsBefore(m, t))
  {
    BarsBeforeGrows(m, openTime + HOUR_MS, t);
    BarsBeforeGrows(m, openTime + 2 * HOUR_MS, t);
    hide LastBar, BarsBefore, Settle, Apart;
    if lab.armed.Some? && lab.armed.value.band.Some? {
      var a, band := lab.armed.value, lab.armed.value.band.value;
      var g0, g1 := BarsBefore(m, openTime + HOUR_MS), BarsBefore(m, openTime + 2 * HOUR_MS);
      SettlingKeepsEventsApart(study, m, lab, a, band, g0, ScanHour(m, a.direction, band, FirstFree(lab, g0), g1), BarsBefore(m, t));
    }
  }

  lemma HourKeepsEventsApart(study: Study, m: seq<Minute>, lab: Lab, h: Hour, t: int)
    requires Cleared(lab, BarsBefore(m, h.openTime + HOUR_MS)) && h.openTime + 2 * HOUR_MS <= t
    ensures Cleared(AfterHour(study, m, lab, h), BarsBefore(m, t))
  {
    BarsBeforeGrows(m, h.openTime + HOUR_MS, t);
    ScanKeepsEventsApart(study, m, AfterArming(lab, h), h.openTime, t);
    hide LastBar, BarsBefore, AfterScan, Apart;
  }

  // ---------------------------------------------------------------- the same events under every price model

  /** The two same-bar rules of one study. */
  predicate Bounds(low: Study, high: Study)
  {
    low.rule == Pessimistic && high.rule == Optimistic && low.V1? == high.V1?
  }

  /** Where the first study needs nothing more, the second needs prices that are not negative. */
  predicate Ordered(low: Study, high: Study, d: Direction, entry: real, stop: real)
  {
    Bounds(low, high) && (low.V2? ==> Priced(d, entry, stop))
  }

  /** The same trade, on the same bars; `ordered` adds that the first earns no more. */
  predicate SameTrade(a: Resolved, b: Resolved, ordered: bool)
  {
    && a.exitIndex == b.exitIndex
    && a.barsHeld == b.barsHeld
    && (ordered ==> a.netR <= b.netR)
  }

  predicate SameRow(a: Row, b: Row, ordered: bool)
  {
    a.arm == b.arm && a.rMult == b.rMult && SameTrade(a.outcome, b.outcome, ordered)
  }

  predicate PairedRows(a: seq<Row>, b: seq<Row>, ordered: bool)
  {
    |a| == |b| && forall i | 0 <= i < |a| :: SameRow(a[i], b[i], ordered)
  }

  predicate PairedEvent(a: Event, b: Event, ordered: bool)
  {
    a.touch == b.touch && a.direction == b.direction && a.confirmed == b.confirmed && PairedRows(a.rows, b.rows, ordered)
  }

  predicate PairedLabs(a: Lab, b: Lab, ordered: bool)
  {
    && a.(events := []) == b.(events := [])
    && |a.events| == |b.events|
    && forall i | 0 <= i < |a.events| :: PairedEvent(a.events[i], b.events[i], ordered)
  }

  predicate PairedTrade(a: Option<Resolved>, b: Option<Resolved>, ordered: bool)
  {
    a.Some? == b.Some? && (a.Some? ==> SameTrade(a.value, b.value, ordered))
  }

  lemma PairedBrackets(m: seq<Minute>, idx: nat, entry: real, stop: real, rMult: real, d: Direction, p: SameBar, q: SameBar)
    requires Tradable(m, idx, entry, stop) && 1.0 <= rMult
    ensures SameTrade(ResolveBracket(m, idx, entry, stop, rMult, d, p).value, ResolveBracket(m, idx, entry, stop, rMult, d, q).value,
                      p == q || (p == Pessimistic && q == Optimistic))
  {
    TheTruthIsBetweenTheRuns(m, idx, entry, stop, rMult, d, _ => false);
    TheTruthIsOneOfTwo(m, idx + 1, WindowEnd(m, idx), LevelsOf(entry, stop, rMult, d), _ => false);
    hide TwoScans, Walk, Straddles, NetR, Risk, TargetOf;
  }

  lemma PairedResolves(a: Study, b: Study, arm: Arm, m: seq<Minute>, idx: nat, entry: real, stop: real, rMult: real, d: Direction)
    requires 1.0 <= rMult
    ensures PairedTrade(Resolve(a, arm, m, idx, entry, stop, rMult, d), Resolve(b, arm, m, idx, entry, stop, rMult, d), Ordered(a, b, d, entry, stop))
  {
    if Tradable(m, idx, entry, stop) {
      PairedBrackets(m, idx, entry, stop, rMult, d, a.rule, b.rule);
      RepricingAtTakerIsTheIdentity(m, idx, entry, stop, rMult, d, a.rule);
      RepricingAtTakerIsTheIdentity(m, idx, entry, stop, rMult, d, b.rule);
      if Priced(d, entry, stop) { RepricingKeepsTheOrder(m, idx, entry, stop, rMult, d, EntryFee(arm)); }
      hide ResolveBracket, NetR, ExitPrice, ExitFee, Priced, Risk;
    }
  }

  lemma PairedRetests(a: Study, b: Study, m: seq<Minute>, ge: nat, edge: real, stop: real, rMult: real, d: Direction)
    requires 1.0 <= rMult
    ensures PairedTrade(Retest(a, m, ge, edge, stop, rMult, d), Retest(b, m, ge, edge, stop, rMult, d), Ordered(a, b, d, edge, stop))
  {
    var end := if |m| < ge + 1 + RETEST_WINDOW_BARS then |m| else ge + 1 + RETEST_WINDOW_BARS;
    if end > ge + 1 {
      var gf := FirstRefill(m, ge + 1, end, edge, d);
      if gf.Some? { PairedResolves(a, b, TreatmentRetest, m, gf.value, edge, stop, rMult, d); }
    }
    hide Resolve;
  }

  lemma PairedLists(arm: Arm, rMult: real, a: Option<Resolved>, b: Option<Resolved>, ordered: bool)
    requires PairedTrade(a, b, ordered)
    ensures PairedRows(Listed(arm, rMult, a), Listed(arm, rMult, b), ordered)
  {
  }

  lemma PairedSums(a: seq<Row>, b: seq<Row>, a': seq<Row>, b': seq<Row>, ordered: bool)
    requires PairedRows(a, b, ordered) && PairedRows(a', b', ordered)
    ensures PairedRows(a + a', b + b', ordered)
  {
  }

  /** The confirmed arm pays what the touch arm pays, so reusing its walk returns its row. */
  lemma ReuseChangesNothing(study: Study, m: seq<Minute>, g: nat, entry: real, stop: real, rMult: real, d: Direction)
    requires Tradable(m, g, entry, stop)
    ensures var ctl := Resolve(study, ControlAll, m, g, entry, stop, rMult, d).value;
      Reuse(study, ctl, m, entry, stop, rMult, d) == ctl
  {
    hide ResolveBracket, NetR, ExitFee;
  }

  /** Every price the arms of an event enter or stop at is one the second study can order. */
  predicate PricedEvent(d: Direction, band: Band, entry: Option<Confirmation.Entry>)
  {
    && Priced(d, band.edge, StopBehind(d, band))
    && (entry.Some? ==> Priced(d, entry.value.price, entry.value.stop) && Priced(d, entry.value.price, StopBehind(d, band)))
  }

  lemma PairedTouch(a: Study, b: Study, m: seq<Minute>, g: nat, d: Direction, band: Band, rMult: real, ordered: bool)
    requires PRE_TOUCH_BARS <= g < |m| && 1.0 <= rMult
    requires ordered ==> Bounds(a, b) && (a.V2? ==> Priced(d, band.edge, StopBehind(d, band)))
    ensures var stop := StopBehind(d, band);
      var x, y := Resolve(a, ControlAll, m, g, band.edge, stop, rMult, d), Resolve(b, ControlAll, m, g, band.edge, stop, rMult, d);
      && PairedTrade(x, y, ordered)
      && (x.Some? ==> Reuse(a, x.value, m, band.edge, stop, rMult, d) == x.value && Reuse(b, y.value, m, band.edge, stop, rMult, d) == y.value)
  {
    var stop := StopBehind(d, band);
    PairedResolves(a, b, ControlAll, m, g, band.edge, stop, rMult, d);
    if Tradable(m, g, band.edge, stop) {
      ReuseChangesNothing(a, m, g, band.edge, stop, rMult, d);
      ReuseChangesNothing(b, m, g, band.edge, stop, rMult, d);
    }
    hide Resolve, Reuse, StopBehind, Priced;
  }

  lemma PairedOutcomes(a: Study, b: Study, m: seq<Minute>, g: nat, d: Direction, band: Band, entry: Option<Confirmation.Entry>, rMult: real, arm: Arm, ordered: bool)
    requires PRE_TOUCH_BARS <= g < |m| && 1.0 <= rMult
    requires ordered ==> Bounds(a, b) && (a.V2? ==> PricedEvent(d, band, entry))
    ensures PairedTrade(Outcome(a, m, g, d, band, entry, rMult, arm), Outcome(b, m, g, d, band, entry, rMult, arm), ordered)
  {
    var stop := StopBehind(d, band);
    PairedTouch(a, b, m, g, d, band, rMult, ordered);
    if entry.Some? {
      var e, ge := entry.value, EntryIndex(g, entry.value);
      match arm {
        case Treatment => PairedResolves(a, b, Treatment, m, ge, e.price, e.stop, rMult, d);
        case TreatmentWide => PairedResolves(a, b, TreatmentWide, m, ge, e.price, stop, rMult, d);
        case TreatmentRetest => PairedRetests(a, b, m, ge, band.edge, stop, rMult, d);
        case ControlAll =>
        case ControlConfirmed =>
      }
    }
    hide Resolve, Retest, Reuse, StopBehind, Priced;
  }

  lemma PairedArm(a: Study, b: Study, m: seq<Minute>, g: nat, d: Direction, band: Band, entry: Option<Confirmation.Entry>, rMult: real, arm: Arm, ordered: bool)
    requires PRE_TOUCH_BARS <= g < |m| && 1.0 <= rMult
    requires ordered ==> Bounds(a, b) && (a.V2? ==> PricedEvent(d, band, entry))
    ensures PairedRows(Listed(arm, rMult, Outcome(a, m, g, d, band, entry, rMult, arm)), Listed(arm, rMult, Outcome(b, m, g, d, band, entry, rMult, arm)), ordered)
  {
    hide Outcome, PricedEvent;
    PairedOutcomes(a, b, m, g, d, band, entry, rMult, arm, ordered);
    PairedLists(arm, rMult, Outcome(a, m, g, d, band, entry, rMult, arm), Outcome(b, m, g, d, band, entry, rMult, arm), ordered);
  }

  lemma {:induction false} PairedUpTo(a: Study, b: Study, m: seq<Minute>, g: nat, d: Direction, band: Band, entry: Option<Confirmation.Entry>, rMult: real, arms: seq<Arm>, ordered: bool)
    requires PRE_TOUCH_BARS <= g < |m| && 1.0 <= rMult
    requires ordered ==> Bounds(a, b) && (a.V2? ==> PricedEvent(d, band, entry))
    ensures PairedRows(RowsOf(a, m, g, d, band, entry, rMult, arms), RowsOf(b, m, g, d, band, entry, rMult, arms), ordered)
  {
    hide Outcome, Listed, SameRow, PricedEvent;
    if arms != [] {
      var n := |arms| - 1;
      PairedUpTo(a, b, m, g, d, band, entry, rMult, arms[..n], ordered);
      PairedArm(a, b, m, g, d, band, entry, rMult, arms[n], ordered);
      PairedSums(RowsOf(a, m, g, d, band, entry, rMult, arms[..n]), RowsOf(b, m, g, d, band, entry, rMult, arms[..n]),
                 Listed(arms[n], rMult, Outcome(a, m, g, d, band, entry, rMult, arms[n])),
                 Listed(arms[n], rMult, Outcome(b, m, g, d, band, entry, rMult, arms[n])), ordered);
    }
  }

  lemma PairedRowsFor(a: Study, b: Study, m: seq<Minute>, g: nat, d: Direction, band: Band, entry: Option<Confirmation.Entry>, rMult: real, ordered: bool)
    requires PRE_TOUCH_BARS <= g < |m| && 1.0 <= rMult
    requires ordered ==> Bounds(a, b) && (a.V2? ==> PricedEvent(d, band, entry))
    ensures PairedRows(RowsFor(a, m, g, d, band, entry, rMult), RowsFor(b, m, g, d, band, entry, rMult), ordered)
  {
    PairedUpTo(a, b, m, g, d, band, entry, rMult, ARMS, ordered);
  }

  /** Well-formed bars with positive prices. */
  predicate PositiveBars(m: seq<Minute>)
  {
    forall k | 0 <= k < |m| :: 0.0 < m[k].low <= m[k].close <= m[k].high
  }

  predicate PositiveBand(band: Band)
  {
    0.0 < band.edge && 0.0 < band.invalidation
  }

  lemma TapesArePositive(m: seq<Minute>, from: nat, to: nat)
    requires from <= to <= |m| && PositiveBars(m)
    ensures PositiveBars(m[from..to])
  {
  }

  /** An entry confirmed on positive bars is at a positive price, and a short one's stop above it. */
  lemma ConfirmedIsPriced(tape: seq<Minute>, t: nat, d: Direction, invalidation: Option<real>)
    requires PositiveBars(tape) && Confirmation.Confirmed(tape, t, d, invalidation).Some?
    ensures var e := Confirmation.Confirmed(tape, t, d, invalidation).value;
      0.0 < e.price && (d == Short ==> e.price < e.stop)
  {
    hide Confirmation.Confirmed, Confirmation.Enters, Confirmation.Extreme;
    var e := Confirmation.Confirmed(tape, t, d, invalidation).value;
    Confirmation.ConfirmedStopsLose(tape, t, d, invalidation);
    Confirmation.EntersExactlyWhen(tape, t, d, invalidation, e);
    assert e.price == tape[e.index].close;
  }

  lemma PositiveMarketsPriceTheirEvents(m: seq<Minute>, g: nat, d: Direction, band: Band)
    requires PRE_TOUCH_BARS <= g < |m| && PositiveBars(m) && PositiveBand(band)
    ensures PricedEvent(d, band, ConfirmAt(m, g, d, band.invalidation))
  {
    var ahead := g + Confirmation.CONFIRM_WINDOW_BARS + 5;
    var tape := m[g - PRE_TOUCH_BARS..if |m| < ahead then |m| else ahead];
    TapesArePositive(m, g - PRE_TOUCH_BARS, g - PRE_TOUCH_BARS + |tape|);
    if ConfirmAt(m, g, d, band.invalidation).Some? {
      ConfirmedIsPriced(tape, PRE_TOUCH_BARS, d, Some(band.invalidation));
    }
    hide Confirmation.Confirmed, PositiveBars;
  }

  lemma PairedEvents(a: Study, b: Study, m: seq<Minute>, g: nat, d: Direction, band: Band, ordered: bool)
    requires PRE_TOUCH_BARS <= g < |m|
    requires ordered ==> Bounds(a, b) && (a.V2? ==> PositiveBars(m) && PositiveBand(band))
    ensures PairedEvent(EventAt(a, m, g, d, band), EventAt(b, m, g, d, band), ordered)
  {
    var entry := ConfirmAt(m, g, d, band.invalidation);
    if PositiveBars(m) && PositiveBand(band) { PositiveMarketsPriceTheirEvents(m, g, d, band); }
    PairedRowsFor(a, b, m, g, d, band, entry, R_TARGETS[0], ordered);
    PairedRowsFor(a, b, m, g, d, band, entry, R_TARGETS[1], ordered);
    PairedSums(RowsFor(a, m, g, d, band, entry, R_TARGETS[0]), RowsFor(b, m, g, d, band, entry, R_TARGETS[0]),
               RowsFor(a, m, g, d, band, entry, R_TARGETS[1]), RowsFor(b, m, g, d, band, entry, R_TARGETS[1]), ordered);
    hide RowsFor, PairedRows, ConfirmAt, PricedEvent;
  }

  lemma {:induction false} PairedLastExit(a: seq<Row>, b: seq<Row>, ordered: bool)
    requires PairedRows(a, b, ordered) && a != []
    ensures LastExit(a) == LastExit(b)
  {
    if |a| > 1 { PairedLastExit(a[..|a| - 1], b[..|b| - 1], ordered); }
  }

  /** An armed band comes from a swing with positive prices. */
  predicate PositiveArmed(lab: Lab)
  {
    lab.armed.Some? && lab.armed.value.band.Some? ==> PositiveBand(lab.armed.value.band.value)
  }

  predicate PositiveSwings(hours: seq<Hour>)
  {
    forall i | 0 <= i < |hours| && hours[i].swing.Some? :: 0.0 < hours[i].swing.value.low
  }

  /** The order of net R holds for the first study always, for the second on positive prices. */
  predicate OrderHolds(a: Study, b: Study, m: seq<Minute>, hours: seq<Hour>)
  {
    Bounds(a, b) && (a.V2? ==> PositiveBars(m) && PositiveSwings(hours))
  }

  lemma PairedHours(a: Study, b: Study, m: seq<Minute>, x: Lab, y: Lab, h: Hour, ordered: bool)
    requires PairedLabs(x, y, ordered)
    requires ordered ==> Bounds(a, b) && (a.V2? ==> PositiveBars(m) && PositiveArmed(AfterArming(x, h)))
    ensures PairedLabs(AfterHour(a, m, x, h), AfterHour(b, m, y, h), ordered)
  {
    PairedScans(a, b, m, AfterArming(x, h), AfterArming(y, h), h.openTime, ordered);
    hide AfterScan, PairedEvent, Arming;
  }

  lemma PairedScans(a: Study, b: Study, m: seq<Minute>, x: Lab, y: Lab, openTime: int, ordered: bool)
    requires PairedLabs(x, y, ordered)
    requires ordered ==> Bounds(a, b) && (a.V2? ==> PositiveBars(m) && PositiveArmed(x))
    ensures PairedLabs(AfterScan(a, m, x, openTime), AfterScan(b, m, y, openTime), ordered)
  {
    hide BarsBefore, Settle, PairedEvent, PositiveBars;
    if x.armed.Some? && x.armed.value.band.Some? {
      var armed, band := x.armed.value, x.armed.value.band.value;
      var g0, g1 := BarsBefore(m, openTime + HOUR_MS), BarsBefore(m, openTime + 2 * HOUR_MS);
      PairedSettlements(a, b, m, x, y, armed, band, ScanHour(m, armed.direction, band, FirstFree(x, g0), g1), ordered);
    }
  }

  lemma PairedSettlements(a: Study, b: Study, m: seq<Minute>, x: Lab, y: Lab, armed: Armed, band: Band, f: Found, ordered: bool)
    requires PairedLabs(x, y, ordered) && (f.Touched? ==> PRE_TOUCH_BARS <= f.at < |m|)
    requires ordered ==> Bounds(a, b) && (a.V2? ==> PositiveBars(m) && PositiveBand(band))
    ensures PairedLabs(Settle(a, m, x, armed, band, f), Settle(b, m, y, armed, band, f), ordered)
  {
    if f.Touched? {
      var e, e' := EventAt(a, m, f.at, armed.direction, band), EventAt(b, m, f.at, armed.direction, band);
      PairedEvents(a, b, m, f.at, armed.direction, band, ordered);
      PairedBookings(x, y, armed, e, e', ordered);
      hide EventAt, PairedLabs, PairedEvent, Book;
    }
  }

  lemma PairedBookings(x: Lab, y: Lab, armed: Armed, e: Event, e': Event, ordered: bool)
    requires PairedLabs(x, y, ordered) && PairedEvent(e, e', ordered)
    ensures PairedLabs(Book(x, armed, e), Book(y, armed, e'), ordered)
  {
    if e.rows != [] { PairedLastExit(e.rows, e'.rows, ordered); }
    hide LastExit, SameRow;
    assert |e.rows| == |e'.rows|;
    hide PairedEvent;
  }

  lemma ArmingStaysPositive(lab: Lab, h: Hour)
    requires PositiveArmed(lab) && (h.swing.Some? ==> 0.0 < h.swing.value.low)
    ensures PositiveArmed(AfterArming(lab, h))
  {
    if h.swing.Some? { BandsLieInsideTheImpulse(h.swing.value.low, h.swing.value.high, DirectionOf(h.swing.value)); }
  }

  lemma HoursStayPositive(study: Study, m: seq<Minute>, lab: Lab, h: Hour)
    requires PositiveArmed(lab) && (h.swing.Some? ==> 0.0 < h.swing.value.low)
    ensures PositiveArmed(AfterHour(study, m, lab, h))
  {
    ArmingStaysPositive(lab, h);
    hide EventAt, BarsBefore, ScanHour, Arming;
  }

  lemma {:induction false} RunsStayPositive(study: Study, m: seq<Minute>, hours: seq<Hour>)
    requires PositiveSwings(hours)
    ensures PositiveArmed(AfterHours(study, m, hours))
  {
    if hours != [] {
      var n := |hours| - 1;
      RunsStayPositive(study, m, hours[..n]);
      HoursStayPositive(study, m, AfterHours(study, m, hours[..n]), hours[n]);
      hide AfterHour, PositiveArmed;
    }
  }

  /**
   Rule and fees never change what happened: over any tapes, every run has the same touches,
   confirmations, arms and exit bars. And row by row, under either study, the pessimistic run
   earns no more than the optimistic one; the second study's needs prices to be positive.
   */
  lemma {:induction false} EveryRunSeesTheSameEvents(a: Study, b: Study, m: seq<Minute>, hours: seq<Hour>, ordered: bool)
    requires ordered ==> OrderHolds(a, b, m, hours)
    ensures PairedLabs(AfterHours(a, m, hours), AfterHours(b, m, hours), ordered)
  {
    if hours != [] {
      var n := |hours| - 1;
      EveryRunSeesTheSameEvents(a, b, m, hours[..n], ordered);
      var x, y, h := AfterHours(a, m, hours[..n]), AfterHours(b, m, hours[..n]), hours[n];
      if ordered && a.V2? {
        RunsStayPositive(a, m, hours[..n]);
        ArmingStaysPositive(x, h);
      }
      hide PairedLabs, PositiveBars, PositiveArmed, AfterHour;
      PairedHours(a, b, m, x, y, h, ordered);
    }
  }

  // ---------------------------------------------------------------- when a run raises

  /** Hour `i` has the first swing of the run, and it is inverted: its high is not above its low. */
  predicate StartsInverted(hours: seq<Hour>, i: nat)
    requires i < |hours|
  {
    && hours[i].swing.Some?
    && hours[i].swing.value.high <= hours[i].swing.value.low
    && forall j | 0 <= j < i :: hours[j].swing.None?
  }

  predicate AnySwing(hours: seq<Hour>)
  {
    exists i :: 0 <= i < |hours| && hours[i].swing.Some?
  }

  /** A run raises exactly when the first swing it sees is inverted. */
  lemma {:induction false} RunsRaiseExactlyWhen(study: Study, m: seq<Minute>, hours: seq<Hour>)
    ensures AfterHours(study, m, hours).aborted <==> exists i :: 0 <= i < |hours| && StartsInverted(hours, i)
    ensures var lab := AfterHours(study, m, hours);
      (lab.aborted || lab.banded <==> AnySwing(hours)) && (lab.armed.Some? ==> lab.banded)
  {
    if hours != [] {
      var n := |hours| - 1;
      var most := hours[..n];
      RunsRaiseExactlyWhen(study, m, most);
      assert forall i | 0 <= i < n :: StartsInverted(most, i) <==> StartsInverted(hours, i);
      HourRaises(study, m, AfterHours(study, m, most), hours[n]);
      assert AnySwing(hours) <==> AnySwing(most) || hours[n].swing.Some?;
      assert StartsInverted(hours, n) <==> !AnySwing(most) && hours[n].swing.Some? && hours[n].swing.value.high <= hours[n].swing.value.low;
      hide AfterHour, AnySwing, StartsInverted;
    }
  }

  lemma HourRaises(study: Study, m: seq<Minute>, lab: Lab, h: Hour)
    requires lab.armed.Some? ==> lab.banded
    ensures var next := AfterHour(study, m, lab, h);
      && (next.armed.Some? ==> next.banded)
      && (next.aborted <==> lab.aborted || (!lab.banded && h.swing.Some? && h.swing.value.high <= h.swing.value.low))
      && (next.banded <==> lab.banded || (!lab.aborted && h.swing.Some? && h.swing.value.high > h.swing.value.low))
  {
  }

  /** A first swing whose high lies below its low, as a rising market can leave, raises. */
  lemma AnInvertedFirstSwingRaises(study: Study, m: seq<Minute>)
    ensures AfterHours(study, m, [Hour(0, 103.0, Some(Swing(100.0, 3, 102.0, 9)))]).aborted
  {
    var hours := [Hour(0, 103.0, Some(Swing(100.0, 3, 102.0, 9)))];
    RunsRaiseExactlyWhen(study, m, hours);
    assert StartsInverted(hours, 0);
  }
}
