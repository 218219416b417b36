/** Absorption, then a dominance flip: when a touched band is entered, and what is known by then. */
module Confirmation {
  import opened Wrappers
  import opened Sums
  import opened OrderStatistics
  import Sorting
  import opened Bracket

  const CONFIRM_WINDOW_BARS: nat := 30
  const BASELINE_BARS: nat := 60
  const ABSORPTION_DELTA_FRAC: real := 0.6
  const ABSORPTION_CLOSE_FRAC: real := 0.5
  const FLIP_DELTA_FRAC: real := 0.3
  const PARTICIPATION_WINDOW: nat := 5
  const PARTICIPATION_FLOOR: real := 1.0
  const STOP_BUFFER_FRAC: real := 0.0005

  datatype Entry = Entry(index: nat, price: real, stop: real, absorption: nat)

  function TakerDelta(b: Minute): real
  {
    2.0 * b.takerBuy - b.volume
  }

  /** The volumes of the `width` bars before `end`, or of as many as there are. */
  function VolumesBefore(c: seq<Minute>, end: nat, width: nat): seq<real>
    requires end <= |c|
  {
    var start := if end < width then 0 else end - width;
    seq(end - start, k requires 0 <= k < end - start => c[start + k].volume)
  }

  function BaselineMeanVolume(c: seq<Minute>, i: nat): real
    requires i <= |c|
  {
    var vols := VolumesBefore(c, i, BASELINE_BARS);
    if vols == [] then 0.0 else Sum(vols) / |vols| as real
  }

  function WindowSums(vols: seq<real>, w: nat): seq<real>
    requires w <= |vols|
  {
    seq(|vols| - w + 1, k requires 0 <= k < |vols| - w + 1 => Sum(vols[k..k + w]))
  }

  /** The newest window's volume against the median of the windows before it; too few bars measure nothing. */
  predicate LiveMarket(vols: seq<real>)
  {
    var w := PARTICIPATION_WINDOW;
    && |vols| >= 2 * w
    && var sums := WindowSums(vols, w);
       var base := MedianOf(sums[..|sums| - 1]);
       base.Some? && base.value > 0.0 && sums[|sums| - 1] >= PARTICIPATION_FLOOR * base.value
  }

  /** No trade in a dead market: closed when there is too little to measure. */
  predicate ParticipationOk(c: seq<Minute>, i: nat)
    requires i < |c|
  {
    i + 1 >= PARTICIPATION_WINDOW && LiveMarket(VolumesBefore(c, i + 1, BASELINE_BARS))
  }

  predicate ClosesBeyond(b: Minute, d: Direction, invalidation: Option<real>)
  {
    invalidation.Some? && (if d == Long then b.close < invalidation.value else b.close > invalidation.value)
  }

  /** Heavy aggression against the trade that price refuses to follow. */
  predicate Absorbs(c: seq<Minute>, i: nat, d: Direction)
    requires i < |c|
  {
    var b, scale := c[i], BaselineMeanVolume(c, i);
    && scale > 0.0
    && Sign(d) * TakerDelta(b) <= -ABSORPTION_DELTA_FRAC * scale
    && b.high - b.low > 0.0
    && var pos := (b.close - b.low) / (b.high - b.low);
       if d == Long then pos >= ABSORPTION_CLOSE_FRAC else 1.0 - pos >= ABSORPTION_CLOSE_FRAC
  }

  /** Aggression with the trade that closes beyond the absorbing bar. */
  predicate Flips(c: seq<Minute>, i: nat, absorption: nat, d: Direction)
    requires i < |c| && absorption < |c|
  {
    var b, scale := c[i], BaselineMeanVolume(c, i);
    && scale > 0.0
    && Sign(d) * TakerDelta(b) >= FLIP_DELTA_FRAC * scale
    && if d == Long then b.close > c[absorption].high else b.close < c[absorption].low
  }

  function Worse(d: Direction, x: real, b: Minute): real
  {
    if d == Long then if b.low < x then b.low else x
    else if b.high > x then b.high else x
  }

  function Edge(d: Direction, b: Minute): real
  {
    if d == Long then b.low else b.high
  }

  /** The extreme on the stop side over the bars from `t` through `i`. */
  function Extreme(c: seq<Minute>, t: nat, i: nat, d: Direction): real
    requires t <= i < |c|
  {
    if i == t then Edge(d, c[t]) else Worse(d, Extreme(c, t, i - 1, d), c[i])
  }

  function EntryAt(c: seq<Minute>, i: nat, extreme: real, absorption: nat, d: Direction): Entry
    requires i < |c|
  {
    var buffer := STOP_BUFFER_FRAC * c[i].close;
    Entry(i, c[i].close, if d == Long then extreme - buffer else extreme + buffer, absorption)
  }

  function WindowStop(c: seq<Minute>, t: nat): nat
  {
    if |c| < t + 1 + CONFIRM_WINDOW_BARS then |c| else t + 1 + CONFIRM_WINDOW_BARS
  }

  datatype Progress = Halt(result: Option<Entry>) | Go(absorption: Option<nat>, extreme: real)

  /** What one bar does to the scan. */
  function Advance(c: seq<Minute>, i: nat, d: Direction, invalidation: Option<real>, absorption: Option<nat>, extreme: Option<real>): (r: Progress)
    requires i < |c| && (absorption.Some? ==> absorption.value < i)
    ensures r.Go? && r.absorption.Some? ==> r.absorption.value <= i
    ensures r.Halt? && r.result.Some? ==> r.result.value.index == i
  {
    var worst := if extreme.None? then Edge(d, c[i]) else Worse(d, extreme.value, c[i]);
    if ClosesBeyond(c[i], d, invalidation) then Halt(None)
    else if absorption.None? then Go(if Absorbs(c, i, d) then Some(i) else None, worst)
    else if !Flips(c, i, absorption.value, d) then Go(absorption, worst)
    else Halt(if ParticipationOk(c, i) then Some(EntryAt(c, i, worst, absorption.value, d)) else None)
  }

  /** What the scan still to come, from bar `i`, returns. */
  function ScanFrom(c: seq<Minute>, i: nat, end: nat, d: Direction, invalidation: Option<real>, absorption: Option<nat>, extreme: Option<real>): Option<Entry>
    requires i <= end <= |c| && (absorption.Some? ==> absorption.value < i)
    decreases end - i
  {
    if i == end then None
    else
      match Advance(c, i, d, invalidation, absorption, extreme)
      case Halt(result) => result
      case Go(absorption', worst) => ScanFrom(c, i + 1, end, d, invalidation, absorption', Some(worst))
  }

  function Confirmed(c: seq<Minute>, t: nat, d: Direction, invalidation: Option<real>): Option<Entry>
  {
    if t < |c| then ScanFrom(c, t, WindowStop(c, t), d, invalidation, None, None) else None
  }

  /** `confirm_entry` */
  method ConfirmEntry(c: seq<Minute>, t: nat, d: Direction, invalidation: Option<real>) returns (r: Option<Entry>)
    ensures r == Confirmed(c, t, d, invalidation)
  {
    if t >= |c| { return None; }
    var end := WindowStop(c, t);
    var absorption: Option<nat>, extreme: Option<real> := None, None;
    for i := t to end
      invariant absorption.Some? ==> absorption.value < i
      invariant Confirmed(c, t, d, invalidation) == ScanFrom(c, i, end, d, invalidation, absorption, extreme)
    {
      var worst := if extreme.None? then Edge(d, c[i]) else Worse(d, extreme.value, c[i]);
      extreme := Some(worst);
      if ClosesBeyond(c[i], d, invalidation) { return None; }
      if absorption.None? {
        if Absorbs(c, i, d) { absorption := Some(i); }
      } else if Flips(c, i, absorption.value, d) {
        if !ParticipationOk(c, i) { return None; }
        return Some(EntryAt(c, i, worst, absorption.value, d));
      }
    }
    return None;
  }

  // ---------------------------------------------------------------- when exactly a band is entered

  /** Bar `a` absorbs, and it is the first from the touch on to do so. */
  predicate FirstAbsorption(c: seq<Minute>, t: nat, a: nat, d: Direction)
    requires t <= a < |c|
  {
    Absorbs(c, a, d) && forall j | t <= j < a :: !Absorbs(c, j, d)
  }

  predicate FirstFlip(c: seq<Minute>, a: nat, i: nat, d: Direction)
    requires a < i < |c|
  {
    Flips(c, i, a, d) && forall j | a < j < i :: !Flips(c, j, a, d)
  }

  predicate Alive(c: seq<Minute>, t: nat, i: nat, d: Direction, invalidation: Option<real>)
    requires t <= i <= |c|
  {
    forall j | t <= j < i :: !ClosesBeyond(c[j], d, invalidation)
  }

  /** The entry at `i` behind the absorption at `a`: first flip after first absorption, alive, in a live market. */
  predicate Enters(c: seq<Minute>, t: nat, a: nat, i: nat, d: Direction, invalidation: Option<real>)
    requires t <= a < i < |c|
  {
    && i <= t + CONFIRM_WINDOW_BARS
    && FirstAbsorption(c, t, a, d)
    && FirstFlip(c, a, i, d)
    && Alive(c, t, i + 1, d, invalidation)
    && ParticipationOk(c, i)
  }

  function Seen(c: seq<Minute>, t: nat, i: nat, d: Direction): Option<real>
    requires t <= i <= |c|
  {
    if i == t then None else Some(Extreme(c, t, i - 1, d))
  }

  lemma {:induction false} FlipPhase(c: seq<Minute>, t: nat, a: nat, i: nat, d: Direction, invalidation: Option<real>, e: Entry)
    requires t <= a < i <= WindowStop(c, t) && t < |c|
    requires FirstAbsorption(c, t, a, d) && Alive(c, t, i, d, invalidation)
    requires forall j | a < j < i :: !Flips(c, j, a, d)
    ensures ScanFrom(c, i, WindowStop(c, t), d, invalidation, Some(a), Seen(c, t, i, d)) == Some(e)
      <==> a < e.index < |c| && Enters(c, t, a, e.index, d, invalidation) && e == EntryAt(c, e.index, Extreme(c, t, e.index, d), a, d)
    decreases WindowStop(c, t) - i
  {
    hide Absorbs, Flips, ParticipationOk, ClosesBeyond;
    if i < WindowStop(c, t) && !ClosesBeyond(c[i], d, invalidation) && !Flips(c, i, a, d) {
      FlipPhase(c, t, a, i + 1, d, invalidation, e);
    }
  }

  lemma {:induction false} AbsorptionPhase(c: seq<Minute>, t: nat, i: nat, d: Direction, invalidation: Option<real>, e: Entry)
    requires t <= i <= WindowStop(c, t) && t < |c|
    requires Alive(c, t, i, d, invalidation)
    requires forall j | t <= j < i :: !Absorbs(c, j, d)
    ensures ScanFrom(c, i, WindowStop(c, t), d, invalidation, None, Seen(c, t, i, d)) == Some(e)
      <==> t <= e.absorption < e.index < |c| && Enters(c, t, e.absorption, e.index, d, invalidation)
           && e == EntryAt(c, e.index, Extreme(c, t, e.index, d), e.absorption, d)
    decreases WindowStop(c, t) - i
  {
    hide Absorbs, Flips, ParticipationOk, ClosesBeyond;
    if i < WindowStop(c, t) && !ClosesBeyond(c[i], d, invalidation) {
      if Absorbs(c, i, d) {
        FlipPhase(c, t, i, i + 1, d, invalidation, e);
      } else {
        AbsorptionPhase(c, t, i + 1, d, invalidation, e);
      }
    }
  }

  /**
   A touched band is entered exactly at the first flip after the first absorption, if that
   comes inside the window, no bar through it closed beyond invalidation, and the market is
   alive there; the stop stands behind the extreme of every bar from the touch to the entry.
   */
  lemma EntersExactlyWhen(c: seq<Minute>, t: nat, d: Direction, invalidation: Option<real>, e: Entry)
    requires t < |c|
    ensures Confirmed(c, t, d, invalidation) == Some(e)
      <==> t <= e.absorption < e.index < |c| && Enters(c, t, e.absorption, e.index, d, invalidation)
           && e == EntryAt(c, e.index, Extreme(c, t, e.index, d), e.absorption, d)
  {
    AbsorptionPhase(c, t, t, d, invalidation, e);
  }

  lemma {:induction false} ExtremeCoversTheBars(c: seq<Minute>, t: nat, i: nat, d: Direction)
    requires t <= i < |c|
    ensures forall k | t <= k <= i :: Sign(d) * Extreme(c, t, i, d) <= Sign(d) * Edge(d, c[k])
  {
    if t < i { ExtremeCoversTheBars(c, t, i - 1, d); }
  }

  /** An entry on well-formed bars always carries its stop on the losing side, so its risk is positive. */
  lemma ConfirmedStopsLose(c: seq<Minute>, t: nat, d: Direction, invalidation: Option<real>)
    requires Confirmed(c, t, d, invalidation).Some?
    requires forall k | 0 <= k < |c| :: 0.0 < c[k].low <= c[k].close <= c[k].high
    ensures var e := Confirmed(c, t, d, invalidation).value;
      && t <= e.absorption < e.index < |c| && e.index <= t + CONFIRM_WINDOW_BARS
      && Sign(d) * e.stop < Sign(d) * e.price && Risk(e.price, e.stop) > 0.0
      && forall k | t <= k <= e.index :: Sign(d) * e.stop < Sign(d) * Edge(d, c[k])
  {
    var e := Confirmed(c, t, d, invalidation).value;
    EntersExactlyWhen(c, t, d, invalidation, e);
    ExtremeCoversTheBars(c, t, e.index, d);
    assert Sign(d) * Edge(d, c[e.index]) <= Sign(d) * e.price;
  }

  // ---------------------------------------------------------------- the same in the tape's own terms

  /** What takers bought beyond what they sold, seen from the trade's side. */
  function Pressure(b: Minute, d: Direction): real
  {
    var bought, sold := b.takerBuy, b.volume - b.takerBuy;
    if d == Long then bought - sold else sold - bought
  }

  function Volumes(c: seq<Minute>, from: nat, to: nat): (vols: seq<real>)
    requires from <= to <= |c|
    ensures |vols| == to - from
  {
    seq(to - from, k requires 0 <= k < to - from => c[from + k].volume)
  }

  /** How many bars back the baseline reaches. */
  function Reach(end: nat): nat
  {
    if end <= 60 then end else 60
  }

  function BaselineVolume(c: seq<Minute>, i: nat): real
    requires i <= |c|
  {
    Sum(Volumes(c, i - Reach(i), i))
  }

  /** Takers press against the trade with six tenths of the mean volume, and the bar closes in its better half. */
  predicate Refuses(c: seq<Minute>, i: nat, d: Direction)
    requires i < |c|
  {
    && BaselineVolume(c, i) > 0.0
    && -Pressure(c[i], d) * Reach(i) as real >= 0.6 * BaselineVolume(c, i)
    && c[i].low < c[i].high
    && if d == Long then c[i].high - c[i].close <= c[i].close - c[i].low else c[i].close - c[i].low <= c[i].high - c[i].close
  }

  /** Takers press with the trade with three tenths of the mean volume, and the bar closes past the one that refused. */
  predicate Follows(c: seq<Minute>, i: nat, a: nat, d: Direction)
    requires i < |c| && a < |c|
  {
    && BaselineVolume(c, i) > 0.0
    && Pressure(c[i], d) * Reach(i) as real >= 0.3 * BaselineVolume(c, i)
    && if d == Long then c[a].high < c[i].close else c[i].close < c[a].low
  }

  /** The volume of five bars. */
  function FiveBars(c: seq<Minute>, from: nat): real
    requires from + 5 <= |c|
  {
    Sum(Volumes(c, from, from + 5))
  }

  /** The volumes of `count` overlapping fives. */
  function Fives(c: seq<Minute>, from: nat, count: nat): seq<real>
    requires from + count + 4 <= |c|
  {
    seq(count, k requires 0 <= k < count => FiveBars(c, from + k))
  }

  /** The newest five bars trade at least the median of the fives before them in the last hour, of which there are some. */
  predicate Busy(c: seq<Minute>, i: nat)
    requires i < |c|
  {
    var n := Reach(i + 1);
    10 <= n && ReachesTheMedian(Fives(c, i + 1 - n, n - 5), FiveBars(c, i - 4))
  }

  predicate ReachesTheMedian(earlier: seq<real>, newest: real)
  {
    var base := MedianOf(earlier);
    base.Some? && 0.0 < base.value <= newest
  }

  lemma TimesItsCount(x: real, total: real, n: real, share: real)
    requires 0.0 < n
    ensures x >= share * (total / n) <==> x * n >= share * total
    ensures -x <= -share * (total / n) <==> x * n >= share * total
    ensures 0.0 < total / n <==> 0.0 < total
  {
    var mean := total / n;
    assert mean * n == total;
    var gap := x - share * mean;
    assert gap * n == x * n - share * total;
    ProductSigns(gap, n);
    ProductSigns(mean, n);
  }

  lemma ProductSigns(x: real, n: real)
    requires 0.0 < n
    ensures (0.0 <= x * n <==> 0.0 <= x) && (0.0 < x * n <==> 0.0 < x)
  {
    if x < 0.0 { assert 0.0 < (-x) * n; }
  }

  lemma VolumesAgree(c: seq<Minute>, end: nat)
    requires end <= |c|
    ensures VolumesBefore(c, end, BASELINE_BARS) == Volumes(c, end - Reach(end), end)
  {
  }

  lemma PressureIsSigned(b: Minute, d: Direction)
    ensures Sign(d) * TakerDelta(b) == Pressure(b, d)
  {
    SignTimes(d, TakerDelta(b));
    hide Sign;
  }

  lemma AbsorbingIsRefusing(c: seq<Minute>, i: nat, d: Direction)
    requires i < |c|
    ensures Absorbs(c, i, d) <==> Refuses(c, i, d)
  {
    VolumesAgree(c, i);
    PressureIsSigned(c[i], d);
    if i > 0 { TimesItsCount(-Pressure(c[i], d), BaselineVolume(c, i), Reach(i) as real, 0.6); }
    if c[i].low < c[i].high { BetterHalf(c[i]); }
    hide Sum, VolumesBefore, Volumes, Sign, TakerDelta, Pressure;
  }

  lemma BetterHalf(b: Minute)
    requires b.low < b.high
    ensures var pos := (b.close - b.low) / (b.high - b.low);
      && (pos >= 0.5 <==> b.high - b.close <= b.close - b.low)
      && (1.0 - pos >= 0.5 <==> b.close - b.low <= b.high - b.close)
  {
    var range := b.high - b.low;
    var pos := (b.close - b.low) / range;
    assert pos * range == b.close - b.low;
    assert (pos - 0.5) * range == pos * range - 0.5 * range;
    assert (0.5 - pos) * range == 0.5 * range - pos * range;
    ProductSigns(pos - 0.5, range);
    ProductSigns(0.5 - pos, range);
  }

  lemma FlippingIsFollowing(c: seq<Minute>, i: nat, a: nat, d: Direction)
    requires i < |c| && a < |c|
    ensures Flips(c, i, a, d) <==> Follows(c, i, a, d)
  {
    VolumesAgree(c, i);
    PressureIsSigned(c[i], d);
    if i > 0 { TimesItsCount(Pressure(c[i], d), BaselineVolume(c, i), Reach(i) as real, 0.3); }
    hide Sum, VolumesBefore, Volumes, Sign, TakerDelta, Pressure;
  }

  lemma WindowsAreFives(c: seq<Minute>, i: nat)
    requires i < |c| && 10 <= Reach(i + 1)
    ensures var n, sums := Reach(i + 1), WindowSums(Volumes(c, i + 1 - Reach(i + 1), i + 1), 5);
      && |sums| == n - 4
      && sums[..|sums| - 1] == Fives(c, i + 1 - n, n - 5)
      && sums[|sums| - 1] == FiveBars(c, i - 4)
  {
    var n := Reach(i + 1);
    var vols := Volumes(c, i + 1 - n, i + 1);
    forall k | 0 <= k < n - 4 ensures WindowSums(vols, 5)[k] == FiveBars(c, i + 1 - n + k) {
      assert vols[k..k + 5] == Volumes(c, i + 1 - n + k, i + 1 - n + k + 5);
    }
    hide Sum;
  }

  lemma LiveExactlyWhen(vols: seq<real>, earlier: seq<real>, newest: real)
    requires |vols| >= 10 ==>
      var sums := WindowSums(vols, PARTICIPATION_WINDOW); sums[..|sums| - 1] == earlier && sums[|sums| - 1] == newest
    ensures LiveMarket(vols) <==> |vols| >= 10 && ReachesTheMedian(earlier, newest)
  {
    hide MedianOf;
  }

  lemma ParticipatingIsBusy(c: seq<Minute>, i: nat)
    requires i < |c|
    ensures ParticipationOk(c, i) <==> Busy(c, i)
  {
    hide VolumesBefore, Volumes, WindowSums, FiveBars, Fives, ReachesTheMedian, LiveMarket;
    VolumesAgree(c, i + 1);
    var n := Reach(i + 1);
    var vols := Volumes(c, i + 1 - n, i + 1);
    if 10 <= n {
      WindowsAreFives(c, i);
      LiveExactlyWhen(vols, Fives(c, i + 1 - n, n - 5), FiveBars(c, i - 4));
    } else {
      LiveExactlyWhen(vols, [], 0.0);
    }
  }

  /** The worst price from `t` through `i` on the stop side. */
  predicate IsWorst(c: seq<Minute>, t: nat, i: nat, d: Direction, x: real)
    requires t <= i < |c|
  {
    if d == Long then (forall k | t <= k <= i :: x <= c[k].low) && exists k | t <= k <= i :: x == c[k].low
    else (forall k | t <= k <= i :: c[k].high <= x) && exists k | t <= k <= i :: x == c[k].high
  }

  lemma {:induction false} ExtremeIsWorst(c: seq<Minute>, t: nat, i: nat, d: Direction)
    requires t <= i < |c|
    ensures IsWorst(c, t, i, d, Extreme(c, t, i, d))
  {
    if t < i {
      ExtremeIsWorst(c, t, i - 1, d);
      var x := Extreme(c, t, i - 1, d);
      if d == Long {
        var k :| t <= k <= i - 1 && x == c[k].low;
      } else {
        var k :| t <= k <= i - 1 && x == c[k].high;
      }
    }
  }

  lemma OneWorst(c: seq<Minute>, t: nat, i: nat, d: Direction, x: real, y: real)
    requires t <= i < |c| && IsWorst(c, t, i, d, x) && IsWorst(c, t, i, d, y)
    ensures x == y
  {
  }

  /** No bar of a stretch closes beyond the invalidation. */
  predicate Holds(c: seq<Minute>, t: nat, i: nat, d: Direction, invalidation: Option<real>)
    requires t <= i < |c|
  {
    invalidation.Some? ==> forall k | t <= k <= i :: if d == Long then invalidation.value <= c[k].close else c[k].close <= invalidation.value
  }

  /** The first bar after the first refusal that follows through, in time, held and busy. */
  predicate FollowsThrough(c: seq<Minute>, t: nat, a: nat, i: nat, d: Direction, invalidation: Option<real>)
    requires t <= a < i < |c|
  {
    && i <= t + 30
    && Refuses(c, a, d) && (forall k | t <= k < a :: !Refuses(c, k, d))
    && Follows(c, i, a, d) && (forall k | a < k < i :: !Follows(c, k, a, d))
    && Holds(c, t, i, d, invalidation) && Busy(c, i)
  }

  /** The entry as the tape shows it. */
  predicate IsEntry(c: seq<Minute>, t: nat, d: Direction, invalidation: Option<real>, e: Entry)
  {
    && t <= e.absorption < e.index < |c|
    && FollowsThrough(c, t, e.absorption, e.index, d, invalidation)
    && e.price == c[e.index].close
    && IsWorst(c, t, e.index, d, if d == Long then e.stop + 0.0005 * e.price else e.stop - 0.0005 * e.price)
  }

  /**
   In volumes and prices alone: the first bar after the first refusal that follows through,
   within half an hour of the touch, held and busy, is the entry, at its close, with the stop a
   twentieth of a percent behind the worst price since the touch; and nothing else is one.
   */
  lemma ConfirmsExactlyTheEntry(c: seq<Minute>, t: nat, d: Direction, invalidation: Option<real>, e: Entry)
    requires t < |c|
    ensures Confirmed(c, t, d, invalidation) == Some(e) <==> IsEntry(c, t, d, invalidation, e)
  {
    hide Confirmed, FollowsThrough, IsWorst, Extreme, Enters, EntryAt;
    EntersExactlyWhen(c, t, d, invalidation, e);
    if t <= e.absorption < e.index < |c| {
      EntersAsSeen(c, t, d, invalidation, e);
      StopAsSeen(c, t, d, e);
    }
  }

  lemma EntersAsSeen(c: seq<Minute>, t: nat, d: Direction, invalidation: Option<real>, e: Entry)
    requires t <= e.absorption < e.index < |c|
    ensures Enters(c, t, e.absorption, e.index, d, invalidation) <==> FollowsThrough(c, t, e.absorption, e.index, d, invalidation)
  {
    hide Refuses, Follows, Busy, Absorbs, Flips, ParticipationOk;
    forall k | t <= k <= e.index ensures Absorbs(c, k, d) <==> Refuses(c, k, d) { AbsorbingIsRefusing(c, k, d); }
    forall k | t <= k <= e.index ensures Flips(c, k, e.absorption, d) <==> Follows(c, k, e.absorption, d) { FlippingIsFollowing(c, k, e.absorption, d); }
    ParticipatingIsBusy(c, e.index);
    assert Alive(c, t, e.index + 1, d, invalidation) <==> Holds(c, t, e.index, d, invalidation) by { hide FirstAbsorption, FirstFlip; }
    hide Alive, Holds;
  }

  lemma StopAsSeen(c: seq<Minute>, t: nat, d: Direction, e: Entry)
    requires t <= e.index < |c|
    ensures e == EntryAt(c, e.index, Extreme(c, t, e.index, d), e.absorption, d) <==>
      && e.price == c[e.index].close
      && IsWorst(c, t, e.index, d, if d == Long then e.stop + 0.0005 * e.price else e.stop - 0.0005 * e.price)
  {
    var x := if d == Long then e.stop + 0.0005 * e.price else e.stop - 0.0005 * e.price;
    ExtremeIsWorst(c, t, e.index, d);
    if IsWorst(c, t, e.index, d, x) { OneWorst(c, t, e.index, d, x, Extreme(c, t, e.index, d)); }
    hide IsWorst, Extreme;
  }

  // ---------------------------------------------------------------- which extreme the stop stands behind

  /** Bar `k` goes beyond `x` on the stop side. */
  predicate GoesBeyond(c: seq<Minute>, k: nat, x: real, d: Direction)
    requires k < |c|
  {
    if d == Long then c[k].low < x else c[k].high > x
  }

  /** No bar after `a`, through `i`, goes beyond `x`. */
  predicate NothingBeyond(c: seq<Minute>, a: nat, i: nat, x: real, d: Direction)
    requires a <= i < |c|
  {
    forall k | a < k <= i :: !GoesBeyond(c, k, x, d)
  }

  lemma {:induction false} ExtremeStandsExactlyWhen(c: seq<Minute>, t: nat, a: nat, i: nat, d: Direction)
    requires t <= a <= i < |c|
    ensures Extreme(c, t, i, d) == Extreme(c, t, a, d) <==> NothingBeyond(c, a, i, Extreme(c, t, a, d), d)
    ensures d == Long ==> Extreme(c, t, i, d) <= Extreme(c, t, a, d)
    ensures d == Short ==> Extreme(c, t, i, d) >= Extreme(c, t, a, d)
    decreases i
  {
    if a < i {
      ExtremeStandsExactlyWhen(c, t, a, i - 1, d);
      var x := Extreme(c, t, a, d);
      assert NothingBeyond(c, a, i, x, d) <==> NothingBeyond(c, a, i - 1, x, d) && !GoesBeyond(c, i, x, d);
      assert Extreme(c, t, i, d) == Worse(d, Extreme(c, t, i - 1, d), c[i]);
      hide NothingBeyond;
    }
  }

  /** The stop as described: behind the extreme from the touch through the absorbing bar. */
  function DescribedStop(c: seq<Minute>, t: nat, e: Entry, d: Direction): real
    requires t <= e.absorption < |c| && e.index < |c|
  {
    EntryAt(c, e.index, Extreme(c, t, e.absorption, d), e.absorption, d).stop
  }

  /**
   The stop of an entry is the described one exactly when no bar after the absorption, through
   the entry, goes beyond the extreme reached by then: the scan keeps moving it.
   */
  lemma StopIsAsDescribedExactlyWhen(c: seq<Minute>, t: nat, d: Direction, invalidation: Option<real>)
    requires t < |c| && Confirmed(c, t, d, invalidation).Some?
    ensures var e := Confirmed(c, t, d, invalidation).value;
      && t <= e.absorption < e.index < |c|
      && (e.stop == DescribedStop(c, t, e, d) <==> NothingBeyond(c, e.absorption, e.index, Extreme(c, t, e.absorption, d), d))
  {
    var e := Confirmed(c, t, d, invalidation).value;
    EntersExactlyWhen(c, t, d, invalidation, e);
    ExtremeStandsExactlyWhen(c, t, e.absorption, e.index, d);
    hide Confirmed, Enters, Extreme, NothingBeyond;
  }

  lemma {:induction false} SumOfOnes(s: seq<real>)
    requires forall i | 0 <= i < |s| :: s[i] == 1.0
    ensures Sum(s) == |s| as real
  {
    if s != [] { SumOfOnes(s[..|s| - 1]); }
  }

  lemma MedianOfOneValue(s: seq<real>, x: real)
    requires s != [] && forall i | 0 <= i < |s| :: s[i] == x
    ensures MedianOf(s) == Some(x)
  {
    var v := Sorting.Sorted(s);
    forall i | 0 <= i < |v| ensures v[i] == x {
      assert v[i] in multiset(v) && multiset(v) == multiset(s);
      assert v[i] in s;
    }
    hide Sorting.Sorted;
  }

  lemma OverItself(n: real)
    requires 0.0 < n
    ensures n / n == 1.0
  {
    var q := n / n;
    assert q * n == n;
    assert (q - 1.0) * n == 0.0;
    ProductSign(q - 1.0, n);
  }

  /** In a market of one volume every bar has the same scale, and participation holds from the tenth on. */
  lemma SteadyVolume(c: seq<Minute>, i: nat)
    requires 9 <= i < |c| && forall k | 0 <= k < |c| :: c[k].volume == 1.0
    ensures BaselineMeanVolume(c, i) == 1.0 && ParticipationOk(c, i)
  {
    hide LiveMarket, Sum;
    var vols := VolumesBefore(c, i, BASELINE_BARS);
    SumOfOnes(vols);
    OverItself(|vols| as real);
    SteadyIsLive(VolumesBefore(c, i + 1, BASELINE_BARS));
  }

  lemma SteadyIsLive(vols: seq<real>)
    requires |vols| >= 10 && forall i | 0 <= i < |vols| :: vols[i] == 1.0
    ensures LiveMarket(vols)
  {
    var sums := WindowSums(vols, PARTICIPATION_WINDOW);
    forall k | 0 <= k < |sums| ensures sums[k] == 5.0 { SumOfOnes(vols[k..k + PARTICIPATION_WINDOW]); }
    MedianOfOneValue(sums[..|sums| - 1], 5.0);
    hide Sum, MedianOf;
  }

  function Bar(low: real, high: real, close: real, takerBuy: real): Minute
  {
    Minute(0, low, high, close, 1.0, takerBuy)
  }

  /** Ten flat bars, one that absorbs, and a flip that first dips below it. */
  const DIPS_BEFORE_THE_FLIP: seq<Minute> :=
    seq(10, _ => Bar(100.0, 100.0, 100.0, 0.5)) + [Bar(98.0, 102.0, 101.0, 0.0), Bar(97.0, 104.0, 103.0, 1.0)]

  /** An entry whose stop is not the described one. */
  lemma TheStopCanMoveOn()
    ensures var c := DIPS_BEFORE_THE_FLIP;
      var e := Entry(11, 103.0, 97.0 - STOP_BUFFER_FRAC * 103.0, 10);
      && |c| == 12
      && Confirmed(c, 10, Long, None) == Some(e)
      && DescribedStop(c, 10, e, Long) == 98.0 - STOP_BUFFER_FRAC * 103.0
  {
    var c := DIPS_BEFORE_THE_FLIP;
    var e := Entry(11, 103.0, 97.0 - STOP_BUFFER_FRAC * 103.0, 10);
    assert c[10] == Bar(98.0, 102.0, 101.0, 0.0) && c[11] == Bar(97.0, 104.0, 103.0, 1.0);
    SteadyVolume(c, 10);
    SteadyVolume(c, 11);
    assert Absorbs(c, 10, Long) by { assert (101.0 - 98.0) / (102.0 - 98.0) == 0.75; }
    assert Flips(c, 11, 10, Long);
    assert Extreme(c, 10, 10, Long) == 98.0 && Extreme(c, 10, 11, Long) == 97.0;
    hide Absorbs, Flips, BaselineMeanVolume, ParticipationOk;
    assert Enters(c, 10, 10, 11, Long, None);
    EntersExactlyWhen(c, 10, Long, None, e);
  }

  // ---------------------------------------------------------------- no lookahead

  lemma SameBaseline(a: seq<Minute>, b: seq<Minute>, i: nat)
    requires i < |a| && i < |b| && a[..i + 1] == b[..i + 1]
    ensures forall j | 0 <= j <= i :: a[j] == b[j]
    ensures BaselineMeanVolume(a, i) == BaselineMeanVolume(b, i)
    ensures VolumesBefore(a, i + 1, BASELINE_BARS) == VolumesBefore(b, i + 1, BASELINE_BARS)
  {
    assert forall j | 0 <= j <= i :: a[j] == a[..i + 1][j] && b[j] == b[..i + 1][j];
    assert VolumesBefore(a, i, BASELINE_BARS) == VolumesBefore(b, i, BASELINE_BARS);
  }

  lemma SameBarsSameReading(a: seq<Minute>, b: seq<Minute>, i: nat, k: nat, d: Direction)
    requires k <= i < |a| && i < |b| && a[..i + 1] == b[..i + 1]
    ensures a[i] == b[i] && a[k] == b[k]
    ensures Absorbs(a, i, d) == Absorbs(b, i, d) && Flips(a, i, k, d) == Flips(b, i, k, d)
    ensures ParticipationOk(a, i) == ParticipationOk(b, i)
  {
    SameBaseline(a, b, i);
    hide VolumesBefore, BaselineMeanVolume, LiveMarket;
  }

  function Before(e: Option<Entry>, k: nat): Option<Entry>
  {
    if e.Some? && e.value.index < k then e else None
  }

  lemma {:induction false} PrefixScan(c: seq<Minute>, p: seq<Minute>, i: nat, t: nat, d: Direction, invalidation: Option<real>, absorption: Option<nat>, extreme: Option<real>)
    requires |p| <= |c| && p == c[..|p|] && t < |p| && t <= i <= WindowStop(p, t)
    requires absorption.Some? ==> absorption.value < i
    ensures ScanFrom(p, i, WindowStop(p, t), d, invalidation, absorption, extreme)
      == Before(ScanFrom(c, i, WindowStop(c, t), d, invalidation, absorption, extreme), |p|)
    decreases WindowStop(p, t) - i
  {
    hide Advance;
    if i < WindowStop(p, t) {
      SameAdvance(p, c, i, d, invalidation, absorption, extreme);
      var next := Advance(c, i, d, invalidation, absorption, extreme);
      if next.Go? { PrefixScan(c, p, i + 1, t, d, invalidation, next.absorption, Some(next.extreme)); }
    } else {
      EntriesAreAhead(c, i, WindowStop(c, t), d, invalidation, absorption, extreme);
    }
  }

  lemma SameAdvance(a: seq<Minute>, b: seq<Minute>, i: nat, d: Direction, invalidation: Option<real>, absorption: Option<nat>, extreme: Option<real>)
    requires i < |a| <= |b| && a == b[..|a|] && (absorption.Some? ==> absorption.value < i)
    ensures Advance(a, i, d, invalidation, absorption, extreme) == Advance(b, i, d, invalidation, absorption, extreme)
  {
    hide Absorbs, Flips, ParticipationOk;
    assert a[..i + 1] == b[..i + 1];
    SameBarsSameReading(a, b, i, if absorption.Some? then absorption.value else i, d);
  }

  lemma {:induction false} EntriesAreAhead(c: seq<Minute>, i: nat, end: nat, d: Direction, invalidation: Option<real>, absorption: Option<nat>, extreme: Option<real>)
    requires i <= end <= |c| && (absorption.Some? ==> absorption.value < i)
    ensures var r := ScanFrom(c, i, end, d, invalidation, absorption, extreme);
      r.Some? ==> i <= r.value.index < end
    decreases end - i
  {
    hide Advance;
    if i < end {
      var next := Advance(c, i, d, invalidation, absorption, extreme);
      if next.Go? { EntriesAreAhead(c, i + 1, end, d, invalidation, next.absorption, Some(next.extreme)); }
    }
  }

  /**
   No lookahead: cut the tape at any moment, and what confirms is exactly the entry of the
   whole tape if its bar had already closed, and nothing otherwise.
   */
  lemma ConfirmationSeesNoFuture(c: seq<Minute>, k: nat, t: nat, d: Direction, invalidation: Option<real>)
    requires k <= |c|
    ensures Confirmed(c[..k], t, d, invalidation) == Before(Confirmed(c, t, d, invalidation), k)
  {
    if t < k {
      PrefixScan(c, c[..k], t, t, d, invalidation, None, None);
    } else if t < |c| {
      EntriesAreAhead(c, t, WindowStop(c, t), d, invalidation, None, None);
    }
  }
}
