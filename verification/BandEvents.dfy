/**
 Where the events of a study run come from: over every run each event is traced to the swing
 that armed its band and to the bar that touched it, and every met band is booked or dies.
 */
module BandEvents {
  import opened Wrappers
  import opened Bracket
  import opened BandStudy
  import Confirmation

  // ---------------------------------------------------------------- the swing that armed

  /** Hour `i` shows a swing other than the one last seen before it. */
  predicate NewAt(hours: seq<Hour>, i: nat)
    requires i < |hours|
  {
    && hours[i].swing.Some?
    && forall j | 0 <= j < i && hours[j].swing.Some? && (forall k | j < k < i :: hours[k].swing.None?) ::
         !SameSwing(hours[j].swing.value, hours[i].swing.value)
  }

  /** Swings are told apart by where their extremes lie. */
  predicate SameSwing(a: Swing, b: Swing)
  {
    a.highIndex == b.highIndex && a.lowIndex == b.lowIndex
  }

  /** Hour `i` shows the latest new swing of the first `n` hours. */
  predicate LatestNew(hours: seq<Hour>, n: nat, i: nat)
    requires n <= |hours|
  {
    i < n && NewAt(hours, i) && forall k | i < k < n :: !NewAt(hours, k)
  }

  /** Hour `j` shows the last swing of all. */
  predicate LastShown(hours: seq<Hour>, j: nat)
  {
    j < |hours| && hours[j].swing.Some? && forall k | j < k < |hours| :: hours[k].swing.None?
  }

  /** The band of a swing, measured down from the high of a rising impulse or up from the low of a falling one. */
  predicate BandOf(s: Swing, d: Direction, edge: real, invalidation: real)
  {
    && s.low < s.high
    && (d == Long <==> s.lowIndex < s.highIndex)
    && (d == Long ==> s.high - edge == 0.705 * (s.high - s.low) && s.high - invalidation == 0.886 * (s.high - s.low))
    && (d == Short ==> edge - s.low == 0.705 * (s.high - s.low) && invalidation - s.low == 0.886 * (s.high - s.low))
  }

  /** The close is still on the side from which the band would be entered. */
  predicate OnEntrySide(close: real, d: Direction, edge: real)
  {
    if d == Long then edge < close else close < edge
  }

  /** What hour `h` arms: key, direction, and a live band exactly when upright and on the entry side. */
  predicate ArmedBy(a: Armed, h: Hour)
  {
    && h.swing.Some?
    && a.key == (h.swing.value.highIndex, h.swing.value.lowIndex)
    && (a.band.Some? <==> h.swing.value.low < h.swing.value.high)
    && (a.band.Some? ==> BandOf(h.swing.value, a.direction, a.band.value.edge, a.band.value.invalidation))
    && (!a.consumed ==> a.band.Some? && OnEntrySide(h.close, a.direction, a.band.value.edge))
  }

  lemma ArmingArms(h: Hour)
    requires h.swing.Some?
    ensures var a := Arming(h, h.swing.value);
      ArmedBy(a, h) && (!a.consumed <==> a.band.Some? && OnEntrySide(h.close, a.direction, a.band.value.edge))
  {
  }

  /** What is armed after some hours: the latest new swing's band, its key that of the last swing shown. */
  predicate ArmedTells(armed: Option<Armed>, hours: seq<Hour>)
  {
    && (armed.None? ==> forall k | 0 <= k < |hours| :: hours[k].swing.None?)
    && (armed.Some? ==> ArmedByTheLatest(armed.value, hours) && KeyIsShown(armed.value, hours))
  }

  predicate ArmedByTheLatest(a: Armed, hours: seq<Hour>)
  {
    exists i :: 0 <= i < |hours| && LatestNew(hours, |hours|, i) && ArmedBy(a, hours[i])
  }

  predicate KeyIsShown(a: Armed, hours: seq<Hour>)
  {
    exists j :: 0 <= j < |hours| && LastShown(hours, j) && a.key == (hours[j].swing.value.highIndex, hours[j].swing.value.lowIndex)
  }

  lemma NewGrows(hours: seq<Hour>, h: Hour, i: nat)
    requires i < |hours|
    ensures NewAt(hours + [h], i) <==> NewAt(hours, i)
  {
    var all := hours + [h];
    assert forall k | 0 <= k < |hours| :: all[k] == hours[k];
  }

  lemma LatestGrows(hours: seq<Hour>, h: Hour, i: nat)
    requires LatestNew(hours, |hours|, i) && !NewAt(hours + [h], |hours|)
    ensures LatestNew(hours + [h], |hours| + 1, i)
  {
    forall k | 0 <= k < |hours| ensures NewAt(hours + [h], k) <==> NewAt(hours, k) { NewGrows(hours, h, k); }
    hide NewAt;
  }

  /** A swing is new to the run exactly when it differs from the last one shown. */
  lemma NewToTheRun(armed: Option<Armed>, hours: seq<Hour>, h: Hour)
    requires ArmedTells(armed, hours)
    ensures NewSwing(armed, h) <==> NewAt(hours + [h], |hours|)
  {
    var all := hours + [h];
    assert all[|hours|] == h && forall k | 0 <= k < |hours| :: all[k] == hours[k];
    if armed.Some? {
      var j :| 0 <= j < |hours| && LastShown(hours, j) && armed.value.key == (hours[j].swing.value.highIndex, hours[j].swing.value.lowIndex);
      assert all[j].swing.Some?;
      if NewAt(all, |hours|) { assert !SameSwing(all[j].swing.value, h.swing.value); }
      forall k | 0 <= k < |hours| && all[k].swing.Some? && (forall l | k < l < |hours| :: all[l].swing.None?) ensures k == j {
        assert all[k] == hours[k];
      }
    }
  }

  lemma RearmingTells(armed: Option<Armed>, hours: seq<Hour>, h: Hour)
    requires ArmedTells(armed, hours)
    ensures ArmedTells(Rearm(armed, h), hours + [h])
  {
    var all, n := hours + [h], |hours|;
    NewToTheRun(armed, hours, h);
    assert all[n] == h && forall k | 0 <= k < n :: all[k] == hours[k];
    if NewSwing(armed, h) {
      ArmingArms(h);
      assert LatestNew(all, n + 1, n) && LastShown(all, n);
    } else if armed.Some? {
      var i :| 0 <= i < n && LatestNew(hours, n, i) && ArmedBy(armed.value, hours[i]);
      LatestGrows(hours, h, i);
      assert all[i] == hours[i];
      var j :| 0 <= j < n && LastShown(hours, j) && armed.value.key == (hours[j].swing.value.highIndex, hours[j].swing.value.lowIndex);
      assert LastShown(all, if h.swing.Some? then n else j);
    }
    hide NewAt, ArmedBy, BandOf, LatestNew;
  }

  /** A band that has been met is the same band, consumed. */
  lemma ConsumingTells(armed: Option<Armed>, armed': Option<Armed>, hours: seq<Hour>)
    requires ArmedTells(armed, hours)
    requires armed' == armed || (armed.Some? && armed' == Some(armed.value.(consumed := true)))
    ensures ArmedTells(armed', hours)
  {
    if armed.Some? {
      var i :| 0 <= i < |hours| && LatestNew(hours, |hours|, i) && ArmedBy(armed.value, hours[i]);
      assert ArmedBy(armed'.value, hours[i]);
    }
    hide NewAt, BandOf, LatestNew;
  }

  /** An hour re-arms, and its scan may consume what is armed; nothing else happens to it. */
  lemma HoursOnlyConsume(study: Study, m: seq<Minute>, lab: Lab, h: Hour)
    requires !lab.aborted && !AfterHour(study, m, lab, h).aborted
    ensures var armed, next := Rearm(lab.armed, h), AfterHour(study, m, lab, h).armed;
      next == armed || (armed.Some? && next == Some(armed.value.(consumed := true)))
  {
    hide EventAt, BarsBefore, ScanHour, Arming, NewSwing;
  }

  lemma {:induction false} RunsTell(study: Study, m: seq<Minute>, hours: seq<Hour>)
    requires !AfterHours(study, m, hours).aborted
    ensures ArmedTells(AfterHours(study, m, hours).armed, hours)
  {
    hide AfterHours, AfterHour, Rearm, ArmedTells;
    if hours == [] {
      NothingIsTold(study, m);
    } else {
      var n := |hours| - 1;
      var lab := AfterHours(study, m, hours[..n]);
      HoursGrow(study, m, hours);
      StillRunning(study, m, lab, hours[n]);
      RunsTell(study, m, hours[..n]);
      HoursOnlyConsume(study, m, lab, hours[n]);
      RearmingTells(lab.armed, hours[..n], hours[n]);
      assert hours[..n] + [hours[n]] == hours;
      ConsumingTells(Rearm(lab.armed, hours[n]), AfterHours(study, m, hours).armed, hours);
    }
  }

  lemma NothingIsTold(study: Study, m: seq<Minute>)
    ensures ArmedTells(AfterHours(study, m, []).armed, [])
  {
    NoHours(study, m);
    hide AfterHours;
  }

  lemma HoursGrow(study: Study, m: seq<Minute>, hours: seq<Hour>)
    requires hours != []
    ensures AfterHours(study, m, hours) == AfterHour(study, m, AfterHours(study, m, hours[..|hours| - 1]), hours[|hours| - 1])
  {
    hide AfterHour;
  }

  lemma StillRunning(study: Study, m: seq<Minute>, lab: Lab, h: Hour)
    ensures !AfterHour(study, m, lab, h).aborted ==> !lab.aborted
    ensures lab.aborted ==> AfterHour(study, m, lab, h) == lab
  {
    hide AfterScan;
  }

  /** A run visits the hours from the 211th on and leaves out the last. */
  lemma VisitedHours(hours: seq<Hour>)
    ensures |Visited(hours)| == if |hours| <= 211 then 0 else |hours| - 211
    ensures forall k | 0 <= k < |Visited(hours)| :: Visited(hours)[k] == hours[210 + k]
  {
  }

  // ---------------------------------------------------------------- the bar that meets a band

  /** The bar trades through the edge, or closes beyond the invalidation. */
  predicate Meets(b: Minute, d: Direction, band: Band)
  {
    if d == Long then b.low <= band.edge || b.close < band.invalidation
    else b.high >= band.edge || b.close > band.invalidation
  }

  /** ...and it closes on this side of the invalidation, having traded through the edge. */
  predicate Enters(b: Minute, d: Direction, band: Band)
  {
    if d == Long then b.low <= band.edge && band.invalidation <= b.close
    else band.edge <= b.high && b.close <= band.invalidation
  }

  /** The first bar of a stretch that meets the band. */
  predicate FirstMet(m: seq<Minute>, d: Direction, band: Band, start: nat, end: nat, g: nat)
    requires end <= |m|
  {
    start <= g < end && Meets(m[g], d, band) && forall k | start <= k < g :: !Meets(m[k], d, band)
  }

  lemma FirstMetLater(m: seq<Minute>, d: Direction, band: Band, start: nat, end: nat, g: nat)
    requires start < end <= |m| && !Meets(m[start], d, band)
    ensures FirstMet(m, d, band, start, end, g) <==> FirstMet(m, d, band, start + 1, end, g)
  {
  }

  /** The scan ends at the first bar that meets the band. */
  lemma {:induction false} ScansMeet(m: seq<Minute>, d: Direction, band: Band, start: nat, end: nat)
    requires end <= |m|
    ensures var f := ScanHour(m, d, band, start, end);
      && (f.Quiet? ==> forall g: nat :: !FirstMet(m, d, band, start, end, g))
      && (f.Died? ==> exists g: nat :: FirstMet(m, d, band, start, end, g) && !Enters(m[g], d, band))
      && (f.Touched? ==> FirstMet(m, d, band, start, end, f.at) && Enters(m[f.at], d, band))
    decreases end - start
  {
    if start < end {
      if Meets(m[start], d, band) {
        assert FirstMet(m, d, band, start, end, start);
      } else {
        ScansMeet(m, d, band, start + 1, end);
        hide FirstMet, Enters;
        forall g: nat ensures FirstMet(m, d, band, start, end, g) <==> FirstMet(m, d, band, start + 1, end, g) {
          FirstMetLater(m, d, band, start, end, g);
        }
        assert ScanHour(m, d, band, start, end) == ScanHour(m, d, band, start + 1, end);
        hide ScanHour;
      }
    }
  }

  lemma OneFirstMet(m: seq<Minute>, d: Direction, band: Band, start: nat, end: nat, g: nat, h: nat)
    requires end <= |m| && FirstMet(m, d, band, start, end, g) && FirstMet(m, d, band, start, end, h)
    ensures g == h
  {
    hide Meets;
  }

  // ---------------------------------------------------------------- every event has its own swing

  /** Event `e` is the trade of a band armed in one hour and entered in the hour after `at` closed. */
  predicate IsTrade(study: Study, m: seq<Minute>, arming: Hour, at: Hour, e: Event, band: Band)
  {
    && arming.swing.Some?
    && BandOf(arming.swing.value, e.direction, band.edge, band.invalidation)
    && OnEntrySide(arming.close, e.direction, band.edge)
    && PRE_TOUCH_BARS <= e.touch < |m|
    && BarsBefore(m, at.openTime + 3600000) <= e.touch < BarsBefore(m, at.openTime + 7200000)
    && Enters(m[e.touch], e.direction, band)
    && e == EventAt(study, m, e.touch, e.direction, band)
  }

  /** The hours in which an event's band was armed and after which it was touched. */
  datatype Origin = Origin(arming: nat, touching: nat)

  ghost predicate IsOrigin(study: Study, m: seq<Minute>, hours: seq<Hour>, e: Event, o: Origin)
  {
    && o.touching < |hours| && LatestNew(hours, o.touching + 1, o.arming)
    && exists band :: IsTrade(study, m, hours[o.arming], hours[o.touching], e, band)
  }

  /** Each event has an origin, in order, and no two share a swing or an hour. */
  ghost predicate Traced(study: Study, m: seq<Minute>, hours: seq<Hour>, events: seq<Event>, origins: seq<Origin>)
  {
    && |origins| == |events|
    && (forall k | 0 <= k < |events| :: IsOrigin(study, m, hours, events[k], origins[k]))
    && forall k, l | 0 <= k < l < |origins| :: origins[k].arming < origins[l].arming && origins[k].touching < origins[l].touching
  }

  /** What is still live was armed after everything that has been traded. */
  ghost predicate LiveIsUntraded(armed: Option<Armed>, hours: seq<Hour>, origins: seq<Origin>)
  {
    armed.Some? && !armed.value.consumed ==>
      forall i, k | 0 <= k < |origins| && 0 <= i < |hours| && LatestNew(hours, |hours|, i) :: origins[k].arming < i
  }

  lemma OriginsGrow(study: Study, m: seq<Minute>, hours: seq<Hour>, h: Hour, e: Event, o: Origin)
    requires IsOrigin(study, m, hours, e, o)
    ensures IsOrigin(study, m, hours + [h], e, o)
  {
    var all := hours + [h];
    var band :| IsTrade(study, m, hours[o.arming], hours[o.touching], e, band);
    hide IsTrade;
    assert all[o.arming] == hours[o.arming] && all[o.touching] == hours[o.touching];
    forall k | 0 <= k < |hours| ensures NewAt(all, k) <==> NewAt(hours, k) { NewGrows(hours, h, k); }
    hide NewAt;
  }

  lemma OneLatest(hours: seq<Hour>, n: nat, i: nat, j: nat)
    requires n <= |hours| && LatestNew(hours, n, i) && LatestNew(hours, n, j)
    ensures i == j
  {
    hide NewAt;
  }

  /** A scan books an event at `g` for what is armed, and consumes it. */
  predicate BooksAt(study: Study, m: seq<Minute>, before: Lab, next: Lab, openTime: int, a: Armed, g: nat)
  {
    && a.band.Some? && PRE_TOUCH_BARS <= g < |m|
    && BarsBefore(m, openTime + HOUR_MS) <= g < BarsBefore(m, openTime + 2 * HOUR_MS)
    && Enters(m[g], a.direction, a.band.value)
    && next.armed == Some(a.(consumed := true))
    && next.events == before.events + [EventAt(study, m, g, a.direction, a.band.value)]
  }

  /** The one event a scan can book. */
  lemma ScansBookOne(study: Study, m: seq<Minute>, lab: Lab, openTime: int)
    requires AfterScan(study, m, lab, openTime).events != lab.events
    ensures lab.armed.Some? && !lab.armed.value.consumed
    ensures exists g: nat :: BooksAt(study, m, lab, AfterScan(study, m, lab, openTime), openTime, lab.armed.value, g)
  {
    hide EventAt, BarsBefore, Enters, FirstMet, ScanHour;
    var a := lab.armed.value;
    var start, end := FirstFree(lab, BarsBefore(m, openTime + HOUR_MS)), BarsBefore(m, openTime + 2 * HOUR_MS);
    var f := ScanHour(m, a.direction, a.band.value, start, end);
    ScansMeet(m, a.direction, a.band.value, start, end);
    assert f.Touched?;
    assert BooksAt(study, m, lab, AfterScan(study, m, lab, openTime), openTime, a, f.at);
  }

  /** The one event an hour can book. */
  lemma HoursBookOne(study: Study, m: seq<Minute>, lab: Lab, h: Hour)
    requires !lab.aborted && AfterHour(study, m, lab, h).events != lab.events
    ensures var armed := Rearm(lab.armed, h);
      && armed.Some? && !armed.value.consumed
      && exists g: nat :: BooksAt(study, m, lab, AfterHour(study, m, lab, h), h.openTime, armed.value, g)
  {
    hide Rearm, AfterScan, BooksAt, NewSwing, Arming;
    var lab' := AfterArming(lab, h);
    assert lab'.events == lab.events && lab'.armed == Rearm(lab.armed, h);
    ScansBookOne(study, m, lab', h.openTime);
    var g: nat :| BooksAt(study, m, lab', AfterScan(study, m, lab', h.openTime), h.openTime, lab'.armed.value, g);
    assert BooksAt(study, m, lab, AfterHour(study, m, lab, h), h.openTime, lab'.armed.value, g) by { SameBooking(study, m, lab', lab, AfterHour(study, m, lab, h), h.openTime, lab'.armed.value, g); }
  }

  lemma SameBooking(study: Study, m: seq<Minute>, before: Lab, before': Lab, next: Lab, openTime: int, a: Armed, g: nat)
    requires BooksAt(study, m, before, next, openTime, a, g) && before.events == before'.events
    ensures BooksAt(study, m, before', next, openTime, a, g)
  {
    hide EventAt, BarsBefore, Enters;
  }

  /** Where the event of an hour comes from. */
  lemma TradesComeFromTheirSwing(study: Study, m: seq<Minute>, lab: Lab, hours: seq<Hour>, h: Hour) returns (i: nat)
    requires !lab.aborted && ArmedTells(lab.armed, hours) && AfterHour(study, m, lab, h).events != lab.events
    ensures var next := AfterHour(study, m, lab, h);
      && next.events == lab.events + [next.events[|lab.events|]]
      && IsOrigin(study, m, hours + [h], next.events[|lab.events|], Origin(i, |hours|))
      && Rearm(lab.armed, h).Some? && !Rearm(lab.armed, h).value.consumed
      && next.armed.Some? && next.armed.value.consumed
  {
    var next, all := AfterHour(study, m, lab, h), hours + [h];
    hide AfterHour, EventAt, BarsBefore, Rearm, LatestNew, Enters, BandOf, OnEntrySide, LastShown, NewAt;
    HoursBookOne(study, m, lab, h);
    RearmingTells(lab.armed, hours, h);
    var a := Rearm(lab.armed, h).value;
    i :| 0 <= i < |all| && LatestNew(all, |all|, i) && ArmedBy(a, all[i]);
    var g: nat :| BooksAt(study, m, lab, next, h.openTime, a, g);
    hide ArmedTells;
    var e := EventAt(study, m, g, a.direction, a.band.value);
    assert next.events[|lab.events|] == e;
    EventKeepsItsTouch(study, m, g, a.direction, a.band.value);
    BooksATrade(study, m, lab, next, all[i], h, a, g);
    assert IsTrade(study, m, all[i], all[|hours|], e, a.band.value);
    hide IsTrade, ArmedBy, BooksAt;
  }

  lemma BooksATrade(study: Study, m: seq<Minute>, lab: Lab, next: Lab, arming: Hour, h: Hour, a: Armed, g: nat)
    requires BooksAt(study, m, lab, next, h.openTime, a, g) && ArmedBy(a, arming) && !a.consumed
    ensures IsTrade(study, m, arming, h, EventAt(study, m, g, a.direction, a.band.value), a.band.value)
  {
    EventKeepsItsTouch(study, m, g, a.direction, a.band.value);
    hide EventAt, BarsBefore, Enters, BandOf, OnEntrySide;
  }

  lemma EventKeepsItsTouch(study: Study, m: seq<Minute>, g: nat, d: Direction, band: Band)
    requires PRE_TOUCH_BARS <= g < |m|
    ensures EventAt(study, m, g, d, band).touch == g && EventAt(study, m, g, d, band).direction == d
  {
    hide ConfirmAt, RowsFor;
  }

  /**
   Over every run each event has an origin of its own: the latest new swing at or before its
   hour armed it, upright, long exactly when its low came before its high, with the band the
   retracements give and the close on the entry side; and the touch bar trades through the edge
   without closing beyond the invalidation. No swing is traded twice.
   */
  lemma {:induction false} EveryEventHasItsOwnSwing(study: Study, m: seq<Minute>, hours: seq<Hour>)
    ensures var lab := AfterHours(study, m, hours);
      exists origins :: Traced(study, m, hours, lab.events, origins) && (!lab.aborted ==> LiveIsUntraded(lab.armed, hours, origins))
  {
    var lab := AfterHours(study, m, hours);
    if hours == [] {
      var none: seq<Origin> := [];
      NoHours(study, m);
      assert Traced(study, m, hours, lab.events, none) && LiveIsUntraded(lab.armed, hours, none);
    } else {
      var n := |hours| - 1;
      var before := AfterHours(study, m, hours[..n]);
      HoursGrow(study, m, hours);
      hide AfterHours, AfterHour, Traced, LiveIsUntraded, ArmedTells;
      EveryEventHasItsOwnSwing(study, m, hours[..n]);
      var origins :| Traced(study, m, hours[..n], before.events, origins) && (!before.aborted ==> LiveIsUntraded(before.armed, hours[..n], origins));
      if !before.aborted { RunsTell(study, m, hours[..n]); }
      var next := HoursExtendTheTrace(study, m, before, hours[..n], hours[n], origins);
      assert hours[..n] + [hours[n]] == hours;
    }
  }

  lemma HoursExtendTheTrace(study: Study, m: seq<Minute>, lab: Lab, hours: seq<Hour>, h: Hour, origins: seq<Origin>) returns (next: seq<Origin>)
    requires Traced(study, m, hours, lab.events, origins)
    requires !lab.aborted ==> ArmedTells(lab.armed, hours) && LiveIsUntraded(lab.armed, hours, origins)
    ensures var lab' := AfterHour(study, m, lab, h);
      Traced(study, m, hours + [h], lab'.events, next) && (!lab'.aborted ==> LiveIsUntraded(lab'.armed, hours + [h], next))
  {
    var all, lab' := hours + [h], AfterHour(study, m, lab, h);
    StillRunning(study, m, lab, h);
    TraceStands(study, m, hours, h, lab.events, origins);
    next := origins;
    if !lab.aborted {
      RearmedIsUntraded(lab.armed, hours, h, origins);
      if lab'.events != lab.events {
        var i := TradesComeFromTheirSwing(study, m, lab, hours, h);
        next := origins + [Origin(i, |hours|)];
        assert IsOrigin(study, m, all, lab'.events[|lab.events|], Origin(i, |hours|));
        LaterThanAll(Rearm(lab.armed, h), all, origins, i);
        OneMoreOrigin(study, m, all, lab.events, origins, lab'.events[|lab.events|], Origin(i, |hours|));
      } else if !lab'.aborted {
        HoursOnlyConsume(study, m, lab, h);
      }
      hide AfterHour, Rearm, ArmedTells, IsOrigin, LatestNew, Traced;
    }
  }

  lemma TraceStands(study: Study, m: seq<Minute>, hours: seq<Hour>, h: Hour, events: seq<Event>, origins: seq<Origin>)
    requires Traced(study, m, hours, events, origins)
    ensures Traced(study, m, hours + [h], events, origins)
    ensures forall k | 0 <= k < |origins| :: origins[k].arming < |hours| && origins[k].touching < |hours|
  {
    forall k | 0 <= k < |origins| ensures IsOrigin(study, m, hours + [h], events[k], origins[k]) && origins[k].arming < |hours| && origins[k].touching < |hours| {
      assert IsOrigin(study, m, hours, events[k], origins[k]);
      OriginsGrow(study, m, hours, h, events[k], origins[k]);
    }
    hide IsOrigin;
  }

  lemma OneMoreOrigin(study: Study, m: seq<Minute>, hours: seq<Hour>, events: seq<Event>, origins: seq<Origin>, e: Event, o: Origin)
    requires Traced(study, m, hours, events, origins) && IsOrigin(study, m, hours, e, o)
    requires forall k | 0 <= k < |origins| :: origins[k].arming < o.arming && origins[k].touching < o.touching
    ensures Traced(study, m, hours, events + [e], origins + [o])
  {
    hide IsOrigin;
  }

  lemma LaterThanAll(armed: Option<Armed>, hours: seq<Hour>, origins: seq<Origin>, i: nat)
    requires LiveIsUntraded(armed, hours, origins) && armed.Some? && !armed.value.consumed && LatestNew(hours, |hours|, i)
    ensures forall k | 0 <= k < |origins| :: origins[k].arming < i
  {
  }

  lemma RearmedIsUntraded(armed: Option<Armed>, hours: seq<Hour>, h: Hour, origins: seq<Origin>)
    requires ArmedTells(armed, hours) && LiveIsUntraded(armed, hours, origins)
    requires forall k | 0 <= k < |origins| :: origins[k].arming < |hours|
    ensures LiveIsUntraded(Rearm(armed, h), hours + [h], origins)
  {
    var all, n := hours + [h], |hours|;
    NewToTheRun(armed, hours, h);
    forall i, k | 0 <= k < |origins| && 0 <= i < |all| && LatestNew(all, |all|, i) && Rearm(armed, h).Some? && !Rearm(armed, h).value.consumed
      ensures origins[k].arming < i
    {
      if NewSwing(armed, h) {
        assert LatestNew(all, |all|, n);
        OneLatest(all, |all|, i, n);
      } else {
        var j :| 0 <= j < n && LatestNew(hours, n, j) && ArmedBy(armed.value, hours[j]);
        LatestGrows(hours, h, j);
        OneLatest(all, |all|, i, j);
      }
    }
    hide NewAt, ArmedBy, LatestNew, Arming;
  }

  // ---------------------------------------------------------------- every met band is settled

  /** The band is live while this hour is scanned. */
  predicate Live(lab: Lab, h: Hour, a: Armed, band: Band)
  {
    AfterArming(lab, h).armed == Some(a) && !a.consumed && a.band == Some(band)
  }

  /** Where the scan of the hour's next hour begins: not before it, not inside an event, not too early on the tape. */
  predicate ScanStarts(m: seq<Minute>, lab: Lab, h: Hour, start: nat)
  {
    && BarsBefore(m, h.openTime + 3600000) <= start && lab.busyUntil <= start && 80 <= start
    && (start == BarsBefore(m, h.openTime + 3600000) || start == lab.busyUntil || start == 80)
  }

  /** What a scan makes of a live band: settled at the first bar that meets it, untouched if none does. */
  predicate SettledExactly(study: Study, m: seq<Minute>, before: Lab, next: Lab, a: Armed, band: Band, start: nat, end: nat)
    requires end <= |m| && 80 <= start
  {
    && (forall g | 0 <= g < |m| && FirstMet(m, a.direction, band, start, end, g) ::
          && next.armed == Some(a.(consumed := true))
          && next.events == before.events + if Enters(m[g], a.direction, band) then [EventAt(study, m, g, a.direction, band)] else [])
    && ((forall g | 0 <= g < |m| :: !FirstMet(m, a.direction, band, start, end, g)) ==> next.armed == Some(a) && next.events == before.events)
  }

  lemma ScansSettleExactly(study: Study, m: seq<Minute>, lab: Lab, a: Armed, band: Band, start: nat, end: nat)
    requires end <= |m| && 80 <= start && lab.armed == Some(a)
    ensures SettledExactly(study, m, lab, Settle(study, m, lab, a, band, ScanHour(m, a.direction, band, start, end)), a, band, start, end)
  {
    hide EventAt, ScanHour, FirstMet, Enters, LastExit;
    var f := ScanHour(m, a.direction, band, start, end);
    ScansMeet(m, a.direction, band, start, end);
    OnlyFirstMet(m, a.direction, band, start, end);
  }

  lemma OnlyFirstMet(m: seq<Minute>, d: Direction, band: Band, start: nat, end: nat)
    requires end <= |m|
    ensures forall g, k: nat | 0 <= g < |m| && FirstMet(m, d, band, start, end, g) && FirstMet(m, d, band, start, end, k) :: g == k
    ensures forall g: nat | FirstMet(m, d, band, start, end, g) :: g < |m|
  {
    assert forall g: nat | FirstMet(m, d, band, start, end, g) :: g < |m|;
    hide FirstMet;
    forall g, k: nat | 0 <= g < |m| && FirstMet(m, d, band, start, end, g) && FirstMet(m, d, band, start, end, k) ensures g == k {
      OneFirstMet(m, d, band, start, end, g, k);
    }
  }

  /**
   What an hour does with a live band: nothing while no bar of the next hour meets it, and at
   the first bar that does, the band is consumed: with an event there if the bar enters, without
   one if it closes beyond the invalidation. Without a live band an hour adds no event.
   */
  lemma HoursSettleExactly(study: Study, m: seq<Minute>, lab: Lab, h: Hour, a: Armed, band: Band, start: nat)
    requires !lab.aborted && !Raises(lab, h) && Live(lab, h, a, band) && ScanStarts(m, lab, h, start)
    ensures SettledExactly(study, m, lab, AfterHour(study, m, lab, h), a, band, start, BarsBefore(m, h.openTime + 7200000))
  {
    hide Settle, ScanHour, BarsBefore, SettledExactly, NewSwing, Arming, Rearm;
    var lab', end := AfterArming(lab, h), BarsBefore(m, h.openTime + 7200000);
    ScanStartsThere(m, lab, h, start);
    ScansSettleExactly(study, m, lab', a, band, start, end);
    ScansSettle(study, m, lab', h.openTime, a, band, start);
    SettledFromEither(study, m, lab', lab, AfterHour(study, m, lab, h), a, band, start, end);
    hide AfterScan;
  }

  lemma ScanStartsThere(m: seq<Minute>, lab: Lab, h: Hour, start: nat)
    requires ScanStarts(m, lab, h, start)
    ensures start == FirstFree(AfterArming(lab, h), BarsBefore(m, h.openTime + HOUR_MS))
  {
    hide BarsBefore, NewSwing, Arming;
  }

  lemma ScansSettle(study: Study, m: seq<Minute>, lab: Lab, openTime: int, a: Armed, band: Band, start: nat)
    requires lab.armed == Some(a) && !a.consumed && a.band == Some(band) && start == FirstFree(lab, BarsBefore(m, openTime + HOUR_MS))
    ensures PRE_TOUCH_BARS <= start
    ensures var f := ScanHour(m, a.direction, band, start, BarsBefore(m, openTime + 7200000));
      && (f.Touched? ==> PRE_TOUCH_BARS <= f.at < |m|)
      && AfterScan(study, m, lab, openTime) == Settle(study, m, lab, a, band, f)
  {
    hide BarsBefore, ScanHour, Settle;
  }

  lemma SettledFromEither(study: Study, m: seq<Minute>, before: Lab, before': Lab, next: Lab, a: Armed, band: Band, start: nat, end: nat)
    requires end <= |m| && 80 <= start && SettledExactly(study, m, before, next, a, band, start, end) && before.events == before'.events
    ensures SettledExactly(study, m, before', next, a, band, start, end)
  {
    hide FirstMet, Enters, EventAt;
  }

  lemma NoEventWithoutALiveBand(study: Study, m: seq<Minute>, lab: Lab, h: Hour)
    requires lab.aborted || Raises(lab, h) || forall a, band :: !Live(lab, h, a, band)
    ensures AfterHour(study, m, lab, h).events == lab.events
  {
    hide EventAt, BarsBefore, ScanHour, Arming, NewSwing;
    var armed := AfterArming(lab, h).armed;
    if armed.Some? && armed.value.band.Some? && !armed.value.consumed {
      assert Live(lab, h, armed.value, armed.value.band.value);
    }
  }

  /** A new upright swing whose close is on the entry side has a live band at once. */
  lemma FreshSwingsAreLive(lab: Lab, h: Hour)
    requires NewSwing(lab.armed, h) && h.swing.value.low < h.swing.value.high
    ensures var armed := AfterArming(lab, h).armed;
      && armed.Some? && armed.value.band.Some?
      && BandOf(h.swing.value, armed.value.direction, armed.value.band.value.edge, armed.value.band.value.invalidation)
      && (Live(lab, h, armed.value, armed.value.band.value) <==> OnEntrySide(h.close, armed.value.direction, armed.value.band.value.edge))
  {
    ArmingArms(h);
    hide Arming, BandOf;
  }

  // ---------------------------------------------------------------- what the rows of an event are

  /** Behind the invalidation by a twentieth of a percent of the edge, on the losing side. */
  predicate ControlStop(d: Direction, band: Band, stop: real)
  {
    if d == Long then stop == band.invalidation - 0.0005 * band.edge else stop == band.invalidation + 0.0005 * band.edge
  }

  /** The first bar within an hour after a confirmed entry at which price is back at the edge. */
  predicate Refills(m: seq<Minute>, ge: nat, edge: real, d: Direction, gf: nat)
  {
    && ge < gf < |m| && gf <= ge + 60
    && BackAtEdge(m[gf], edge, d) && forall k | ge < k < gf :: !BackAtEdge(m[k], edge, d)
  }

  predicate BackAtEdge(b: Minute, edge: real, d: Direction)
  {
    if d == Long then b.low <= edge else edge <= b.high
  }

  /** An entry of the cut tape, told in positions of the whole one. */
  function InTheTape(g: nat, e: Confirmation.Entry): Confirmation.Entry
    requires PRE_TOUCH_BARS <= g
  {
    Confirmation.Entry(g - PRE_TOUCH_BARS + e.index, e.price, e.stop, g - PRE_TOUCH_BARS + e.absorption)
  }

  /** Bar, entry price and stop of the trade an arm stands for; it may be that there is none. */
  predicate Trades(m: seq<Minute>, g: nat, d: Direction, band: Band, entry: Option<Confirmation.Entry>, arm: Arm, idx: nat, price: real, stop: real)
    requires PRE_TOUCH_BARS <= g
  {
    match arm
    case ControlAll => idx == g && price == band.edge && ControlStop(d, band, stop)
    case Treatment => entry.Some? && idx == InTheTape(g, entry.value).index && price == entry.value.price && stop == entry.value.stop
    case TreatmentWide => entry.Some? && idx == InTheTape(g, entry.value).index && price == entry.value.price && ControlStop(d, band, stop)
    case TreatmentRetest => entry.Some? && Refills(m, InTheTape(g, entry.value).index, band.edge, d, idx) && price == band.edge && ControlStop(d, band, stop)
    case ControlConfirmed => entry.Some? && idx == g && price == band.edge && ControlStop(d, band, stop)
  }

  /** The arm of a row is a bracket at the arm's own bar, price and stop, which can be traded. */
  ghost predicate IsArmsBracket(study: Study, m: seq<Minute>, g: nat, d: Direction, band: Band, entry: Option<Confirmation.Entry>, rMult: real, arm: Arm, outcome: Resolved)
    requires PRE_TOUCH_BARS <= g
  {
    exists idx: nat, price, stop :: Trades(m, g, d, band, entry, arm, idx, price, stop) && Resolve(study, arm, m, idx, price, stop, rMult, d) == Some(outcome)
  }

  lemma {:induction false} RefillIsTheFirst(m: seq<Minute>, ge: nat, i: nat, end: nat, edge: real, d: Direction, gf: nat)
    requires ge < i <= end <= |m| && forall k | ge < k < i :: !BackAtEdge(m[k], edge, d)
    ensures FirstRefill(m, i, end, edge, d) == Some(gf) <==>
            ge < gf < end && BackAtEdge(m[gf], edge, d) && forall k | ge < k < gf :: !BackAtEdge(m[k], edge, d)
    decreases end - i
  {
    if i < end && !BackAtEdge(m[i], edge, d) { RefillIsTheFirst(m, ge, i + 1, end, edge, d, gf); }
  }

  lemma RetestsTrade(study: Study, m: seq<Minute>, ge: nat, edge: real, stop: real, rMult: real, d: Direction, o: Resolved)
    ensures Retest(study, m, ge, edge, stop, rMult, d) == Some(o) <==>
            exists gf: nat :: Refills(m, ge, edge, d, gf) && Resolve(study, TreatmentRetest, m, gf, edge, stop, rMult, d) == Some(o)
  {
    hide Resolve, BackAtEdge;
    var end := if |m| < ge + 1 + RETEST_WINDOW_BARS then |m| else ge + 1 + RETEST_WINDOW_BARS;
    if end > ge + 1 {
      forall gf: nat ensures FirstRefill(m, ge + 1, end, edge, d) == Some(gf) <==> Refills(m, ge, edge, d, gf) {
        RefillIsTheFirst(m, ge, ge + 1, end, edge, d, gf);
      }
      hide FirstRefill, Refills;
      var r := FirstRefill(m, ge + 1, end, edge, d);
      if r.Some? { assert Refills(m, ge, edge, d, r.value); }
    }
  }

  lemma ConfirmedControlTrades(study: Study, m: seq<Minute>, g: nat, edge: real, stop: real, rMult: real, d: Direction)
    ensures var ctl := Resolve(study, ControlAll, m, g, edge, stop, rMult, d);
      Resolve(study, ControlConfirmed, m, g, edge, stop, rMult, d) == ctl
      && (ctl.Some? ==> Reuse(study, ctl.value, m, edge, stop, rMult, d) == ctl.value)
  {
    if Tradable(m, g, edge, stop) { ReuseChangesNothing(study, m, g, edge, stop, rMult, d); }
    hide ResolveBracket, Reuse, Reprice;
  }

  lemma StopsAreBehind(d: Direction, band: Band, stop: real)
    ensures ControlStop(d, band, stop) <==> stop == StopBehind(d, band)
  {
  }

  /** An arm comes out as a row exactly when its own bracket can be traded, and as that bracket. */
  lemma OutcomesAreTheArmsBrackets(study: Study, m: seq<Minute>, g: nat, d: Direction, band: Band, entry: Option<Confirmation.Entry>, rMult: real, arm: Arm, o: Resolved)
    requires PRE_TOUCH_BARS <= g < |m|
    ensures Outcome(study, m, g, d, band, entry, rMult, arm) == Some(o) <==> IsArmsBracket(study, m, g, d, band, entry, rMult, arm, o)
  {
    hide Resolve, Refills, Retest, StopBehind, ControlStop;
    var behind := StopBehind(d, band);
    forall stop ensures ControlStop(d, band, stop) <==> stop == behind { StopsAreBehind(d, band, stop); }
    ConfirmedControlTrades(study, m, g, band.edge, behind, rMult, d);
    if arm == ControlAll {
      if Resolve(study, arm, m, g, band.edge, behind, rMult, d) == Some(o) { assert Trades(m, g, d, band, entry, arm, g, band.edge, behind); }
    } else if entry.Some? {
      var e, ge := entry.value, EntryIndex(g, entry.value);
      RetestsTrade(study, m, ge, band.edge, behind, rMult, d, o);
      match arm {
        case Treatment => assert Trades(m, g, d, band, entry, arm, ge, e.price, e.stop);
        case TreatmentWide => assert Trades(m, g, d, band, entry, arm, ge, e.price, behind);
        case ControlConfirmed => assert Trades(m, g, d, band, entry, arm, g, band.edge, behind);
        case TreatmentRetest =>
          if gf: nat :| Refills(m, ge, band.edge, d, gf) && Resolve(study, TreatmentRetest, m, gf, band.edge, behind, rMult, d) == Some(o) {
            assert Trades(m, g, d, band, entry, arm, gf, band.edge, behind);
          }
      }
    }
  }

  lemma {:induction false} RowsAreOutcomes(study: Study, m: seq<Minute>, g: nat, d: Direction, band: Band, entry: Option<Confirmation.Entry>, rMult: real, arms: seq<Arm>, row: Row)
    requires PRE_TOUCH_BARS <= g < |m|
    ensures row in RowsOf(study, m, g, d, band, entry, rMult, arms) <==>
            row.rMult == rMult && row.arm in arms && Outcome(study, m, g, d, band, entry, rMult, row.arm) == Some(row.outcome)
  {
    hide Outcome;
    if arms != [] {
      var n := |arms| - 1;
      RowsAreOutcomes(study, m, g, d, band, entry, rMult, arms[..n], row);
      assert arms == arms[..n] + [arms[n]];
    }
  }

  lemma EveryArmIsListed(arm: Arm)
    ensures arm in ARMS
  {
    match arm
    case ControlAll => assert ARMS[0] == arm;
    case Treatment => assert ARMS[1] == arm;
    case TreatmentWide => assert ARMS[2] == arm;
    case TreatmentRetest => assert ARMS[3] == arm;
    case ControlConfirmed => assert ARMS[4] == arm;
  }

  /**
   The rows of an event are exactly the brackets its arms stand for at 1.5 and 2 R: the touch
   at the edge, the confirmed entry behind its own stop and behind the band's, and the retest.
   */
  lemma RowsAreExactlyTheArmsBrackets(study: Study, m: seq<Minute>, g: nat, d: Direction, band: Band, row: Row)
    requires PRE_TOUCH_BARS <= g < |m|
    ensures EventAt(study, m, g, d, band).confirmed <==> ConfirmAt(m, g, d, band.invalidation).Some?
    ensures row in EventAt(study, m, g, d, band).rows <==>
      && (row.rMult == 1.5 || row.rMult == 2.0)
      && IsArmsBracket(study, m, g, d, band, ConfirmAt(m, g, d, band.invalidation), row.rMult, row.arm, row.outcome)
  {
    var entry := ConfirmAt(m, g, d, band.invalidation);
    RowsAreOutcomes(study, m, g, d, band, entry, 1.5, ARMS, row);
    RowsAreOutcomes(study, m, g, d, band, entry, 2.0, ARMS, row);
    EveryArmIsListed(row.arm);
    OutcomesAreTheArmsBrackets(study, m, g, d, band, entry, row.rMult, row.arm, row.outcome);
    hide ConfirmAt, RowsOf, Outcome, IsArmsBracket;
  }

  /** Entries pay the maker rate, except a confirmed one at the market; the first study charges both legs the taker rate. */
  function EntryRate(study: Study, arm: Arm): real
  {
    if study.V1? || arm == Treatment || arm == TreatmentWide then 0.0005 else 0.0002
  }

  function ExitRate(study: Study, reason: Reason): real
  {
    if study.V2? && reason == Target then 0.0002 else 0.0005
  }

  /** What an arm's bracket nets is its gross less its study's fees on the two prices. */
  lemma ArmsPayTheirStudysFees(study: Study, arm: Arm, m: seq<Minute>, idx: nat, entry: real, stop: real, rMult: real, d: Direction)
    requires Tradable(m, idx, entry, stop)
    ensures Resolve(study, arm, m, idx, entry, stop, rMult, d).Some?
    ensures var row := Resolve(study, arm, m, idx, entry, stop, rMult, d).value;
      && row.exitIndex < |m|
      && AddsUp(row, m, entry, stop, rMult, d,
                EntryRate(study, arm) * entry + ExitRate(study, row.reason) * ExitPrice(row, m, entry, stop, rMult, d))
  {
    hide ResolveBracket, AddsUp, Risk, Reprice;
    NetAndFeesAddUpToTheGross(m, idx, entry, stop, rMult, d, study.rule, EntryFee(arm));
    var row := ResolveBracket(m, idx, entry, stop, rMult, d, study.rule).value;
    assert 0.0005 * (entry + ExitPrice(row, m, entry, stop, rMult, d)) == 0.0005 * entry + 0.0005 * ExitPrice(row, m, entry, stop, rMult, d);
  }

  // ---------------------------------------------------------------- the cut tape is enough

  predicate IsCut(m: seq<Minute>, tape: seq<Minute>, off: nat)
  {
    off + |tape| <= |m| && tape == m[off..off + |tape|]
  }

  lemma SameVolumes(m: seq<Minute>, tape: seq<Minute>, off: nat, from: nat, to: nat)
    requires IsCut(m, tape, off) && from <= to <= |tape|
    ensures Confirmation.Volumes(tape, from, to) == Confirmation.Volumes(m, off + from, off + to)
  {
    assert forall k | 0 <= k < |tape| :: tape[k] == m[off + k];
  }

  lemma SameReadings(m: seq<Minute>, tape: seq<Minute>, off: nat, k: nat, a: nat, d: Direction)
    requires IsCut(m, tape, off) && 60 <= k < |tape| && a <= k
    ensures tape[k] == m[off + k] && tape[a] == m[off + a]
    ensures Confirmation.Refuses(tape, k, d) <==> Confirmation.Refuses(m, off + k, d)
    ensures Confirmation.Follows(tape, k, a, d) <==> Confirmation.Follows(m, off + k, off + a, d)
  {
    SameVolumes(m, tape, off, k - 60, k);
    hide Confirmation.Volumes, Confirmation.Pressure;
  }

  lemma SameFive(m: seq<Minute>, tape: seq<Minute>, off: nat, from: nat)
    requires IsCut(m, tape, off) && from + 5 <= |tape|
    ensures Confirmation.FiveBars(tape, from) == Confirmation.FiveBars(m, off + from)
  {
    SameVolumes(m, tape, off, from, from + 5);
    hide Confirmation.Volumes;
  }

  lemma SameFives(m: seq<Minute>, tape: seq<Minute>, off: nat, from: nat, count: nat)
    requires IsCut(m, tape, off) && from + count + 4 <= |tape|
    ensures Confirmation.Fives(tape, from, count) == Confirmation.Fives(m, off + from, count)
  {
    hide Confirmation.FiveBars;
    var ours, theirs := Confirmation.Fives(tape, from, count), Confirmation.Fives(m, off + from, count);
    forall k | 0 <= k < count ensures ours[k] == theirs[k] { SameFive(m, tape, off, from + k); }
  }

  lemma SameBusyness(m: seq<Minute>, tape: seq<Minute>, off: nat, i: nat)
    requires IsCut(m, tape, off) && 60 <= i < |tape|
    ensures Confirmation.Busy(tape, i) <==> Confirmation.Busy(m, off + i)
  {
    hide Confirmation.Fives, Confirmation.FiveBars, Confirmation.ReachesTheMedian;
    SameFives(m, tape, off, i + 1 - 60, 55);
    SameFive(m, tape, off, i - 4);
  }

  lemma SameStretch(m: seq<Minute>, tape: seq<Minute>, off: nat, t: nat, i: nat, d: Direction, invalidation: Option<real>, x: real)
    requires IsCut(m, tape, off) && t <= i < |tape|
    ensures Confirmation.Holds(tape, t, i, d, invalidation) <==> Confirmation.Holds(m, off + t, off + i, d, invalidation)
    ensures Confirmation.IsWorst(tape, t, i, d, x) <==> Confirmation.IsWorst(m, off + t, off + i, d, x)
  {
    assert forall k | 0 <= k < |tape| :: tape[k] == m[off + k];
    assert forall k | off <= k < off + |tape| :: m[k] == tape[k - off];
  }

  lemma SameFollowThrough(m: seq<Minute>, tape: seq<Minute>, off: nat, t: nat, a: nat, i: nat, d: Direction, invalidation: Option<real>)
    requires IsCut(m, tape, off) && 60 <= t <= a < i < |tape|
    ensures Confirmation.FollowsThrough(tape, t, a, i, d, invalidation) <==> Confirmation.FollowsThrough(m, off + t, off + a, off + i, d, invalidation)
  {
    hide Confirmation.Refuses, Confirmation.Follows, Confirmation.Busy, Confirmation.Holds;
    var oa := off + a;
    forall k | t <= k <= i ensures Confirmation.Refuses(tape, k, d) <==> Confirmation.Refuses(m, off + k, d) { SameReadings(m, tape, off, k, k, d); }
    forall k | a <= k <= i ensures Confirmation.Follows(tape, k, a, d) <==> Confirmation.Follows(m, off + k, oa, d) { SameReadings(m, tape, off, k, a, d); }
    SameBusyness(m, tape, off, i);
    SameStretch(m, tape, off, t, i, d, invalidation, 0.0);
    forall k | off + t <= k <= off + i ensures Confirmation.Refuses(m, k, d) <==> Confirmation.Refuses(tape, k - off, d) {
      assert Confirmation.Refuses(tape, k - off, d) <==> Confirmation.Refuses(m, off + (k - off), d);
    }
    forall k | oa <= k <= off + i ensures Confirmation.Follows(m, k, oa, d) <==> Confirmation.Follows(tape, k - off, a, d) {
      assert Confirmation.Follows(tape, k - off, a, d) <==> Confirmation.Follows(m, off + (k - off), oa, d);
    }
  }

  lemma SameEntry(m: seq<Minute>, tape: seq<Minute>, g: nat, d: Direction, invalidation: Option<real>, e: Confirmation.Entry)
    requires PRE_TOUCH_BARS <= g && IsCut(m, tape, g - PRE_TOUCH_BARS) && PRE_TOUCH_BARS < |tape|
    ensures e.index < |tape| ==>
      (Confirmation.IsEntry(tape, PRE_TOUCH_BARS, d, invalidation, e) <==> Confirmation.IsEntry(m, g, d, invalidation, InTheTape(g, e)))
  {
    var off := g - PRE_TOUCH_BARS;
    hide Confirmation.FollowsThrough, Confirmation.IsWorst;
    if PRE_TOUCH_BARS <= e.absorption < e.index < |tape| {
      assert tape[e.index] == m[off + e.index];
      SameFollowThrough(m, tape, off, PRE_TOUCH_BARS, e.absorption, e.index, d, invalidation);
      SameStretch(m, tape, off, PRE_TOUCH_BARS, e.index, d, invalidation, if d == Long then e.stop + 0.0005 * e.price else e.stop - 0.0005 * e.price);
    }
    hide IsCut;
  }

  /**
   The study confirms a touch on a cut of the tape, from eighty bars before it to thirty-five
   after. That is enough: the cut confirms exactly what the whole tape does.
   */
  lemma TheCutTapeIsEnough(m: seq<Minute>, g: nat, d: Direction, invalidation: real, e: Confirmation.Entry)
    requires PRE_TOUCH_BARS <= g < |m|
    ensures ConfirmAt(m, g, d, invalidation) == Some(e) <==> Confirmation.Confirmed(m, g, d, Some(invalidation)) == Some(InTheTape(g, e))
  {
    hide Confirmation.Confirmed, Confirmation.FollowsThrough, Confirmation.IsWorst;
    var ahead := g + Confirmation.CONFIRM_WINDOW_BARS + 5;
    var tape := m[g - PRE_TOUCH_BARS..if |m| < ahead then |m| else ahead];
    assert IsCut(m, tape, g - PRE_TOUCH_BARS);
    Confirmation.ConfirmsExactlyTheEntry(tape, PRE_TOUCH_BARS, d, Some(invalidation), e);
    Confirmation.ConfirmsExactlyTheEntry(m, g, d, Some(invalidation), InTheTape(g, e));
    SameEntry(m, tape, g, d, Some(invalidation), e);
    InTimeMeansInTheCut(m, g, d, Some(invalidation), InTheTape(g, e));
    hide IsCut;
  }

  lemma InTimeMeansInTheCut(m: seq<Minute>, g: nat, d: Direction, invalidation: Option<real>, e: Confirmation.Entry)
    ensures Confirmation.IsEntry(m, g, d, invalidation, e) ==> e.index < |m| && e.index <= g + 30
  {
    hide Confirmation.Refuses, Confirmation.Follows, Confirmation.Busy, Confirmation.Holds, Confirmation.IsWorst;
  }

  // ---------------------------------------------------------------- when the lab is free again

  /** Some row exits last, and no row later. */
  predicate ExitsLast(rows: seq<Row>, i: nat)
  {
    i < |rows| && forall j | 0 <= j < |rows| :: rows[j].outcome.exitIndex <= rows[i].outcome.exitIndex
  }

  lemma {:induction false} LastExitIsARow(rows: seq<Row>) returns (i: nat)
    requires rows != []
    ensures ExitsLast(rows, i) && LastExit(rows) == rows[i].outcome.exitIndex
  {
    i := |rows| - 1;
    if |rows| > 1 {
      var k := LastExitIsARow(rows[..i]);
      assert rows[..i][k] == rows[k];
      assert forall j | 0 <= j < i :: rows[..i][j] == rows[j];
      if rows[i].outcome.exitIndex <= rows[k].outcome.exitIndex { i := k; }
    }
  }

  /** The last event with rows, and the bar after its last exit. */
  predicate LastTrader(events: seq<Event>, k: nat, free: nat)
  {
    && k < |events| && FreeAfter(events[k].rows, free)
    && forall l | k < l < |events| :: events[l].rows == []
  }

  predicate FreeAfter(rows: seq<Row>, free: nat)
  {
    exists i | 0 <= i < |rows| :: ExitsLast(rows, i) && free == rows[i].outcome.exitIndex + 1
  }

  predicate NoneTraded(events: seq<Event>)
  {
    forall k | 0 <= k < |events| :: events[k].rows == []
  }

  /** Busy for nothing, or up to the last exit of the last event that traded. */
  ghost predicate BusyAsTraded(events: seq<Event>, busyUntil: nat)
  {
    (busyUntil == 0 && NoneTraded(events)) || exists k: nat :: LastTrader(events, k, busyUntil)
  }

  /** Over every run the lab is busy up to the last exit of the last event that traded, and no longer. */
  lemma {:induction false} BusyUntilTheLastExit(study: Study, m: seq<Minute>, hours: seq<Hour>)
    ensures BusyAsTraded(AfterHours(study, m, hours).events, AfterHours(study, m, hours).busyUntil)
  {
    hide AfterHour, AfterHours, LastExit, BusyAsTraded;
    if hours == [] {
      NotBusyYet(study, m);
    } else {
      var n := |hours| - 1;
      var before, lab := AfterHours(study, m, hours[..n]), AfterHours(study, m, hours);
      BusyUntilTheLastExit(study, m, hours[..n]);
      HourKeepsBusy(study, m, before, hours[n]);
      HoursGrow(study, m, hours);
      if lab.events != before.events { OneMoreTrader(lab.events, before.busyUntil); }
    }
  }

  lemma NotBusyYet(study: Study, m: seq<Minute>)
    ensures BusyAsTraded(AfterHours(study, m, []).events, AfterHours(study, m, []).busyUntil)
  {
    NoHours(study, m);
    hide AfterHours;
  }

  lemma OneMoreTrader(events: seq<Event>, busyUntil: nat)
    requires events != [] && BusyAsTraded(events[..|events| - 1], busyUntil)
    ensures var rows := events[|events| - 1].rows; BusyAsTraded(events, if rows == [] then busyUntil else LastExit(rows) + 1)
  {
    hide LastExit, FreeAfter;
    var n := |events| - 1;
    var before := events[..n];
    if events[n].rows != [] {
      FreeAfterTheLastExit(events[n].rows);
      assert LastTrader(events, n, LastExit(events[n].rows) + 1);
    } else if k: nat :| LastTrader(before, k, busyUntil) {
      assert LastTrader(events, k, busyUntil);
    }
  }

  lemma FreeAfterTheLastExit(rows: seq<Row>)
    requires rows != []
    ensures FreeAfter(rows, LastExit(rows) + 1)
  {
    var i := LastExitIsARow(rows);
    hide LastExit;
  }

  lemma HourKeepsBusy(study: Study, m: seq<Minute>, lab: Lab, h: Hour)
    ensures var next := AfterHour(study, m, lab, h);
      if next.events == lab.events then next.busyUntil == lab.busyUntil
      else && |next.events| == |lab.events| + 1 && next.events[..|lab.events|] == lab.events
           && var rows := next.events[|lab.events|].rows;
              next.busyUntil == if rows == [] then lab.busyUntil else LastExit(rows) + 1
  {
    hide EventAt, BarsBefore, ScanHour, Arming, NewSwing, LastExit;
  }
}
