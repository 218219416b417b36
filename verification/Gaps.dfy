/** Fair value gaps: maintained one bar at a time, and nested rather than overlapping. */
module Gaps {
  import opened Wrappers
  import opened Bars

  datatype Gap = Gap(low: real, high: real, bullish: bool, index: nat)

  /** The gap around bar `i`, if its neighbours do not meet. */
  function GapAt(c: seq<Candle>, i: nat): Option<Gap>
    requires 0 < i < |c| - 1
  {
    if c[i - 1].high < c[i + 1].low then Some(Gap(c[i - 1].high, c[i + 1].low, true, i))
    else if c[i - 1].low > c[i + 1].high then Some(Gap(c[i + 1].high, c[i - 1].low, false, i))
    else None
  }

  /** The bar trades into the gap; touching an edge counts. */
  predicate Touches(c: Candle, g: Gap)
  {
    c.low <= g.high && c.high >= g.low
  }

  predicate Unfilled(c: seq<Candle>, g: Gap)
  {
    forall k | g.index + 2 <= k < |c| :: !Touches(c[k], g)
  }

  /** What the scan reports for one index: nothing or one gap. */
  function At(c: seq<Candle>, i: nat): seq<Gap>
    requires 0 < i < |c| - 1
  {
    var g := GapAt(c, i);
    if g.Some? && Unfilled(c, g.value) then [g.value] else []
  }

  /** Indices up to and including this one are too old to report. */
  function Oldest(bars: nat, maxAge: nat): nat
  {
    if bars <= maxAge then 0 else bars - maxAge
  }

  function UpTo(c: seq<Candle>, start: nat, n: nat): seq<Gap>
    requires n < |c|
  {
    if n <= start + 1 then [] else UpTo(c, start, n - 1) + At(c, n - 1)
  }

  function GapsOf(c: seq<Candle>, maxAge: nat): seq<Gap>
  {
    if |c| < 3 then [] else UpTo(c, Oldest(|c|, maxAge), |c| - 1)
  }

  /** The gap around bar `i`, if its neighbours leave one. */
  method GapHere(c: seq<Candle>, i: nat) returns (gap: Option<Gap>)
    requires 0 < i < |c| - 1
    ensures gap == GapAt(c, i)
  {
    var prev, next := c[i - 1], c[i + 1];
    gap := None;
    if prev.high < next.low {
      gap := Some(Gap(prev.high, next.low, true, i));
    } else if prev.low > next.high {
      gap := Some(Gap(next.high, prev.low, false, i));
    }
  }

  lemma OneMoreIndex(c: seq<Candle>, start: nat, n: nat)
    requires 0 < n < |c|
    ensures UpTo(c, start, n) == if n <= start + 1 then [] else UpTo(c, start, n - 1) + At(c, n - 1)
  {
  }

  method FairValueGaps(c: seq<Candle>, maxAge: nat) returns (out: seq<Gap>)
    ensures out == GapsOf(c, maxAge)
  {
    hide GapAt, UpTo, Touches;
    if |c| < 3 {
      return [];
    }
    var start := if |c| <= maxAge then 0 else |c| - maxAge;
    out := [];
    if start + 1 < |c| { OneMoreIndex(c, start, start + 1); }
    if start + 1 >= |c| { OneMoreIndex(c, start, |c| - 1); }
    var i := start + 1;
    while i < |c| - 1
      invariant start + 1 <= i
      invariant i < |c| ==> out == UpTo(c, start, i)
      invariant i >= |c| ==> out == [] && start + 1 >= |c|
    {
      OneMoreIndex(c, start, i + 1);
      var gap := GapHere(c, i);
      if gap.Some? {
        var filled := exists k | gap.value.index + 2 <= k < |c| :: Touches(c[k], gap.value);
        if !filled {
          out := out + [gap.value];
        }
      }
      i := i + 1;
    }
  }

  // ---------------------------------------------------------------- exactly the unfilled gaps

  predicate Reported(c: seq<Candle>, start: nat, g: Gap)
  {
    start < g.index < |c| - 1 && GapAt(c, g.index) == Some(g) && Unfilled(c, g)
  }

  lemma AtIsExact(c: seq<Candle>, start: nat, i: nat)
    requires start < i && i + 1 < |c|
    ensures forall g :: g in At(c, i) <==> g.index == i && Reported(c, start, g)
    ensures |At(c, i)| <= 1
  {
  }

  /** Indices rise along the list and stay below `n`. */
  predicate RisesTo(gs: seq<Gap>, n: nat)
  {
    && (forall i, j | 0 <= i < j < |gs| :: gs[i].index < gs[j].index)
    && forall i | 0 <= i < |gs| :: gs[i].index < n
  }

  lemma RisesOneMore(gs: seq<Gap>, last: seq<Gap>, n: nat)
    requires RisesTo(gs, n) && |last| <= 1 && forall g | g in last :: g.index == n
    ensures RisesTo(gs + last, n + 1)
  {
    var all := gs + last;
    forall i | 0 <= i < |all| ensures all[i].index < n + 1 && (i >= |gs| ==> all[i].index == n) {
      if i >= |gs| { assert all[i] in last; }
    }
  }

  lemma {:induction false} ScanRises(c: seq<Candle>, start: nat, n: nat)
    requires n < |c|
    ensures RisesTo(UpTo(c, start, n), n)
  {
    if n > start + 1 {
      ScanRises(c, start, n - 1);
      AtIsExact(c, start, n - 1);
      hide At, Reported;
      RisesOneMore(UpTo(c, start, n - 1), At(c, n - 1), n - 1);
    }
  }

  lemma NothingReportedYet(c: seq<Candle>, start: nat, n: nat, g: Gap)
    requires n < |c| && n <= start + 1
    ensures g !in UpTo(c, start, n) && !(g.index < n && Reported(c, start, g))
  {
  }

  lemma {:induction false} ScanHolds(c: seq<Candle>, start: nat, n: nat, g: Gap)
    requires n < |c|
    ensures g in UpTo(c, start, n) <==> g.index < n && Reported(c, start, g)
  {
    hide At, Reported, GapAt, Unfilled;
    if n > start + 1 {
      ScanHolds(c, start, n - 1, g);
      AtIsExact(c, start, n - 1);
      OneMoreIndex(c, start, n);
      hide UpTo;
    } else {
      NothingReportedYet(c, start, n, g);
    }
  }

  lemma ScanIsExact(c: seq<Candle>, start: nat, n: nat)
    requires n < |c|
    ensures forall g :: g in UpTo(c, start, n) <==> g.index < n && Reported(c, start, g)
    ensures forall i, j | 0 <= i < j < |UpTo(c, start, n)| :: UpTo(c, start, n)[i].index < UpTo(c, start, n)[j].index
  {
    ScanRises(c, start, n);
    hide UpTo, Reported;
    forall g ensures g in UpTo(c, start, n) <==> g.index < n && Reported(c, start, g) { ScanHolds(c, start, n, g); }
  }

  /** The report lists exactly the gaps no later bar has touched, in index order. */
  lemma ReportIsExactlyTheUnfilledGaps(c: seq<Candle>, maxAge: nat)
    ensures forall g :: g in GapsOf(c, maxAge) <==> Reported(c, Oldest(|c|, maxAge), g)
    ensures forall i, j | 0 <= i < j < |GapsOf(c, maxAge)| :: GapsOf(c, maxAge)[i].index < GapsOf(c, maxAge)[j].index
  {
    if |c| >= 3 { ScanIsExact(c, Oldest(|c|, maxAge), |c| - 1); }
  }

  /** The prices strictly between the ranges of the bars before and after bar `g.index`. */
  predicate IsGap(c: seq<Candle>, g: Gap)
  {
    && 0 < g.index < |c| - 1 && g.low < g.high
    && if g.bullish then c[g.index - 1].high == g.low && g.high == c[g.index + 1].low
       else c[g.index + 1].high == g.low && g.high == c[g.index - 1].low
  }

  predicate WellFormed(c: seq<Candle>)
  {
    forall i | 0 <= i < |c| :: c[i].low <= c[i].high
  }

  /** No bar from the second after the middle one on trades at a price of the gap, its edges included. */
  predicate Untouched(c: seq<Candle>, g: Gap)
  {
    forall k | g.index + 2 <= k < |c| :: c[k].high < g.low || g.high < c[k].low
  }

  lemma AGapIsAGap(c: seq<Candle>, i: nat, g: Gap)
    requires WellFormed(c) && 0 < i < |c| - 1
    ensures GapAt(c, i) == Some(g) <==> g.index == i && IsGap(c, g)
  {
    assert c[i - 1].low <= c[i - 1].high && c[i + 1].low <= c[i + 1].high;
  }

  /**
   On well-formed bars the report is exactly the stretches of price between two bars that are
   two apart, bullish when the later bar is above and bearish when it is below, that no bar since
   has touched, of the last `maxAge` bars.
   */
  lemma GapsAreTheUntouchedStretches(c: seq<Candle>, maxAge: nat, g: Gap)
    requires WellFormed(c)
    ensures g in GapsOf(c, maxAge) <==> IsGap(c, g) && Untouched(c, g) && |c| - maxAge < g.index
  {
    ReportIsExactlyTheUnfilledGaps(c, maxAge);
    hide GapsOf;
    if 0 < g.index < |c| - 1 {
      AGapIsAGap(c, g.index, g);
      assert Unfilled(c, g) <==> Untouched(c, g) by { hide GapAt, IsGap; UnfilledIsUntouched(c, g); }
    }
    hide GapAt, Unfilled, Untouched, WellFormed;
  }

  lemma UnfilledIsUntouched(c: seq<Candle>, g: Gap)
    ensures Unfilled(c, g) <==> Untouched(c, g)
  {
    if Unfilled(c, g) {
      forall k | g.index + 2 <= k < |c| ensures c[k].high < g.low || g.high < c[k].low { assert !Touches(c[k], g); }
    }
  }

  // ---------------------------------------------------------------- one bar at a time

  /** The gaps a new bar leaves: not touched by it, and not aged out. */
  function Surviving(gs: seq<Gap>, bar: Candle, start: nat): seq<Gap>
  {
    if gs == [] then []
    else
      var g := gs[|gs| - 1];
      Surviving(gs[..|gs| - 1], bar, start) + (if !Touches(bar, g) && start < g.index then [g] else [])
  }

  /** The one gap a new bar can open, around the bar before it. */
  function Opened(c: seq<Candle>, bar: Candle, start: nat): seq<Gap>
    requires 2 <= |c|
  {
    var g := GapAt(c + [bar], |c| - 1);
    if g.Some? && start < |c| - 1 then [g.value] else []
  }

  lemma SurvivingSplits(a: seq<Gap>, b: seq<Gap>, bar: Candle, start: nat)
    requires |b| <= 1
    ensures Surviving(a + b, bar, start) == Surviving(a, bar, start) + Surviving(b, bar, start)
  {
    if b == [] {
      assert a + b == a;
    } else {
      assert (a + b)[..|a|] == a && b[..0] == [];
    }
  }

  lemma IndexAfterOneMore(c: seq<Candle>, bar: Candle, start: nat, i: nat)
    requires 0 < i < |c| - 1
    ensures (if start < i then At(c + [bar], i) else []) == Surviving(At(c, i), bar, start)
  {
    var d := c + [bar];
    assert GapAt(d, i) == GapAt(c, i);
    var g := GapAt(c, i);
    if g.Some? {
      assert Unfilled(d, g.value) <==> Unfilled(c, g.value) && !Touches(bar, g.value) by {
        assert d[|c|] == bar && forall k | 0 <= k < |c| :: d[k] == c[k];
      }
    }
    var at := At(c, i);
    assert at != [] ==> at[..0] == [];
  }

  lemma AtMostOneGap(c: seq<Candle>, i: nat)
    requires 0 < i < |c| - 1
    ensures |At(c, i)| <= 1
  {
  }

  lemma NothingSurvives(c: seq<Candle>, bar: Candle, start: nat, start': nat, n: nat)
    requires n < |c| && start <= start' && n <= start + 1
    ensures UpTo(c + [bar], start', n) == Surviving(UpTo(c, start, n), bar, start')
  {
  }

  lemma {:induction false} ScanAfterOneMore(c: seq<Candle>, bar: Candle, start: nat, start': nat, n: nat)
    requires n < |c| && start <= start'
    ensures UpTo(c + [bar], start', n) == Surviving(UpTo(c, start, n), bar, start')
  {
    hide UpTo, Surviving, At;
    if n <= start + 1 {
      NothingSurvives(c, bar, start, start', n);
    } else {
      var i := n - 1;
      ScanAfterOneMore(c, bar, start, start', i);
      var before, last := UpTo(c, start, i), At(c, i);
      AtMostOneGap(c, i);
      SurvivingSplits(before, last, bar, start');
      IndexAfterOneMore(c, bar, start', i);
      OneMoreIndex(c, start, n);
      OneMoreIndex(c + [bar], start', n);
      OneMoreIndex(c + [bar], start', i);
      if n <= start' + 1 { assert UpTo(c + [bar], start', i) + [] == []; }
    }
  }

  /**
   Maintenance: after one more bar the report is the old gaps the bar does not touch and
   that have not aged out, followed by the gap the bar opens, if any. The bars before the
   previous one need not be looked at again.
   */
  lemma GapsAreMaintainable(c: seq<Candle>, bar: Candle, maxAge: nat)
    requires 2 <= |c|
    ensures var start := Oldest(|c| + 1, maxAge);
      GapsOf(c + [bar], maxAge) == Surviving(GapsOf(c, maxAge), bar, start) + Opened(c, bar, start)
  {
    hide GapAt, Unfilled, Surviving;
    var start, start' := Oldest(|c|, maxAge), Oldest(|c| + 1, maxAge);
    ScanAfterOneMore(c, bar, start, start', |c| - 1);
    OpenedIsTheLast(c, bar, start');
    assert |c| == 2 ==> UpTo(c, start, 1) == [];
    hide At, Opened;
  }

  lemma OpenedIsTheLast(c: seq<Candle>, bar: Candle, start: nat)
    requires 2 <= |c|
    ensures Opened(c, bar, start) == if start < |c| - 1 then At(c + [bar], |c| - 1) else []
  {
  }

  // ---------------------------------------------------------------- nesting

  predicate MeetInAtMostAPoint(a: Gap, b: Gap)
  {
    a.high <= b.low || b.high <= a.low
  }

  predicate Contains(outer: Gap, inner: Gap)
  {
    outer.low <= inner.low && inner.high <= outer.high
  }

  /** Two reported gaps at least two bars apart meet in at most a point, or the later contains the earlier. */
  lemma GapsNest(c: seq<Candle>, maxAge: nat, g: Gap, h: Gap)
    requires forall i | 0 <= i < |c| :: c[i].low <= c[i].high
    requires g in GapsOf(c, maxAge) && h in GapsOf(c, maxAge) && g.index + 2 <= h.index
    ensures g.low < g.high && h.low < h.high
    ensures MeetInAtMostAPoint(g, h) || Contains(h, g)
  {
    ReportIsExactlyTheUnfilledGaps(c, maxAge);
    var before, after := c[h.index - 1], c[h.index + 1];
    assert !Touches(after, g);
    assert h.index - 1 > g.index + 1 ==> !Touches(before, g);
  }

  const STAIRCASE: seq<Candle> :=
    [Candle(99.0, 100.0, 98.0, 99.0, 1.0, 1), Candle(103.0, 105.0, 102.0, 104.0, 1.0, 2),
     Candle(111.0, 113.0, 110.0, 112.0, 1.0, 3), Candle(115.0, 117.0, 114.0, 116.0, 1.0, 4)]

  /** One bar apart is not enough: neighbours can overlap properly. */
  lemma NeighbouringGapsCanOverlap()
    ensures forall i | 0 <= i < |STAIRCASE| :: STAIRCASE[i].low <= STAIRCASE[i].high
    ensures Gap(100.0, 110.0, true, 1) in GapsOf(STAIRCASE, 200)
    ensures Gap(105.0, 114.0, true, 2) in GapsOf(STAIRCASE, 200)
    ensures !MeetInAtMostAPoint(Gap(100.0, 110.0, true, 1), Gap(105.0, 114.0, true, 2))
    ensures !Contains(Gap(105.0, 114.0, true, 2), Gap(100.0, 110.0, true, 1))
  {
    hide GapsOf;
    ReportIsExactlyTheUnfilledGaps(STAIRCASE, 200);
    assert Reported(STAIRCASE, 0, Gap(100.0, 110.0, true, 1));
    assert Reported(STAIRCASE, 0, Gap(105.0, 114.0, true, 2));
  }
}
