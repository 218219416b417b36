/** Fractal swing detection, and why a reported swing never repaints. */
module Swings {
  import opened Bars

  datatype SwingPoint = SwingPoint(index: nat, price: real, ts: int, isHigh: bool)

  /** The bar's high is strictly above every other high within `lookback` bars. */
  predicate IsHighAt(c: seq<Candle>, i: int, lookback: nat)
  {
    && lookback <= i < |c| - lookback
    && forall j | i - lookback <= j <= i + lookback && j != i :: c[j].high < c[i].high
  }

  predicate IsLowAt(c: seq<Candle>, i: int, lookback: nat)
  {
    && lookback <= i < |c| - lookback
    && forall j | i - lookback <= j <= i + lookback && j != i :: c[j].low > c[i].low
  }

  /** A bar that is both is reported as a high. */
  predicate IsSwing(c: seq<Candle>, lookback: nat, s: SwingPoint)
  {
    && s.index < |c| && s.ts == c[s.index].closeTime
    && if s.isHigh then IsHighAt(c, s.index, lookback) && s.price == c[s.index].high
       else !IsHighAt(c, s.index, lookback) && IsLowAt(c, s.index, lookback) && s.price == c[s.index].low
  }

  /** What the scan reports for one pivot: nothing or one swing. */
  function At(c: seq<Candle>, i: nat, lookback: nat): seq<SwingPoint>
    requires i < |c|
  {
    if IsHighAt(c, i, lookback) then [SwingPoint(i, c[i].high, c[i].closeTime, true)]
    else if IsLowAt(c, i, lookback) then [SwingPoint(i, c[i].low, c[i].closeTime, false)]
    else []
  }

  /** The scan over the pivots below `n`. */
  function UpTo(c: seq<Candle>, lookback: nat, n: nat): seq<SwingPoint>
    requires n <= |c|
  {
    if n <= lookback then [] else UpTo(c, lookback, n - 1) + At(c, n - 1, lookback)
  }

  function SwingsOf(c: seq<Candle>, lookback: nat): seq<SwingPoint>
  {
    if lookback == 0 || |c| < lookback * 2 + 1 then [] else UpTo(c, lookback, |c| - lookback)
  }

  method SwingPoints(c: seq<Candle>, lookback: nat) returns (out: seq<SwingPoint>)
    ensures out == SwingsOf(c, lookback)
  {
    hide IsHighAt, IsLowAt;
    if lookback == 0 || |c| < lookback * 2 + 1 {
      return [];
    }
    out := [];
    for i := lookback to |c| - lookback
      invariant out == UpTo(c, lookback, i)
    {
      hide UpTo;
      var pivot := c[i];
      OneMorePivot(c, lookback, i);
      if IsHighAt(c, i, lookback) {
        out := out + [SwingPoint(i, pivot.high, pivot.closeTime, true)];
      } else if IsLowAt(c, i, lookback) {
        out := out + [SwingPoint(i, pivot.low, pivot.closeTime, false)];
      }
    }
  }

  // ---------------------------------------------------------------- exactly the strict extrema

  /** Indices rise along the list and stay below `n`. */
  predicate RisesTo(ss: seq<SwingPoint>, n: nat)
  {
    && (forall i, j | 0 <= i < j < |ss| :: ss[i].index < ss[j].index)
    && forall i | 0 <= i < |ss| :: ss[i].index < n
  }

  predicate OnlyAt(ss: seq<SwingPoint>, n: nat)
  {
    |ss| == 0 || (|ss| == 1 && ss[0].index == n)
  }

  lemma RisesOneMore(ss: seq<SwingPoint>, last: seq<SwingPoint>, n: nat)
    requires RisesTo(ss, n) && OnlyAt(last, n)
    ensures RisesTo(ss + last, n + 1)
  {
    var all := ss + last;
    forall i | 0 <= i < |all| ensures all[i].index < n + 1 && (i >= |ss| ==> all[i].index == n) {
      if i >= |ss| { assert all[i] == last[0]; }
    }
  }

  lemma AtIsExact(c: seq<Candle>, lookback: nat, i: nat)
    requires lookback <= i < |c| - lookback
    ensures forall s :: s in At(c, i, lookback) <==> s.index == i && IsSwing(c, lookback, s)
  {
    hide IsHighAt, IsLowAt;
  }

  lemma AtHasItsIndex(c: seq<Candle>, lookback: nat, i: nat)
    requires i < |c|
    ensures OnlyAt(At(c, i, lookback), i)
  {
    hide IsHighAt, IsLowAt;
  }

  lemma OneMorePivot(c: seq<Candle>, lookback: nat, n: nat)
    requires lookback <= n < |c|
    ensures UpTo(c, lookback, n + 1) == UpTo(c, lookback, n) + At(c, n, lookback)
  {
    hide At;
  }

  lemma {:induction false} ScanRises(c: seq<Candle>, lookback: nat, n: nat)
    requires n <= |c| - lookback
    ensures RisesTo(UpTo(c, lookback, n), n)
  {
    hide At, OnlyAt;
    if n > lookback {
      hide UpTo, RisesTo;
      ScanRises(c, lookback, n - 1);
      OneMorePivot(c, lookback, n - 1);
      AtHasItsIndex(c, lookback, n - 1);
      RisesOneMore(UpTo(c, lookback, n - 1), At(c, n - 1, lookback), n - 1);
    }
  }

  lemma {:induction false} ScanHolds(c: seq<Candle>, lookback: nat, n: nat, s: SwingPoint)
    requires n <= |c| - lookback
    ensures s in UpTo(c, lookback, n) <==> s.index < n && IsSwing(c, lookback, s)
  {
    if n > lookback {
      AtIsExact(c, lookback, n - 1);
      hide At, IsSwing;
      ScanHolds(c, lookback, n - 1, s);
    } else {
      hide IsHighAt, IsLowAt;
    }
  }

  lemma ScanIsExact(c: seq<Candle>, lookback: nat, n: nat)
    requires n <= |c| - lookback
    ensures forall s :: s in UpTo(c, lookback, n) <==> s.index < n && IsSwing(c, lookback, s)
    ensures forall i, j | 0 <= i < j < |UpTo(c, lookback, n)| ::
      UpTo(c, lookback, n)[i].index < UpTo(c, lookback, n)[j].index
  {
    ScanRises(c, lookback, n);
    hide UpTo, IsSwing;
    forall s ensures s in UpTo(c, lookback, n) <==> s.index < n && IsSwing(c, lookback, s) { ScanHolds(c, lookback, n, s); }
  }

  lemma ASwingIsWellInside(c: seq<Candle>, lookback: nat, s: SwingPoint)
    ensures IsSwing(c, lookback, s) ==> lookback <= s.index < |c| - lookback
  {
  }

  /** The report lists exactly the strict window extrema, in index order. */
  lemma ReportIsExactlyTheExtrema(c: seq<Candle>, lookback: nat)
    requires 0 < lookback
    ensures forall s :: s in SwingsOf(c, lookback) <==> IsSwing(c, lookback, s)
    ensures forall i, j | 0 <= i < j < |SwingsOf(c, lookback)| ::
      SwingsOf(c, lookback)[i].index < SwingsOf(c, lookback)[j].index
  {
    hide UpTo, IsSwing;
    forall s ensures IsSwing(c, lookback, s) ==> lookback <= s.index < |c| - lookback { ASwingIsWellInside(c, lookback, s); }
    if |c| >= lookback * 2 + 1 {
      ScanIsExact(c, lookback, |c| - lookback);
    }
  }

  /** Two swings of one kind are more than `lookback` bars apart. */
  lemma SameKindSwingsAreApart(c: seq<Candle>, lookback: nat, s: SwingPoint, t: SwingPoint)
    requires 0 < lookback && s in SwingsOf(c, lookback) && t in SwingsOf(c, lookback)
    requires s.isHigh == t.isHigh && s.index < t.index
    ensures t.index - s.index > lookback
  {
    ReportIsExactlyTheExtrema(c, lookback);
  }

  // ---------------------------------------------------------------- no repainting

  lemma {:induction false} ScanIgnoresTheFuture(c: seq<Candle>, more: seq<Candle>, lookback: nat, n: nat)
    requires n <= |c| - lookback
    ensures UpTo(c + more, lookback, n) == UpTo(c, lookback, n)
  {
    if n > lookback {
      ScanIgnoresTheFuture(c, more, lookback, n - 1);
      assert forall j | 0 <= j < n + lookback :: (c + more)[j] == c[j];
      assert IsHighAt(c + more, n - 1, lookback) <==> IsHighAt(c, n - 1, lookback);
      assert IsLowAt(c + more, n - 1, lookback) <==> IsLowAt(c, n - 1, lookback);
    }
  }

  lemma {:induction false} ScanGrows(c: seq<Candle>, lookback: nat, m: nat, n: nat)
    requires m <= n <= |c|
    ensures UpTo(c, lookback, m) <= UpTo(c, lookback, n)
  {
    if m < n { ScanGrows(c, lookback, m, n - 1); }
  }

  /** Appending bars, however many, keeps every reported swing as it was. */
  lemma SwingsNeverRepaint(c: seq<Candle>, more: seq<Candle>, lookback: nat)
    ensures SwingsOf(c, lookback) <= SwingsOf(c + more, lookback)
  {
    hide UpTo;
    if lookback > 0 && |c| >= lookback * 2 + 1 {
      var all := c + more;
      ScanIgnoresTheFuture(c, more, lookback, |c| - lookback);
      ScanGrows(all, lookback, |c| - lookback, |all| - lookback);
      assert SwingsOf(all, lookback) == UpTo(all, lookback, |all| - lookback);
    }
  }

  /** The oldest bar is gone: indices shift by one and the pivot at `lookback` loses its left side. */
  function Shifted(ss: seq<SwingPoint>, lookback: nat): seq<SwingPoint>
  {
    if ss == [] then []
    else
      var s := ss[|ss| - 1];
      Shifted(ss[..|ss| - 1], lookback) +
      (if s.index == lookback || s.index == 0 then [] else [s.(index := s.index - 1)])
  }

  lemma ShiftedSplits(a: seq<SwingPoint>, b: seq<SwingPoint>, lookback: nat)
    requires |b| <= 1
    ensures Shifted(a + b, lookback) == Shifted(a, lookback) + Shifted(b, lookback)
  {
    if b == [] {
      assert a + b == a;
    } else {
      assert (a + b)[..|a|] == a && b[..0] == [];
    }
  }

  lemma {:induction false} ScanAfterEviction(c: seq<Candle>, lookback: nat, n: nat)
    requires 0 < lookback && lookback < |c| && n + 1 <= |c| - lookback
    ensures UpTo(c[1..], lookback, n) == Shifted(UpTo(c, lookback, n + 1), lookback)
  {
    hide At, Shifted;
    if n < lookback {
      NothingToShift(lookback);
    } else if n == lookback {
      NothingToShift(lookback);
      PivotLosesItsLeftSide(c, lookback);
      assert UpTo(c, lookback, lookback) == [] && UpTo(c[1..], lookback, n) == [];
      assert UpTo(c, lookback, lookback + 1) == At(c, lookback, lookback);
    } else {
      ScanAfterEviction(c, lookback, n - 1);
      PivotAfterEviction(c, lookback, n);
      OneAtMost(c, n, lookback);
      ShiftedSplits(UpTo(c, lookback, n), At(c, n, lookback), lookback);
    }
  }

  lemma NothingToShift(lookback: nat)
    ensures Shifted([], lookback) == []
  {
  }

  lemma OneAtMost(c: seq<Candle>, n: nat, lookback: nat)
    requires n < |c|
    ensures |At(c, n, lookback)| <= 1
  {
  }

  lemma PivotLosesItsLeftSide(c: seq<Candle>, lookback: nat)
    requires lookback < |c| - lookback
    ensures Shifted(At(c, lookback, lookback), lookback) == []
  {
  }

  lemma PivotAfterEviction(c: seq<Candle>, lookback: nat, n: nat)
    requires 0 < lookback < n < |c| - lookback
    ensures At(c[1..], n - 1, lookback) == Shifted(At(c, n, lookback), lookback)
  {
  }

  /** Dropping the oldest bar removes at most the swing at index `lookback`; the rest only shift. */
  lemma EvictionOnlyShiftsSwings(c: seq<Candle>, lookback: nat)
    requires c != []
    ensures SwingsOf(c[1..], lookback) == Shifted(SwingsOf(c, lookback), lookback)
  {
    hide UpTo, Shifted;
    if lookback == 0 || |c| < lookback * 2 + 1 {
      NothingToShift(lookback);
    } else {
      ScanAfterEviction(c, lookback, |c| - 1 - lookback);
      if |c| == lookback * 2 + 1 { NothingBelowThePivots(c[1..], lookback); }
    }
  }

  lemma NothingBelowThePivots(c: seq<Candle>, lookback: nat)
    requires lookback <= |c|
    ensures UpTo(c, lookback, lookback) == []
  {
  }

  /** One bar in, one bar out, as the full ring does: still no repaint. */
  lemma SlidingWindowNeverRepaints(c: seq<Candle>, next: Candle, lookback: nat)
    requires c != []
    ensures Shifted(SwingsOf(c, lookback), lookback) <= SwingsOf(c[1..] + [next], lookback)
  {
    EvictionOnlyShiftsSwings(c, lookback);
    SwingsNeverRepaint(c[1..], [next], lookback);
  }
}
