/** Median and median absolute deviation: the 50% breakdown point, and that it is sharp. */
module OrderStatistics {
  import opened Wrappers
  import opened Sums
  import opened Sorting

  function MedianOf(values: seq<real>): Option<real>
  {
    if values == [] then None else Some(Middle(Sorted(values)))
  }

  function Middle(v: seq<real>): real
    requires v != []
  {
    var mid := |v| / 2;
    if |v| % 2 == 1 then v[mid] else (v[mid - 1] + v[mid]) / 2.0
  }

  function Deviations(values: seq<real>, from: real): seq<real>
  {
    seq(|values|, i requires 0 <= i < |values| => Abs(values[i] - from))
  }

  /** The median deviation before it is scaled. */
  function RawMad(values: seq<real>): Option<real>
  {
    var med := MedianOf(values);
    if med.None? then None else MedianOf(Deviations(values, med.value))
  }

  /** Scaled to estimate a standard deviation under normality. */
  function Mad(values: seq<real>): Option<real>
  {
    var m := RawMad(values);
    if m.None? then None else Some(m.value * 1.4826)
  }

  /** How many values lie in the closed interval. */
  function Inside(values: seq<real>, lo: real, hi: real): (n: nat)
    ensures n <= |values|
  {
    if values == [] then 0
    else Inside(values[..|values| - 1], lo, hi) + if lo <= values[|values| - 1] <= hi then 1 else 0
  }

  lemma {:induction false} InsideSplits(a: seq<real>, b: seq<real>, lo: real, hi: real)
    ensures Inside(a + b, lo, hi) == Inside(a, lo, hi) + Inside(b, lo, hi)
  {
    if b == [] {
      assert a + b == a;
    } else {
      assert (a + b)[..|a + b| - 1] == a + b[..|b| - 1];
      InsideSplits(a, b[..|b| - 1], lo, hi);
    }
  }

  lemma {:induction false} InsertKeepsInside(s: seq<real>, x: real, lo: real, hi: real)
    requires IsSorted(s)
    ensures Inside(Insert(s, x), lo, hi) == Inside(s + [x], lo, hi)
  {
    hide Inside, Insert, IsSorted;
    if s == [] || s[|s| - 1] <= x {
      InsertAtTheEnd(s, x);
    } else {
      var n := |s| - 1;
      InsertBeforeTheLast(s, x);
      InsertKeepsInside(s[..n], x, lo, hi);
      InsideSplits(s, [x], lo, hi);
      InsideSplits(s[..n], [x], lo, hi);
      InsideSplits(Insert(s[..n], x), [s[n]], lo, hi);
      assert s == s[..n] + [s[n]];
      InsideSplits(s[..n], [s[n]], lo, hi);
    }
  }

  lemma InsertAtTheEnd(s: seq<real>, x: real)
    requires IsSorted(s) && (s == [] || s[|s| - 1] <= x)
    ensures Insert(s, x) == s + [x]
  {
  }

  lemma InsertBeforeTheLast(s: seq<real>, x: real)
    requires IsSorted(s) && s != [] && x < s[|s| - 1]
    ensures var n := |s| - 1; IsSorted(s[..n]) && Insert(s, x) == Insert(s[..n], x) + [s[n]]
  {
  }

  lemma SortedIsInserted(values: seq<real>)
    requires values != []
    ensures var n := |values| - 1; Sorted(values) == Insert(Sorted(values[..n]), values[n])
  {
  }

  lemma {:induction false} SortingKeepsInside(values: seq<real>, lo: real, hi: real)
    ensures Inside(Sorted(values), lo, hi) == Inside(values, lo, hi)
  {
    if values != [] {
      var n := |values| - 1;
      hide Inside, Insert, Sorted;
      var most, x := Sorted(values[..n]), values[n];
      SortedIsInserted(values);
      SortingKeepsInside(values[..n], lo, hi);
      InsertKeepsInside(most, x, lo, hi);
      InsideSplits(most, [x], lo, hi);
      InsideSplits(values[..n], [x], lo, hi);
      assert values == values[..n] + [x];
    }
  }

  lemma {:induction false} NoneInside(s: seq<real>, lo: real, hi: real)
    requires forall i | 0 <= i < |s| :: s[i] < lo || hi < s[i]
    ensures Inside(s, lo, hi) == 0
  {
    if s != [] { NoneInside(s[..|s| - 1], lo, hi); }
  }

  /** In sorted order a value below the interval pins at least that many values outside it. */
  lemma OutsidePins(s: seq<real>, k: nat, lo: real, hi: real)
    requires IsSorted(s) && k < |s|
    ensures s[k] < lo ==> Inside(s, lo, hi) <= |s| - k - 1
    ensures hi < s[k] ==> Inside(s, lo, hi) <= k
  {
    hide Inside;
    if s[k] < lo {
      assert s == s[..k + 1] + s[k + 1..];
      InsideSplits(s[..k + 1], s[k + 1..], lo, hi);
      NoneInside(s[..k + 1], lo, hi);
    }
    if hi < s[k] {
      assert s == s[..k] + s[k..];
      InsideSplits(s[..k], s[k..], lo, hi);
      NoneInside(s[k..], lo, hi);
    }
  }

  lemma MajorityBoundsTheMiddle(s: seq<real>, lo: real, hi: real)
    requires IsSorted(s) && 2 * Inside(s, lo, hi) > |s|
    ensures s != [] && lo <= Middle(s) <= hi
  {
    var mid := |s| / 2;
    OutsidePins(s, mid, lo, hi);
    if |s| % 2 == 0 { OutsidePins(s, mid - 1, lo, hi); }
    hide Inside, IsSorted;
  }

  /** Breakdown point: with strictly more than half the values in an interval, so is the median. */
  lemma MajorityBoundsTheMedian(values: seq<real>, lo: real, hi: real)
    requires 2 * Inside(values, lo, hi) > |values|
    ensures MedianOf(values).Some? && lo <= MedianOf(values).value <= hi
  {
    hide Inside, IsSorted, Sorted;
    SortingKeepsInside(values, lo, hi);
    MajorityBoundsTheMiddle(Sorted(values), lo, hi);
  }

  lemma {:induction false} DeviationsStayInside(values: seq<real>, from: real, lo: real, hi: real)
    requires lo <= from <= hi
    ensures Inside(Deviations(values, from), 0.0, hi - lo) >= Inside(values, lo, hi)
  {
    if values != [] {
      var n := |values| - 1;
      DeviationsStayInside(values[..n], from, lo, hi);
      assert Deviations(values, from)[..n] == Deviations(values[..n], from);
    }
  }

  /** ...and the median deviation is at most the interval's width, whatever the other values are. */
  lemma MajorityBoundsTheDeviation(values: seq<real>, lo: real, hi: real)
    requires 2 * Inside(values, lo, hi) > |values|
    ensures RawMad(values).Some? && 0.0 <= RawMad(values).value <= hi - lo
    ensures Mad(values).Some? && 0.0 <= Mad(values).value <= 1.4826 * (hi - lo)
  {
    hide MedianOf, Inside;
    MajorityBoundsTheMedian(values, lo, hi);
    var med := MedianOf(values).value;
    DeviationsStayInside(values, med, lo, hi);
    assert |Deviations(values, med)| == |values|;
    hide Deviations;
    MajorityBoundsTheMedian(Deviations(values, med), 0.0, hi - lo);
  }

  // ---------------------------------------------------------------- when there is no robust score

  /** `robust_zscore`: refused rather than divided by a vanishing scale. */
  function RobustZscore(sample: seq<real>, value: real, epsilon: real): Option<real>
    requires 0.0 <= epsilon
  {
    var med, scale := MedianOf(sample), Mad(sample);
    if med.None? || scale.None? || scale.value <= epsilon then None else Some((value - med.value) / scale.value)
  }

  lemma DeviationsAreNonNegative(values: seq<real>, from: real)
    ensures forall i | 0 <= i < |values| :: 0.0 <= Deviations(values, from)[i]
  {
  }

  lemma {:induction false} DeviationsVanishTogether(values: seq<real>, from: real)
    ensures Inside(Deviations(values, from), 0.0, 0.0) == Inside(values, from, from)
  {
    if values != [] {
      var n := |values| - 1;
      DeviationsVanishTogether(values[..n], from);
      assert Deviations(values, from)[..n] == Deviations(values[..n], from);
    }
  }

  lemma {:induction false} AllInside(s: seq<real>, lo: real, hi: real)
    requires forall i | 0 <= i < |s| :: lo <= s[i] <= hi
    ensures Inside(s, lo, hi) == |s|
  {
    if s != [] { AllInside(s[..|s| - 1], lo, hi); }
  }

  /** A sorted run of non-negative numbers has its middle at zero only if a strict majority is zero. */
  lemma {:induction false} ZeroMiddleNeedsAMajority(s: seq<real>)
    requires IsSorted(s) && s != [] && 0.0 <= s[0] && Middle(s) <= 0.0
    ensures 2 * Inside(s, 0.0, 0.0) > |s|
  {
    var mid := |s| / 2;
    assert s[mid] <= 0.0;
    assert s == s[..mid + 1] + s[mid + 1..];
    InsideSplits(s[..mid + 1], s[mid + 1..], 0.0, 0.0);
    assert forall i | 0 <= i <= mid :: s[0] <= s[i] <= s[mid];
    AllInside(s[..mid + 1], 0.0, 0.0);
  }

  lemma SortedStartsNonNegative(values: seq<real>)
    requires values != [] && forall i | 0 <= i < |values| :: 0.0 <= values[i]
    ensures 0.0 <= Sorted(values)[0]
  {
    var s := Sorted(values);
    assert s[0] in multiset(s) && multiset(s) == multiset(values);
    assert s[0] in values;
  }

  /**
   The deviation is zero, so that no robust score exists at any threshold, exactly when
   strictly more than half the values are identical.
   */
  lemma DeviationVanishesExactlyUnderAMajority(values: seq<real>)
    requires values != []
    ensures RawMad(values) == Some(0.0) <==> exists x: real :: 2 * Inside(values, x, x) > |values|
    ensures RawMad(values) == Some(0.0) ==> forall v: real, e: real | 0.0 <= e :: RobustZscore(values, v, e).None?
  {
    var med := MedianOf(values).value;
    var ds := Deviations(values, med);
    if RawMad(values) == Some(0.0) {
      DeviationsAreNonNegative(values, med);
      SortedStartsNonNegative(ds);
      SortingKeepsInside(ds, 0.0, 0.0);
      ZeroMiddleNeedsAMajority(Sorted(ds));
      DeviationsVanishTogether(values, med);
      assert 2 * Inside(values, med, med) > |values|;
    } else if x: real :| 2 * Inside(values, x, x) > |values| {
      MajorityBoundsTheDeviation(values, x, x);
    }
  }

  /** Exactly half is not enough: one of two values drags the median beyond any bound. */
  lemma HalfIsNotEnough(bound: real)
    requires 0.0 <= bound
    ensures var values := [0.0, 2.0 * bound + 2.0];
      2 * Inside(values, 0.0, 0.0) == |values| && MedianOf(values) == Some(bound + 1.0)
  {
    OneOfTwo(2.0 * bound + 2.0);
    hide Inside, Sorted;
    var values := [0.0, 2.0 * bound + 2.0];
    SortedDependsOnTheMultisetOnly(values, values);
  }

  lemma OneOfTwo(far: real)
    requires 0.0 < far
    ensures Inside([0.0, far], 0.0, 0.0) == 1
  {
    assert [0.0, far][..1] == [0.0] && [0.0][..0] == [];
    assert Inside([0.0], 0.0, 0.0) == 1;
  }

  // ---------------------------------------------------------------- units

  /** A value in other units: scaled, and perhaps turned around, then shifted. */
  function Convert(x: real, a: real, b: real): real
  {
    a * x + b
  }

  function InUnits(values: seq<real>, a: real, b: real): seq<real>
  {
    seq(|values|, i requires 0 <= i < |values| => Convert(values[i], a, b))
  }

  function Turned(s: seq<real>): seq<real>
  {
    seq(|s|, i requires 0 <= i < |s| => s[|s| - 1 - i])
  }

  lemma {:induction false} TurningKeepsTheValues(s: seq<real>)
    ensures multiset(Turned(s)) == multiset(s)
  {
    if s != [] {
      var n := |s| - 1;
      TurningKeepsTheValues(s[..n]);
      assert Turned(s) == [s[n]] + Turned(s[..n]);
      assert s == s[..n] + [s[n]];
    }
  }

  lemma UnitsOfSplit(x: seq<real>, k: nat, a: real, b: real)
    requires k < |x|
    ensures InUnits(x, a, b) == InUnits(x[..k], a, b) + [Convert(x[k], a, b)] + InUnits(x[k + 1..], a, b)
    ensures InUnits(x[..k] + x[k + 1..], a, b) == InUnits(x[..k], a, b) + InUnits(x[k + 1..], a, b)
  {
    hide Convert;
  }

  lemma WithoutOne(s: seq<real>, k: nat)
    requires k < |s|
    ensures multiset(s[..k] + s[k + 1..]) == multiset(s) - multiset{s[k]}
  {
    assert s == s[..k] + [s[k]] + s[k + 1..];
  }

  lemma {:induction false} UnitsKeepTheCounts(x: seq<real>, y: seq<real>, a: real, b: real)
    requires multiset(x) == multiset(y)
    ensures multiset(InUnits(x, a, b)) == multiset(InUnits(y, a, b))
  {
    hide Convert, InUnits;
    assert |x| == |multiset(x)| && |y| == |multiset(y)|;
    if x == [] {
      assert y == [];
    } else {
      var n := |x| - 1;
      assert x[n] in multiset(y);
      var k :| 0 <= k < |y| && y[k] == x[n];
      var rest := y[..k] + y[k + 1..];
      assert x[n + 1..] == [] && x[..n] + x[n + 1..] == x[..n];
      WithoutOne(x, n);
      WithoutOne(y, k);
      UnitsKeepTheCounts(x[..n], rest, a, b);
      UnitsOfSplit(x, n, a, b);
      UnitsOfSplit(y, k, a, b);
    }
  }

  lemma ScalingKeepsOrder(x: real, y: real, a: real, b: real)
    requires x <= y
    ensures 0.0 <= a ==> Convert(x, a, b) <= Convert(y, a, b)
    ensures a <= 0.0 ==> Convert(y, a, b) <= Convert(x, a, b)
  {
    var step := y - x;
    assert 0.0 <= a ==> 0.0 <= a * step;
    assert a <= 0.0 ==> 0.0 <= (-a) * step;
    assert a * y == a * x + a * step;
  }

  lemma UnitsKeepTheOrder(v: seq<real>, a: real, b: real)
    requires IsSorted(v)
    ensures IsSorted(if 0.0 <= a then InUnits(v, a, b) else Turned(InUnits(v, a, b)))
  {
    forall i, j | 0 <= i < j < |v|
      ensures 0.0 <= a ==> Convert(v[i], a, b) <= Convert(v[j], a, b)
      ensures a <= 0.0 ==> Convert(v[j], a, b) <= Convert(v[i], a, b)
    {
      ScalingKeepsOrder(v[i], v[j], a, b);
    }
    hide Convert;
  }

  /** Sorting in other units is sorting, turned around if the units are. */
  lemma SortedInUnits(values: seq<real>, a: real, b: real)
    ensures var s := InUnits(Sorted(values), a, b);
      Sorted(InUnits(values, a, b)) == if 0.0 <= a then s else Turned(s)
  {
    hide Sorted, InUnits, Turned, IsSorted;
    var s := InUnits(Sorted(values), a, b);
    UnitsKeepTheCounts(Sorted(values), values, a, b);
    TurningKeepsTheValues(s);
    UnitsKeepTheOrder(Sorted(values), a, b);
    SortedDependsOnTheMultisetOnly(InUnits(values, a, b), if 0.0 <= a then s else Turned(s));
  }

  lemma MiddleInUnits(v: seq<real>, a: real, b: real)
    requires v != []
    ensures InUnits(v, a, b) != [] && Middle(InUnits(v, a, b)) == Convert(Middle(v), a, b)
  {
    var mid := |v| / 2;
    if |v| % 2 == 0 { HalfwayInUnits(v[mid - 1], v[mid], a, b); }
    hide Convert;
  }

  lemma HalfwayInUnits(x: real, y: real, a: real, b: real)
    ensures (Convert(x, a, b) + Convert(y, a, b)) / 2.0 == Convert((x + y) / 2.0, a, b)
  {
  }

  lemma MiddleTurned(v: seq<real>)
    requires v != []
    ensures Turned(v) != [] && Middle(Turned(v)) == Middle(v)
  {
  }

  /** The median is measured in the units of the values, whichever way they point. */
  lemma MediansFollowTheUnits(values: seq<real>, a: real, b: real)
    requires values != []
    ensures MedianOf(values).Some? && MedianOf(InUnits(values, a, b)) == Some(Convert(MedianOf(values).value, a, b))
  {
    SortedInUnits(values, a, b);
    MiddleInUnits(Sorted(values), a, b);
    MiddleTurned(InUnits(Sorted(values), a, b));
    assert |InUnits(values, a, b)| == |values|;
    hide Sorted, Middle, Turned, InUnits, Convert;
  }

  lemma DeviationInUnits(x: real, from: real, a: real, b: real)
    ensures Abs(Convert(x, a, b) - Convert(from, a, b)) == Convert(Abs(x - from), Abs(a), 0.0)
  {
    var d := x - from;
    assert Convert(x, a, b) - Convert(from, a, b) == a * d;
    AbsOfProduct(a, d);
  }

  lemma DeviationsInUnits(values: seq<real>, a: real, b: real, from: real)
    ensures Deviations(InUnits(values, a, b), Convert(from, a, b)) == InUnits(Deviations(values, from), Abs(a), 0.0)
  {
    forall i | 0 <= i < |values| ensures Abs(Convert(values[i], a, b) - Convert(from, a, b)) == Convert(Abs(values[i] - from), Abs(a), 0.0) {
      DeviationInUnits(values[i], from, a, b);
    }
    hide Convert, Abs;
  }

  lemma AbsOfProduct(a: real, x: real)
    ensures Abs(a * x) == Abs(a) * Abs(x)
  {
    assert (-a) * x == -(a * x) && a * (-x) == -(a * x) && (-a) * (-x) == a * x;
    assert 0.0 <= a && 0.0 <= x ==> 0.0 <= a * x;
    assert 0.0 <= a && x < 0.0 ==> 0.0 <= a * (-x);
    assert a < 0.0 && 0.0 <= x ==> 0.0 <= (-a) * x;
    assert a < 0.0 && x < 0.0 ==> 0.0 <= (-a) * (-x);
  }

  /** The deviation is measured in the size of the units alone. */
  lemma DeviationsFollowTheUnits(sample: seq<real>, a: real, b: real)
    requires sample != []
    ensures RawMad(sample).Some? && RawMad(InUnits(sample, a, b)) == Some(Abs(a) * RawMad(sample).value)
  {
    hide MedianOf, Deviations, InUnits, Abs, Convert;
    MediansFollowTheUnits(sample, a, b);
    var med := MedianOf(sample).value;
    DeviationsInUnits(sample, a, b, med);
    DeviationsKeepTheirNumber(sample, med);
    MediansFollowTheUnits(Deviations(sample, med), Abs(a), 0.0);
    assert RawMad(sample) == MedianOf(Deviations(sample, med));
    assert RawMad(InUnits(sample, a, b)) == MedianOf(Deviations(InUnits(sample, a, b), Convert(med, a, b)));
    assert Deviations(InUnits(sample, a, b), Convert(med, a, b)) == InUnits(Deviations(sample, med), Abs(a), 0.0);
    assert RawMad(InUnits(sample, a, b)) == Some(Convert(RawMad(sample).value, Abs(a), 0.0));
    OnlyScaled(RawMad(sample).value, Abs(a));
    assert Convert(RawMad(sample).value, Abs(a), 0.0) == Abs(a) * RawMad(sample).value;
  }

  lemma OnlyScaled(x: real, a: real)
    ensures Convert(x, a, 0.0) == a * x
  {
  }

  lemma DeviationsKeepTheirNumber(values: seq<real>, from: real)
    ensures |Deviations(values, from)| == |values|
  {
  }

  /**
   A robust score counts median deviations, scaled by 1.4826, from the median. Where there is one
   in two units it is the same in both, and changes its sign when they turn around.
   */
  lemma ScoresIgnoreTheUnits(sample: seq<real>, value: real, a: real, b: real, epsilon: real, epsilon': real)
    requires sample != [] && a != 0.0 && 0.0 <= epsilon && 0.0 <= epsilon'
    requires RobustZscore(sample, value, epsilon).Some? && RobustZscore(InUnits(sample, a, b), Convert(value, a, b), epsilon').Some?
    ensures var z, z' := RobustZscore(sample, value, epsilon).value, RobustZscore(InUnits(sample, a, b), Convert(value, a, b), epsilon').value;
      && z' == (if 0.0 < a then z else -z)
      && z * (1.4826 * RawMad(sample).value) == value - MedianOf(sample).value
  {
    hide MedianOf, RawMad, InUnits, Abs, Convert;
    MediansFollowTheUnits(sample, a, b);
    DeviationsFollowTheUnits(sample, a, b);
    ScoreInUnits(value, MedianOf(sample).value, RawMad(sample).value, a, b);
  }

  lemma ScoreInUnits(value: real, med: real, deviation: real, a: real, b: real)
    requires 0.0 < deviation * 1.4826 && a != 0.0
    ensures 0.0 < Abs(a) * deviation * 1.4826
    ensures (Convert(value, a, b) - Convert(med, a, b)) / (Abs(a) * deviation * 1.4826)
         == if 0.0 < a then (value - med) / (deviation * 1.4826) else -((value - med) / (deviation * 1.4826))
    ensures (value - med) / (deviation * 1.4826) * (1.4826 * deviation) == value - med
  {
    var scale := deviation * 1.4826;
    assert Abs(a) * deviation * 1.4826 == Abs(a) * scale;
    assert Convert(value, a, b) - Convert(med, a, b) == a * (value - med);
    SameQuotient(value - med, scale, a);
  }

  lemma SameQuotient(x: real, y: real, a: real)
    requires 0.0 < y && a != 0.0
    ensures 0.0 < Abs(a) * y && (x / y) * y == x
    ensures (a * x) / (Abs(a) * y) == if 0.0 < a then x / y else -(x / y)
  {
    var z := x / y;
    var q, c := if 0.0 < a then z else -z, Abs(a);
    assert z * y == x;
    ProductSign(c, y);
    assert q * c == a * z;
    assert q * (c * y) == a * (z * y);
    Divides(q, c * y, a * x);
  }

  lemma Divides(q: real, y: real, x: real)
    requires 0.0 < y && q * y == x
    ensures x / y == q
  {
    var r := x / y;
    assert r * y == x;
    assert (r - q) * y == 0.0;
    ProductSign(r - q, y);
  }
}
