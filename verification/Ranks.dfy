/** Tie-averaged ranks and the rank correlation built on them. */
module Ranks {
  import opened Sums

  /** How many entries are below `v`, as a sum of ones. */
  function Below(a: seq<real>, v: real): real
  {
    if a == [] then 0.0 else Below(a[..|a| - 1], v) + if a[|a| - 1] < v then 1.0 else 0.0
  }

  /** How many entries equal `v`. */
  function Same(a: seq<real>, v: real): real
  {
    if a == [] then 0.0 else Same(a[..|a| - 1], v) + if a[|a| - 1] == v then 1.0 else 0.0
  }

  /** The rank of a value: those below it, plus half of the others equal to it. */
  function RankOf(a: seq<real>, v: real): real
  {
    Below(a, v) + (Same(a, v) - 1.0) / 2.0
  }

  /** A sorting order `argsort` may return: any arrangement of ties. */
  predicate IsOrder(a: seq<real>, order: seq<nat>)
  {
    && IsPermutation(order, |a|)
    && forall i, j | 0 <= i < j < |order| :: a[order[i]] <= a[order[j]]
  }

  /** The entries of `f` at positions where `a` holds `v`, zero elsewhere. */
  function Picked(a: seq<real>, f: seq<real>, v: real): seq<real>
    requires |f| == |a|
  {
    seq(|a|, i requires 0 <= i < |a| => if a[i] == v then f[i] else 0.0)
  }

  function Ones(n: nat): seq<real>
  {
    seq(n, _ => 1.0)
  }

  /** 0, 1, 2, ... */
  function Positions(n: nat): seq<real>
  {
    seq(n, k => k as real)
  }

  // ---------------------------------------------------------------- tied groups in sorted order

  lemma {:induction false} SameIsAPickedSum(a: seq<real>, v: real)
    ensures Sum(Picked(a, Ones(|a|), v)) == Same(a, v)
  {
    if a != [] {
      var n := |a| - 1;
      SameIsAPickedSum(a[..n], v);
      assert Picked(a, Ones(|a|), v)[..n] == Picked(a[..n], Ones(n), v);
    }
  }

  function BelowMarks(a: seq<real>, v: real): seq<real>
  {
    seq(|a|, i requires 0 <= i < |a| => if a[i] < v then 1.0 else 0.0)
  }

  lemma {:induction false} BelowIsASum(a: seq<real>, v: real)
    ensures Sum(BelowMarks(a, v)) == Below(a, v)
  {
    if a != [] {
      var n := |a| - 1;
      BelowIsASum(a[..n], v);
      assert BelowMarks(a, v)[..n] == BelowMarks(a[..n], v);
    }
  }

  /** Counting does not depend on the order. */
  lemma CountsIgnoreOrder(a: seq<real>, order: seq<nat>, v: real)
    requires IsPermutation(order, |a|)
    ensures Below(Reordered(a, order), v) == Below(a, v) && Same(Reordered(a, order), v) == Same(a, v)
  {
    BelowIsASum(a, v);
    BelowIsASum(Reordered(a, order), v);
    SumIgnoresOrder(BelowMarks(a, v), order);
    assert Reordered(BelowMarks(a, v), order) == BelowMarks(Reordered(a, order), v);
    SameIsAPickedSum(a, v);
    SameIsAPickedSum(Reordered(a, order), v);
    SumIgnoresOrder(Picked(a, Ones(|a|), v), order);
    assert Reordered(Picked(a, Ones(|a|), v), order) == Picked(Reordered(a, order), Ones(|a|), v);
  }

  lemma {:induction false} NothingAbove(s: seq<real>, v: real)
    requires forall i | 0 <= i < |s| :: s[i] <= v
    ensures Below(s, v) + Same(s, v) == |s| as real
  {
    if s != [] { NothingAbove(s[..|s| - 1], v); }
  }

  lemma {:induction false} NothingBelowOrAt(s: seq<real>, v: real)
    requires forall i | 0 <= i < |s| :: s[i] < v
    ensures Same(s, v) == 0.0 && Sum(Picked(s, Positions(|s|), v)) == 0.0
  {
    if s != [] {
      var n := |s| - 1;
      NothingBelowOrAt(s[..n], v);
      assert Picked(s, Positions(|s|), v)[..n] == Picked(s[..n], Positions(n), v);
    }
  }

  /** `l`, `l + 1`, ... added up over `e` terms. */
  function RunSum(l: real, e: real): real
  {
    e * l + e * (e - 1.0) / 2.0
  }

  lemma NextPosition(l: real, e: real)
    ensures RunSum(l, e) + (l + e) == RunSum(l, e + 1.0)
  {
    assert (e + 1.0) * (e + 1.0 - 1.0) == e * (e - 1.0) + 2.0 * e;
    assert (e + 1.0) * l == e * l + l;
  }

  lemma EmptyRun(l: real)
    ensures RunSum(l, 0.0) == 0.0
  {
  }

  /** In sorted order a tied group occupies consecutive positions; this is their sum. */
  lemma {:induction false} TiedPositionsSum(s: seq<real>, v: real)
    requires forall i, j | 0 <= i < j < |s| :: s[i] <= s[j]
    ensures Sum(Picked(s, Positions(|s|), v)) == RunSum(Below(s, v), Same(s, v))
  {
    hide RunSum;
    if s == [] {
      EmptyRun(0.0);
    } else {
      var n := |s| - 1;
      var most := s[..n];
      TiedPositionsSum(most, v);
      assert Picked(s, Positions(|s|), v)[..n] == Picked(most, Positions(n), v);
      if s[n] == v {
        NothingAbove(most, v);
        NextPosition(Below(most, v), Same(most, v));
      } else if s[n] < v {
        NothingBelowOrAt(most, v);
        NothingBelowOrAt(s, v);
        EmptyRun(Below(s, v));
      }
    }
  }

  // ---------------------------------------------------------------- the routine

  /** `ranks[order] = arange(n)` */
  method Place(order: seq<nat>, n: nat) returns (raw: seq<real>)
    requires IsPermutation(order, n)
    ensures |raw| == n == |order| && forall k | 0 <= k < n :: raw[order[k]] == k as real
  {
    var cells := new real[n](_ => 0.0);
    for k := 0 to n
      invariant forall j | 0 <= j < k :: cells[order[j]] == j as real
    {
      cells[order[k]] := k as real;
    }
    raw := cells[..];
  }

  /** One total for each distinct value of `a`: the entries of `f` where `a` holds it. */
  predicate Grouped(totals: map<real, real>, a: seq<real>, f: seq<real>)
    requires |f| == |a|
  {
    && (forall v | v in totals :: totals[v] == Sum(Picked(a, f, v)))
    && (forall i | 0 <= i < |a| :: a[i] in totals)
    && (forall v | v in totals :: v in a)
  }

  function Add(totals: map<real, real>, v: real, x: real): map<real, real>
  {
    totals[v := (if v in totals then totals[v] else 0.0) + x]
  }

  lemma OneMoreEntry(totals: map<real, real>, a: seq<real>, f: seq<real>, x: real, y: real)
    requires |f| == |a| && Grouped(totals, a, f)
    ensures Grouped(Add(totals, x, y), a + [x], f + [y])
  {
    forall v ensures Sum(Picked(a + [x], f + [y], v)) == Sum(Picked(a, f, v)) + if v == x then y else 0.0 {
      assert Picked(a + [x], f + [y], v)[..|a|] == Picked(a, f, v);
    }
    if x !in totals { FirstOfItsValue(a, f, x); }
  }

  /** `np.add.at` over the groups `np.unique` finds. */
  method Totals(a: seq<real>, f: seq<real>) returns (totals: map<real, real>)
    requires |f| == |a|
    ensures Grouped(totals, a, f)
  {
    totals := map[];
    for i := 0 to |a|
      invariant Grouped(totals, a[..i], f[..i])
    {
      OneMoreEntry(totals, a[..i], f[..i], a[i], f[i]);
      assert a[..i + 1] == a[..i] + [a[i]] && f[..i + 1] == f[..i] + [f[i]];
      totals := Add(totals, a[i], f[i]);
    }
    assert a[..|a|] == a && f[..|f|] == f;
  }

  /** Where the two groupings are divided, each position gets its rank. */
  lemma QuotientsAreRanks(a: seq<real>, raw: seq<real>, order: seq<nat>, sums: map<real, real>, counts: map<real, real>)
    requires IsOrder(a, order) && |raw| == |a|
    requires forall k | 0 <= k < |a| :: raw[order[k]] == k as real
    requires Grouped(sums, a, raw) && Grouped(counts, a, Ones(|a|))
    ensures forall i | 0 <= i < |a| :: a[i] in sums && a[i] in counts && counts[a[i]] >= 1.0
    ensures forall i | 0 <= i < |a| :: sums[a[i]] / counts[a[i]] == RankOf(a, a[i])
  {
    hide Sum, RankOf;
    forall i | 0 <= i < |a|
      ensures a[i] in sums && a[i] in counts && counts[a[i]] >= 1.0 && sums[a[i]] / counts[a[i]] == RankOf(a, a[i])
    {
      AverageOfATiedGroup(a, raw, order, i);
    }
  }

  /** `rank`: place positions along the order, then average each tied group. */
  method Rank(a: seq<real>, order: seq<nat>) returns (ranks: seq<real>)
    requires IsOrder(a, order)
    ensures |ranks| == |a| && forall i | 0 <= i < |a| :: ranks[i] == RankOf(a, a[i])
  {
    hide IsPermutation, Grouped, RankOf;
    var raw := Place(order, |a|);
    var sums := Totals(a, raw);
    var counts := Totals(a, Ones(|a|));
    QuotientsAreRanks(a, raw, order, sums, counts);
    ranks := seq(|a|, i requires 0 <= i < |a| => sums[a[i]] / counts[a[i]]);
  }

  lemma {:induction false} FirstOfItsValue(a: seq<real>, f: seq<real>, v: real)
    requires |f| == |a| && v !in a
    ensures Sum(Picked(a, f, v)) == 0.0
  {
    if a != [] {
      var n := |a| - 1;
      assert a[n] in a;
      FirstOfItsValue(a[..n], f[..n], v);
      assert Picked(a, f, v)[..n] == Picked(a[..n], f[..n], v);
    }
  }

  lemma {:induction false} PresentIsCounted(a: seq<real>, i: nat)
    requires i < |a|
    ensures Same(a, a[i]) >= 1.0
  {
    var n := |a| - 1;
    SameIsNonNegative(a[..n], a[i]);
    if i < n {
      assert a[..n][i] == a[i];
      PresentIsCounted(a[..n], i);
    }
  }

  lemma {:induction false} SameIsNonNegative(a: seq<real>, v: real)
    ensures Same(a, v) >= 0.0
  {
    if a != [] { SameIsNonNegative(a[..|a| - 1], v); }
  }

  /** Whatever order the sort picked among ties, the average over a tied group is its rank. */
  lemma AverageOfATiedGroup(a: seq<real>, raw: seq<real>, order: seq<nat>, i: nat)
    requires IsOrder(a, order) && |raw| == |a| && i < |a|
    requires forall k | 0 <= k < |order| :: raw[order[k]] == k as real
    ensures Sum(Picked(a, Ones(|a|), a[i])) >= 1.0
    ensures Sum(Picked(a, raw, a[i])) / Sum(Picked(a, Ones(|a|), a[i])) == RankOf(a, a[i])
  {
    hide Sum, Below, Same, RunSum;
    var v := a[i];
    var s := Reordered(a, order);
    SumIgnoresOrder(Picked(a, raw, v), order);
    assert Reordered(Picked(a, raw, v), order) == Picked(s, Positions(|s|), v);
    TiedPositionsSum(s, v);
    CountsIgnoreOrder(a, order, v);
    SameIsAPickedSum(a, v);
    PresentIsCounted(a, i);
    Averaged(Below(a, v), Same(a, v));
  }

  lemma Averaged(l: real, e: real)
    requires 0.0 < e
    ensures RunSum(l, e) / e == l + (e - 1.0) / 2.0
  {
    var q := l + (e - 1.0) / 2.0;
    assert RunSum(l, e) == e * q by { assert e * ((e - 1.0) / 2.0) == e * (e - 1.0) / 2.0; }
    Quotient(e, q);
  }

  lemma Quotient(e: real, q: real)
    requires 0.0 < e
    ensures e * q / e == q
  {
    var r := e * q / e;
    assert r * e == e * q;
    assert (r - q) * e == 0.0;
    ProductSign(r - q, e);
  }

  // ---------------------------------------------------------------- what ranks keep

  function RankSum(a: seq<real>, xs: seq<real>): real
  {
    if xs == [] then 0.0 else RankSum(a, xs[..|xs| - 1]) + RankOf(a, xs[|xs| - 1])
  }

  function Above(a: seq<real>, v: real): real
  {
    if a == [] then 0.0 else Above(a[..|a| - 1], v) + if a[|a| - 1] > v then 1.0 else 0.0
  }

  lemma {:induction false} EveryEntryCompares(a: seq<real>, v: real)
    ensures Below(a, v) + Same(a, v) + Above(a, v) == |a| as real
  {
    if a != [] { EveryEntryCompares(a[..|a| - 1], v); }
  }

  /** A new entry raises the rank of each greater entry by one and of each equal one by a half. */
  lemma {:induction false} NewEntryLifts(a: seq<real>, x: real, xs: seq<real>)
    ensures RankSum(a + [x], xs) == RankSum(a, xs) + Above(xs, x) + Same(xs, x) / 2.0
  {
    if xs != [] {
      var n := |xs| - 1;
      NewEntryLifts(a, x, xs[..n]);
      assert (a + [x])[..|a|] == a;
    }
  }

  /** Ranks always add up to 0 + 1 + ... + (n - 1), ties or no ties. */
  lemma {:induction false} RanksAddUp(a: seq<real>)
    ensures RankSum(a, a) == (|a| * (|a| - 1)) as real / 2.0
  {
    if a != [] {
      var n := |a| - 1;
      var most, x := a[..n], a[n];
      RanksAddUp(most);
      assert a == most + [x];
      NewEntryLifts(most, x, most);
      EveryEntryCompares(most, x);
      assert RankOf(a, x) == Below(most, x) + Same(most, x) / 2.0;
      assert RankSum(a, a) == RankSum(a, most) + RankOf(a, x);
      hide RankSum, RankOf, Below, Same, Above;
      NextTriangle(n);
    }
  }

  lemma NextTriangle(n: nat)
    ensures (n * (n - 1)) as real / 2.0 + n as real == ((n + 1) * n) as real / 2.0
  {
    assert (n + 1) * n == n * (n - 1) + 2 * n;
  }

  lemma {:induction false} ComparisonsDecide(a: seq<real>, b: seq<real>, x: real, y: real)
    requires |a| == |b|
    requires forall j | 0 <= j < |a| :: (a[j] < x <==> b[j] < y) && (a[j] == x <==> b[j] == y)
    ensures Below(a, x) == Below(b, y) && Same(a, x) == Same(b, y)
  {
    if a != [] {
      var n := |a| - 1;
      ComparisonsDecide(a[..n], b[..n], x, y);
    }
  }

  /** A strictly increasing transform leaves every rank unchanged. */
  lemma TransformsKeepRanks(a: seq<real>, b: seq<real>, i: nat)
    requires |a| == |b| && i < |a|
    requires forall j, k | 0 <= j < |a| && 0 <= k < |a| :: a[j] < a[k] <==> b[j] < b[k]
    ensures RankOf(a, a[i]) == RankOf(b, b[i])
  {
    forall j | 0 <= j < |a| ensures (a[j] < a[i] <==> b[j] < b[i]) && (a[j] == a[i] <==> b[j] == b[i]) {
      assert a[i] < a[j] <==> b[i] < b[j];
    }
    ComparisonsDecide(a, b, a[i], b[i]);
  }

  function RanksOf(a: seq<real>): seq<real>
  {
    seq(|a|, i requires 0 <= i < |a| => RankOf(a, a[i]))
  }

  /**
   The squared rank correlation, in product form: the squared covariance of the centred
   ranks never exceeds the product of their sums of squares, and reaches it for series that
   order alike.
   */
  lemma SpearmanIsAtMostOne(a: seq<real>, b: seq<real>)
    requires |a| == |b| >= 3
    ensures var ra, rb := Centered(RanksOf(a)), Centered(RanksOf(b));
      && Dot(ra, rb) * Dot(ra, rb) <= Dot(ra, ra) * Dot(rb, rb)
      && ((forall j, k | 0 <= j < |a| && 0 <= k < |a| :: a[j] < a[k] <==> b[j] < b[k]) ==>
            Dot(ra, rb) == Dot(ra, ra) == Dot(rb, rb))
  {
    var ra, rb := Centered(RanksOf(a)), Centered(RanksOf(b));
    CauchySchwarz(ra, rb);
    if forall j, k | 0 <= j < |a| && 0 <= k < |a| :: a[j] < a[k] <==> b[j] < b[k] {
      forall i | 0 <= i < |a| ensures RanksOf(a)[i] == RanksOf(b)[i] {
        TransformsKeepRanks(a, b, i);
      }
      assert RanksOf(a) == RanksOf(b);
    }
  }
}
