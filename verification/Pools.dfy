/**
 Resting liquidity: swings of one kind, sorted by price, grouped greedily around the lowest
 price of each group. Proved to be the fewest groups possible.
 */
module Pools {
  import opened Sums
  import opened Sorting
  import opened Swings

  /** A published pool; `isHigh` is its kind. */
  datatype Level = Level(low: real, high: real, isHigh: bool)

  /** The distance test. Dividing by a zero anchor never passes it. */
  predicate Within(anchor: real, price: real, tolerancePct: real)
  {
    anchor != 0.0 && Abs((price - anchor) / anchor) * 100.0 <= tolerancePct
  }

  // ---------------------------------------------------------------- the grouping as a function

  /** The groups of the first `n` prices: a price joins the last group if it is within tolerance of its first. */
  function Groups(p: seq<real>, tol: real, n: nat): (gs: seq<seq<real>>)
    requires n <= |p|
    ensures forall k | 0 <= k < |gs| :: gs[k] != []
    ensures gs == [] <==> n == 0
  {
    if n == 0 then []
    else
      var gs := Groups(p, tol, n - 1);
      if gs == [] || !Within(gs[|gs| - 1][0], p[n - 1], tol) then gs + [[p[n - 1]]]
      else gs[|gs| - 1 := gs[|gs| - 1] + [p[n - 1]]]
  }

  /** A group of two or more is a pool; a single swing is not. */
  function PoolOf(group: seq<real>, isHigh: bool): seq<Level>
  {
    if |group| < 2 then [] else [Level(group[0], group[|group| - 1], isHigh)]
  }

  function PoolsOf(groups: seq<seq<real>>, isHigh: bool): seq<Level>
  {
    if groups == [] then []
    else PoolsOf(groups[..|groups| - 1], isHigh) + PoolOf(groups[|groups| - 1], isHigh)
  }

  function Prices(swings: seq<SwingPoint>, isHigh: bool): seq<real>
  {
    if swings == [] then []
    else
      Prices(swings[..|swings| - 1], isHigh) +
      (if swings[|swings| - 1].isHigh == isHigh then [swings[|swings| - 1].price] else [])
  }

  function GroupsOf(swings: seq<SwingPoint>, tol: real, isHigh: bool): seq<seq<real>>
  {
    var p := Sorted(Prices(swings, isHigh));
    Groups(p, tol, |p|)
  }

  function AllPools(swings: seq<SwingPoint>, tol: real): seq<Level>
  {
    if |swings| < 2 || tol <= 0.0 then []
    else PoolsOf(GroupsOf(swings, tol, true), true) + PoolsOf(GroupsOf(swings, tol, false), false)
  }

  // ---------------------------------------------------------------- the loops

  method PushPool(pools: seq<Level>, cluster: seq<real>, isHigh: bool) returns (out: seq<Level>)
    requires IsSorted(cluster)
    ensures out == pools + PoolOf(cluster, isHigh)
  {
    if |cluster| < 2 {
      return pools;
    }
    var lo, hi := cluster[0], cluster[0];
    for i := 0 to |cluster|
      invariant lo == cluster[0] && hi == if i == 0 then cluster[0] else cluster[i - 1]
    {
      lo, hi := Lesser(lo, cluster[i]), Larger(hi, cluster[i]);
    }
    out := pools + [Level(lo, hi, isHigh)];
  }

  /** The groups once one more price has joined or opened one. */
  function WithPrice(gs: seq<seq<real>>, price: real, tol: real): seq<seq<real>>
    requires forall k | 0 <= k < |gs| :: gs[k] != []
  {
    if gs == [] || !Within(gs[|gs| - 1][0], price, tol) then gs + [[price]]
    else gs[|gs| - 1 := gs[|gs| - 1] + [price]]
  }

  lemma OneMorePrice(p: seq<real>, tol: real, i: nat)
    requires i < |p|
    ensures Groups(p, tol, i + 1) == WithPrice(Groups(p, tol, i), p[i], tol)
  {
    hide Within;
  }

  /** The groups so far: the pools of all but the last, and the last one still open. */
  predicate SoFar(gs: seq<seq<real>>, pools: seq<Level>, cluster: seq<real>, isHigh: bool)
  {
    if gs == [] then pools == [] && cluster == []
    else cluster == gs[|gs| - 1] && pools == PoolsOf(gs[..|gs| - 1], isHigh)
  }

  lemma CloseGroup(gs: seq<seq<real>>, pools: seq<Level>, cluster: seq<real>, price: real, isHigh: bool)
    requires SoFar(gs, pools, cluster, isHigh)
    ensures PoolsOf(gs, isHigh) == pools + PoolOf(cluster, isHigh)
    ensures SoFar(gs + [[price]], PoolsOf(gs, isHigh), [price], isHigh)
  {
  }

  /** Where the loop stands after `i` prices. */
  predicate GroupedSoFar(p: seq<real>, tol: real, i: nat, gs: seq<seq<real>>, pools: seq<Level>, cluster: seq<real>, isHigh: bool)
    requires i <= |p|
  {
    && gs == Groups(p, tol, i) && SoFar(gs, pools, cluster, isHigh)
    && (gs == [] <==> i == 0) && (cluster == [] <==> i == 0)
    && IsSorted(cluster) && (cluster != [] ==> cluster[|cluster| - 1] == p[i - 1])
  }

  lemma StartGrouping(p: seq<real>, tol: real, isHigh: bool)
    ensures GroupedSoFar(p, tol, 0, [], [], [], isHigh)
  {
  }

  lemma ExtendGroup(p: seq<real>, tol: real, i: nat, gs: seq<seq<real>>, pools: seq<Level>, cluster: seq<real>, isHigh: bool)
    requires IsSorted(p) && i < |p| && GroupedSoFar(p, tol, i, gs, pools, cluster, isHigh)
    requires cluster != [] && Within(cluster[0], p[i], tol)
    ensures GroupedSoFar(p, tol, i + 1, gs[|gs| - 1 := cluster + [p[i]]], pools, cluster + [p[i]], isHigh)
  {
    OneMorePrice(p, tol, i);
    assert p[i - 1] <= p[i];
    hide Within, Groups, PoolsOf, IsSorted;
    AppendSorted(cluster, p[i]);
    ExtendLast(gs, pools, cluster, p[i], isHigh);
    hide SoFar;
  }

  lemma ExtendLast(gs: seq<seq<real>>, pools: seq<Level>, cluster: seq<real>, price: real, isHigh: bool)
    requires SoFar(gs, pools, cluster, isHigh) && gs != []
    ensures SoFar(gs[|gs| - 1 := cluster + [price]], pools, cluster + [price], isHigh) && cluster == gs[|gs| - 1]
  {
    hide PoolsOf;
    assert gs[|gs| - 1 := cluster + [price]][..|gs| - 1] == gs[..|gs| - 1];
  }

  lemma AppendSorted(cluster: seq<real>, price: real)
    requires IsSorted(cluster) && (cluster != [] ==> cluster[|cluster| - 1] <= price)
    ensures IsSorted(cluster + [price])
  {
  }

  lemma OpenNextGroup(p: seq<real>, tol: real, i: nat, gs: seq<seq<real>>, pools: seq<Level>, cluster: seq<real>, isHigh: bool)
    requires i < |p| && GroupedSoFar(p, tol, i, gs, pools, cluster, isHigh)
    requires cluster == [] || !Within(cluster[0], p[i], tol)
    ensures GroupedSoFar(p, tol, i + 1, gs + [[p[i]]], PoolsOf(gs, isHigh), [p[i]], isHigh)
    ensures PoolsOf(gs, isHigh) == pools + PoolOf(cluster, isHigh)
    ensures cluster == [] ==> PoolsOf(gs, isHigh) == pools && cluster + [p[i]] == [p[i]]
  {
    OneMorePrice(p, tol, i);
    CloseGroup(gs, pools, cluster, p[i], isHigh);
    assert IsSorted([p[i]]);
    hide Within, Groups, PoolsOf, IsSorted;
  }

  method PoolsOfKind(p: seq<real>, tol: real, isHigh: bool) returns (pools: seq<Level>)
    requires IsSorted(p)
    ensures pools == PoolsOf(Groups(p, tol, |p|), isHigh)
  {
    hide Within, Groups, PoolsOf, PoolOf, IsSorted, SoFar;
    pools := [];
    var cluster: seq<real> := [];
    ghost var gs: seq<seq<real>> := [];
    StartGrouping(p, tol, isHigh);
    for i := 0 to |p|
      invariant GroupedSoFar(p, tol, i, gs, pools, cluster, isHigh)
    {
      var extend := cluster == [] || Within(cluster[0], p[i], tol);
      if extend {
        if cluster == [] {
          OpenNextGroup(p, tol, i, gs, pools, cluster, isHigh);
          gs := gs + [[p[i]]];
        } else {
          ExtendGroup(p, tol, i, gs, pools, cluster, isHigh);
          gs := gs[|gs| - 1 := cluster + [p[i]]];
        }
        cluster := cluster + [p[i]];
      } else {
        OpenNextGroup(p, tol, i, gs, pools, cluster, isHigh);
        pools := PushPool(pools, cluster, isHigh);
        cluster := [p[i]];
        gs := gs + [cluster];
      }
    }
    CloseGroup(gs, pools, cluster, 0.0, isHigh);
    pools := PushPool(pools, cluster, isHigh);
  }

  method LiquidityPools(swings: seq<SwingPoint>, tol: real) returns (pools: seq<Level>)
    ensures pools == AllPools(swings, tol)
  {
    if |swings| < 2 || tol <= 0.0 {
      return [];
    }
    var highs := PoolsOfKind(Sorted(Prices(swings, true)), tol, true);
    var lows := PoolsOfKind(Sorted(Prices(swings, false)), tol, false);
    pools := highs + lows;
  }

  // ---------------------------------------------------------------- where the groups start

  /** Positions of the first price of each group. */
  function Starts(p: seq<real>, tol: real, n: nat): (s: seq<nat>)
    requires n <= |p|
    ensures forall k | 0 <= k < |s| :: s[k] < n
    ensures s == [] <==> n == 0
  {
    if n == 0 then []
    else
      var s := Starts(p, tol, n - 1);
      if s == [] || !Within(p[s[|s| - 1]], p[n - 1], tol) then s + [n - 1] else s
  }

  predicate Increasing(s: seq<nat>)
  {
    forall j, k | 0 <= j < k < |s| :: s[j] < s[k]
  }

  lemma {:induction false} StartsIncrease(p: seq<real>, tol: real, n: nat)
    requires n <= |p|
    ensures Increasing(Starts(p, tol, n))
  {
    if n > 0 { StartsIncrease(p, tol, n - 1); }
  }

  /** Where the `k`-th of the runs that start at `s` ends. */
  function EndOf(s: seq<nat>, n: nat, k: nat): nat
    requires k < |s|
  {
    if k + 1 < |s| then s[k + 1] else n
  }

  predicate IsSlice(p: seq<real>, g: seq<real>, from: nat, to: nat)
  {
    from < to <= |p| && g == p[from..to]
  }

  /** The groups are the consecutive runs of the first `n` prices that begin at the starts. */
  predicate AreSlices(p: seq<real>, gs: seq<seq<real>>, s: seq<nat>, n: nat)
  {
    && |gs| == |s|
    && forall k | 0 <= k < |gs| :: IsSlice(p, gs[k], s[k], EndOf(s, n, k))
  }

  lemma OpenSlice(p: seq<real>, gs: seq<seq<real>>, s: seq<nat>, n: nat)
    requires n < |p| && AreSlices(p, gs, s, n)
    ensures AreSlices(p, gs + [[p[n]]], s + [n], n + 1)
  {
    var gs', s' := gs + [[p[n]]], s + [n];
    forall k | 0 <= k < |gs'| ensures IsSlice(p, gs'[k], s'[k], EndOf(s', n + 1, k)) {
      if k < |gs| { assert IsSlice(p, gs[k], s[k], EndOf(s, n, k)); }
    }
  }

  lemma JoinSlice(p: seq<real>, gs: seq<seq<real>>, s: seq<nat>, n: nat)
    requires n < |p| && gs != [] && AreSlices(p, gs, s, n)
    ensures AreSlices(p, gs[|gs| - 1 := gs[|gs| - 1] + [p[n]]], s, n + 1)
  {
    var last := |gs| - 1;
    var gs' := gs[last := gs[last] + [p[n]]];
    forall k | 0 <= k < |gs'| ensures IsSlice(p, gs'[k], s[k], EndOf(s, n + 1, k)) {
      assert IsSlice(p, gs[k], s[k], EndOf(s, n, k));
      if k == last { assert p[s[k]..n] + [p[n]] == p[s[k]..n + 1]; }
    }
  }

  function WithStart(p: seq<real>, tol: real, s: seq<nat>, n: nat): seq<nat>
    requires n < |p| && forall k | 0 <= k < |s| :: s[k] < |p|
  {
    if s == [] || !Within(p[s[|s| - 1]], p[n], tol) then s + [n] else s
  }

  lemma OneMoreStart(p: seq<real>, tol: real, n: nat)
    requires n < |p|
    ensures Starts(p, tol, n + 1) == WithStart(p, tol, Starts(p, tol, n), n)
  {
    hide Within;
  }

  lemma SliceBegins(p: seq<real>, gs: seq<seq<real>>, s: seq<nat>, n: nat)
    requires AreSlices(p, gs, s, n) && gs != []
    ensures gs[|gs| - 1] != [] && s[|s| - 1] < |p| && gs[|gs| - 1][0] == p[s[|s| - 1]]
  {
    assert IsSlice(p, gs[|gs| - 1], s[|s| - 1], EndOf(s, n, |s| - 1));
  }

  /** One more price opens a group exactly where it opens a run. */
  lemma OneMoreSlice(p: seq<real>, tol: real, gs: seq<seq<real>>, s: seq<nat>, n: nat)
    requires n < |p| && AreSlices(p, gs, s, n)
    requires forall k | 0 <= k < |gs| :: gs[k] != []
    requires forall k | 0 <= k < |s| :: s[k] < |p|
    ensures AreSlices(p, WithPrice(gs, p[n], tol), WithStart(p, tol, s, n), n + 1)
  {
    if gs != [] { SliceBegins(p, gs, s, n); }
    hide Within;
    if gs == [] || !Within(gs[|gs| - 1][0], p[n], tol) {
      OpenSlice(p, gs, s, n);
    } else {
      JoinSlice(p, gs, s, n);
    }
  }

  lemma {:induction false} GroupsAreTheRuns(p: seq<real>, tol: real, n: nat)
    requires n <= |p|
    ensures AreSlices(p, Groups(p, tol, n), Starts(p, tol, n), n)
  {
    if n > 0 {
      var i := n - 1;
      GroupsAreTheRuns(p, tol, i);
      OneMorePrice(p, tol, i);
      OneMoreStart(p, tol, i);
      hide WithPrice, WithStart, Groups, Starts, IsSlice;
      OneMoreSlice(p, tol, Groups(p, tol, i), Starts(p, tol, i), i);
    }
  }

  function Flatten(gs: seq<seq<real>>): seq<real>
  {
    if gs == [] then [] else Flatten(gs[..|gs| - 1]) + gs[|gs| - 1]
  }

  lemma FlattenOneMore(gs: seq<seq<real>>, g: seq<real>)
    ensures Flatten(gs + [g]) == Flatten(gs) + g
  {
    assert (gs + [g])[..|gs|] == gs;
  }

  lemma FlattenJoined(gs: seq<seq<real>>, price: real)
    requires gs != []
    ensures Flatten(gs[|gs| - 1 := gs[|gs| - 1] + [price]]) == Flatten(gs) + [price]
  {
    assert gs[|gs| - 1 := gs[|gs| - 1] + [price]][..|gs| - 1] == gs[..|gs| - 1];
  }

  lemma FlattenWithPrice(gs: seq<seq<real>>, price: real, tol: real)
    requires forall k | 0 <= k < |gs| :: gs[k] != []
    ensures Flatten(WithPrice(gs, price, tol)) == Flatten(gs) + [price]
  {
    hide Within, Flatten;
    FlattenOneMore(gs, [price]);
    if gs != [] { FlattenJoined(gs, price); }
  }

  /** Partition: laid end to end, the groups are the prices, each of them once. */
  lemma {:induction false} GroupsPartitionThePrices(p: seq<real>, tol: real, n: nat)
    requires n <= |p|
    ensures Flatten(Groups(p, tol, n)) == p[..n]
  {
    if n > 0 {
      var i := n - 1;
      GroupsPartitionThePrices(p, tol, i);
      OneMorePrice(p, tol, i);
      FlattenWithPrice(Groups(p, tol, i), p[i], tol);
      hide Groups, WithPrice, Flatten;
      assert p[..n] == p[..i] + [p[i]];
    }
  }

  /** Which group each of the first `n` prices belongs to. */
  function Grouping(p: seq<real>, tol: real, n: nat): (g: seq<nat>)
    requires n <= |p|
    ensures |g| == n
  {
    if n == 0 then [] else Grouping(p, tol, n - 1) + [|Starts(p, tol, n)| - 1]
  }

  lemma WithinItself(anchor: real, tol: real)
    requires 0.0 < anchor && 0.0 <= tol
    ensures Within(anchor, anchor, tol)
  {
  }

  lemma {:induction false} NeighbouringStartsAreOutOfTolerance(p: seq<real>, tol: real, n: nat, k: nat)
    requires n <= |p| && k + 1 < |Starts(p, tol, n)|
    ensures !Within(p[Starts(p, tol, n)[k]], p[Starts(p, tol, n)[k + 1]], tol)
  {
    hide Within;
    if k + 1 < |Starts(p, tol, n - 1)| {
      NeighbouringStartsAreOutOfTolerance(p, tol, n - 1, k);
    }
  }

  /** Group `k` is numbered `k` at its start... */
  lemma {:induction false} StartsAreNumbered(p: seq<real>, tol: real, n: nat, k: nat)
    requires n <= |p| && k < |Starts(p, tol, n)|
    ensures Grouping(p, tol, n)[Starts(p, tol, n)[k]] == k
  {
    hide Within;
    var before, s := Starts(p, tol, n - 1), Starts(p, tol, n);
    if k < |before| {
      StartsAreNumbered(p, tol, n - 1, k);
      assert s[k] == before[k] < n - 1;
    }
    hide Starts;
  }

  /** ...and every member of it comes at or after that start, within tolerance of it. */
  lemma {:induction false} MembersAreWithin(p: seq<real>, tol: real, n: nat, i: nat)
    requires i < n <= |p| && 0.0 < p[i] && 0.0 <= tol
    ensures var s, g := Starts(p, tol, n), Grouping(p, tol, n);
      g[i] < |s| && s[g[i]] <= i && Within(p[s[g[i]]], p[i], tol)
    decreases n
  {
    WithinItself(p[i], tol);
    hide Within;
    if i < n - 1 {
      MembersAreWithin(p, tol, n - 1, i);
    }
  }

  /** The `i`-th price lies in the group it is numbered for. */
  predicate NumbersTheGroups(gs: seq<seq<real>>, s: seq<nat>, g: seq<nat>, p: seq<real>)
  {
    |gs| == |s| && |g| <= |p| && forall i | 0 <= i < |g| :: LiesIn(gs, s, g[i], i, p)
  }

  predicate LiesIn(gs: seq<seq<real>>, s: seq<nat>, k: nat, i: nat, p: seq<real>)
    requires |gs| == |s| && i < |p|
  {
    k < |gs| && s[k] <= i < s[k] + |gs[k]| && gs[k][i - s[k]] == p[i]
  }

  lemma OneMoreNumber(p: seq<real>, tol: real, n: nat)
    requires n < |p|
    ensures Grouping(p, tol, n + 1) == Grouping(p, tol, n) + [|Starts(p, tol, n + 1)| - 1]
  {
  }

  /** Price `i` lies in the `k`-th run. */
  predicate InRun(s: seq<nat>, n: nat, k: nat, i: nat)
  {
    k < |s| && s[k] <= i < EndOf(s, n, k)
  }

  lemma RunGrows(s: seq<nat>, s': seq<nat>, n: nat, k: nat, i: nat)
    requires s' == s || s' == s + [n]
    requires InRun(s, n, k, i)
    ensures InRun(s', n + 1, k, i)
  {
  }

  lemma NewestIsInTheLastRun(s: seq<nat>, n: nat)
    requires s != [] && s[|s| - 1] <= n
    ensures InRun(s, n + 1, |s| - 1, n)
  {
  }

  lemma StartsBegin(p: seq<real>, tol: real, n: nat)
    requires n < |p|
    ensures var s, s' := Starts(p, tol, n), Starts(p, tol, n + 1);
      (s' == s || s' == s + [n]) && s' != [] && s'[|s'| - 1] <= n
  {
    OneMoreStart(p, tol, n);
    hide Within;
  }

  lemma {:induction false} NumberedInTheRun(p: seq<real>, tol: real, n: nat, i: nat)
    requires i < n <= |p|
    ensures InRun(Starts(p, tol, n), n, Grouping(p, tol, n)[i], i)
    decreases n
  {
    var m := n - 1;
    StartsBegin(p, tol, m);
    OneMoreNumber(p, tol, m);
    if i < m {
      NumberedInTheRun(p, tol, m, i);
      RunGrows(Starts(p, tol, m), Starts(p, tol, n), m, Grouping(p, tol, m)[i], i);
    } else {
      NewestIsInTheLastRun(Starts(p, tol, n), m);
    }
    hide Starts, Grouping;
  }

  lemma LiesInItsRun(p: seq<real>, gs: seq<seq<real>>, s: seq<nat>, n: nat, k: nat, i: nat)
    requires AreSlices(p, gs, s, n) && InRun(s, n, k, i) && i < |p|
    ensures LiesIn(gs, s, k, i, p)
  {
    assert IsSlice(p, gs[k], s[k], EndOf(s, n, k));
  }

  /** Grouping numbers the groups: each price lies, at its own place, in the group it is assigned. */
  lemma GroupingNumbersTheGroups(p: seq<real>, tol: real)
    ensures NumbersTheGroups(Groups(p, tol, |p|), Starts(p, tol, |p|), Grouping(p, tol, |p|), p)
  {
    var n := |p|;
    GroupsAreTheRuns(p, tol, n);
    hide Groups, Starts, Grouping, InRun, IsSlice;
    forall i | 0 <= i < n ensures LiesIn(Groups(p, tol, n), Starts(p, tol, n), Grouping(p, tol, n)[i], i, p) {
      NumberedInTheRun(p, tol, n, i);
      LiesInItsRun(p, Groups(p, tol, n), Starts(p, tol, n), n, Grouping(p, tol, n)[i], i);
    }
  }

  // ---------------------------------------------------------------- fewest groups

  /** Price `i` is the lowest of its group (the first, in sorted order). */
  predicate LeadsGroup(groups: seq<nat>, i: nat)
  {
    i < |groups| && forall k | 0 <= k < i :: groups[k] != groups[i]
  }

  /** Any way of assigning `m` groups in which every member is within tolerance of its group's lowest price. */
  predicate ValidGrouping(p: seq<real>, tol: real, groups: seq<nat>, m: nat)
    requires |groups| == |p|
  {
    && (forall i | 0 <= i < |groups| :: groups[i] < m)
    && (forall i, j | 0 <= i <= j < |groups| && groups[i] == groups[j] && LeadsGroup(groups, i) :: Within(p[i], p[j], tol))
  }

  /** Over positive prices the distance test is a threshold that grows with the anchor. */
  lemma WithinIsAThreshold(anchor: real, price: real, tol: real)
    requires 0.0 < anchor <= price
    ensures Within(anchor, price, tol) <==> (price - anchor) * 100.0 <= tol * anchor
  {
  }

  /** A higher anchor and a lower price can only be closer. */
  lemma CloserAnchors(a: real, a': real, price: real, price': real, tol: real)
    requires 0.0 < a <= a' <= price' <= price && 0.0 <= tol
    requires Within(a, price, tol)
    ensures Within(a', price', tol)
  {
    WithinIsAThreshold(a, price, tol);
    WithinIsAThreshold(a', price', tol);
    assert tol * a <= tol * a';
  }

  lemma {:induction false} LeaderOf(groups: seq<nat>, i: nat) returns (q: nat)
    requires i < |groups|
    ensures q <= i && groups[q] == groups[i] && LeadsGroup(groups, q)
    decreases i
  {
    if LeadsGroup(groups, i) {
      q := i;
    } else {
      var k :| 0 <= k < i && groups[k] == groups[i];
      q := LeaderOf(groups, k);
    }
  }

  /** No valid group can hold two of the greedy starts. */
  lemma StartsAreKeptApart(p: seq<real>, tol: real, groups: seq<nat>, m: nat, j: nat, k: nat)
    requires IsSorted(p) && (forall i | 0 <= i < |p| :: p[i] > 0.0) && 0.0 <= tol
    requires |groups| == |p| && ValidGrouping(p, tol, groups, m)
    requires j < k < |Starts(p, tol, |p|)|
    ensures groups[Starts(p, tol, |p|)[j]] != groups[Starts(p, tol, |p|)[k]]
  {
    var s := Starts(p, tol, |p|);
    NeighbouringStartsAreOutOfTolerance(p, tol, |p|, j);
    StartsIncrease(p, tol, |p|);
    var a, b, c := s[j], s[j + 1], s[k];
    assert a < b <= c;
    hide Within, Starts;
    if groups[a] == groups[c] { SharedGroupIsWithin(p, tol, groups, m, a, b, c); }
  }

  /** Were two prices in one valid group, every price between them would be within reach of the lower. */
  lemma SharedGroupIsWithin(p: seq<real>, tol: real, groups: seq<nat>, m: nat, a: nat, b: nat, c: nat)
    requires IsSorted(p) && (forall i | 0 <= i < |p| :: p[i] > 0.0) && 0.0 <= tol
    requires |groups| == |p| && ValidGrouping(p, tol, groups, m)
    requires a < b <= c < |p| && groups[a] == groups[c]
    ensures Within(p[a], p[b], tol)
  {
    var q := LeaderOf(groups, a);
    assert Within(p[q], p[c], tol);
    assert p[q] <= p[a] <= p[b] <= p[c];
    hide Within, ValidGrouping, IsSorted;
    CloserAnchors(p[q], p[a], p[c], p[b], tol);
  }

  /**
   Optimality: the groups partition the prices, and no valid grouping, contiguous or not,
   uses fewer of them.
   */
  lemma GreedyUsesTheFewestGroups(p: seq<real>, tol: real, groups: seq<nat>, m: nat)
    requires IsSorted(p) && (forall i | 0 <= i < |p| :: p[i] > 0.0) && 0.0 <= tol
    requires |groups| == |p| && ValidGrouping(p, tol, groups, m)
    ensures |Groups(p, tol, |p|)| <= m
    ensures Flatten(Groups(p, tol, |p|)) == p
  {
    var n := |p|;
    GroupsPartitionThePrices(p, tol, n);
    assert p[..n] == p;
    GroupsAreTheRuns(p, tol, n);
    StartsFit(p, tol, groups, m);
    hide Groups, Starts, Flatten, ValidGrouping;
  }

  lemma StartsFit(p: seq<real>, tol: real, groups: seq<nat>, m: nat)
    requires IsSorted(p) && (forall i | 0 <= i < |p| :: p[i] > 0.0) && 0.0 <= tol
    requires |groups| == |p| && ValidGrouping(p, tol, groups, m)
    ensures |Starts(p, tol, |p|)| <= m
  {
    var s := Starts(p, tol, |p|);
    var xs := seq(|s|, k requires 0 <= k < |s| => groups[s[k]]);
    assert forall k | 0 <= k < |xs| :: xs[k] < m;
    forall j, k | 0 <= j < k < |xs| ensures xs[j] != xs[k] {
      StartsAreKeptApart(p, tol, groups, m, j, k);
    }
    hide Starts, ValidGrouping;
    DistinctNatsFit(xs, m);
  }

  /** The groups, numbered, are such a grouping. */
  lemma GreedyIsValid(p: seq<real>, tol: real)
    requires (forall i | 0 <= i < |p| :: p[i] > 0.0) && 0.0 <= tol
    ensures ValidGrouping(p, tol, Grouping(p, tol, |p|), |Groups(p, tol, |p|)|)
    ensures NumbersTheGroups(Groups(p, tol, |p|), Starts(p, tol, |p|), Grouping(p, tol, |p|), p)
  {
    GroupingNumbersTheGroups(p, tol);
    hide Within, Starts, Grouping;
    var s, g := Starts(p, tol, |p|), Grouping(p, tol, |p|);
    forall i | 0 <= i < |g| ensures g[i] < |s| { MembersAreWithin(p, tol, |p|, i); }
    forall i, j | 0 <= i <= j < |g| && g[i] == g[j] && LeadsGroup(g, i) ensures Within(p[i], p[j], tol) {
      MembersAreWithin(p, tol, |p|, i);
      MembersAreWithin(p, tol, |p|, j);
      StartsAreNumbered(p, tol, |p|, g[i]);
    }
  }

  // ---------------------------------------------------------------- what is published

  predicate AllPositive(p: seq<real>)
  {
    forall i | 0 <= i < |p| :: p[i] > 0.0
  }

  /** What every prefix of the grouping keeps. */
  predicate InOrder(gs: seq<seq<real>>, tol: real)
  {
    && (forall k | 0 <= k < |gs| :: gs[k] != [] && IsSorted(gs[k]) && Within(gs[k][0], gs[k][|gs[k]| - 1], tol))
    && (forall k | 0 <= k < |gs| - 1 :: gs[k][|gs[k]| - 1] < gs[k + 1][0])
  }

  lemma OpenGroup(gs: seq<seq<real>>, tol: real, price: real)
    requires InOrder(gs, tol) && 0.0 < price && 0.0 <= tol
    requires gs != [] ==> gs[|gs| - 1][|gs[|gs| - 1]| - 1] < price
    ensures InOrder(gs + [[price]], tol)
  {
    WithinItself(price, tol);
    hide Within;
    var gs' := gs + [[price]];
    assert forall k | 0 <= k < |gs| :: gs'[k] == gs[k];
    assert IsSorted([price]);
  }

  lemma JoinGroup(gs: seq<seq<real>>, tol: real, price: real)
    requires InOrder(gs, tol) && gs != []
    requires var last := gs[|gs| - 1]; last[|last| - 1] <= price && Within(last[0], price, tol)
    ensures InOrder(gs[|gs| - 1 := gs[|gs| - 1] + [price]], tol)
  {
  }

  /** The groups cut the sorted prices into consecutive runs within tolerance, each below the next. */
  lemma {:induction false} GroupsRunInOrder(p: seq<real>, tol: real, n: nat)
    requires IsSorted(p) && AllPositive(p) && 0.0 <= tol && n <= |p|
    ensures InOrder(Groups(p, tol, n), tol)
    ensures var gs := Groups(p, tol, n); n > 0 ==> gs[|gs| - 1][|gs[|gs| - 1]| - 1] == p[n - 1]
  {
    if n > 0 {
      hide Within, InOrder;
      GroupsRunInOrder(p, tol, n - 1);
      var gs := Groups(p, tol, n - 1);
      if n == 1 {
        EmptyIsInOrder(tol);
        OpenGroup([], tol, p[0]);
      } else if Within(gs[|gs| - 1][0], p[n - 1], tol) {
        JoinGroup(gs, tol, p[n - 1]);
      } else {
        LastIsWithin(gs, tol);
        OpenGroup(gs, tol, p[n - 1]);
      }
    }
  }

  lemma EmptyIsInOrder(tol: real)
    ensures InOrder([], tol)
  {
  }

  lemma LastIsWithin(gs: seq<seq<real>>, tol: real)
    requires InOrder(gs, tol) && gs != []
    ensures var last := gs[|gs| - 1]; last != [] && Within(last[0], last[|last| - 1], tol)
  {
  }

  /** Disjoint, ascending price ranges. */
  predicate DisjointRanges(ls: seq<Level>)
  {
    && (forall i | 0 <= i < |ls| :: ls[i].low <= ls[i].high)
    && (forall i, j | 0 <= i < j < |ls| :: ls[i].high < ls[j].low)
  }

  predicate AllBelow(ls: seq<Level>, top: real)
  {
    forall i | 0 <= i < |ls| :: ls[i].high <= top
  }

  /** Published pools of one kind are disjoint, ascending price ranges... */
  lemma {:induction false} PoolsAreDisjoint(gs: seq<seq<real>>, isHigh: bool, tol: real)
    requires InOrder(gs, tol)
    ensures DisjointRanges(PoolsOf(gs, isHigh))
    ensures if gs == [] then PoolsOf(gs, isHigh) == []
            else AllBelow(PoolsOf(gs, isHigh), gs[|gs| - 1][|gs[|gs| - 1]| - 1])
  {
    if gs != [] {
      var n := |gs| - 1;
      PrefixIsInOrder(gs, tol);
      PoolsAreDisjoint(gs[..n], isHigh, tol);
      var before, group := PoolsOf(gs[..n], isHigh), gs[n];
      assert PoolsOf(gs, isHigh) == before + PoolOf(group, isHigh);
      if n > 0 { assert gs[..n][n - 1] == gs[n - 1]; }
      hide PoolsOf, InOrder, DisjointRanges, AllBelow, PoolOf;
      var top := if n > 0 then gs[n - 1][|gs[n - 1]| - 1] else group[0] - 1.0;
      if n == 0 { NothingBelow(before, top); }
      OneMorePool(before, group, isHigh, top);
    }
  }

  lemma PrefixIsInOrder(gs: seq<seq<real>>, tol: real)
    requires InOrder(gs, tol) && gs != []
    ensures var n := |gs| - 1;
      && InOrder(gs[..n], tol)
      && gs[n] != [] && gs[n][0] <= gs[n][|gs[n]| - 1]
      && (n > 0 ==> gs[n - 1] != [] && gs[n - 1][|gs[n - 1]| - 1] < gs[n][0])
  {
    hide Within;
    var n := |gs| - 1;
    if n > 0 { assert gs[n - 1 + 1] == gs[n]; }
    assert forall k | 0 <= k < n :: gs[..n][k] == gs[k];
  }

  lemma NothingBelow(ls: seq<Level>, top: real)
    requires ls == []
    ensures DisjointRanges(ls) && AllBelow(ls, top)
  {
  }

  lemma OneMorePool(before: seq<Level>, group: seq<real>, isHigh: bool, top: real)
    requires DisjointRanges(before) && AllBelow(before, top)
    requires group != [] && top < group[0] <= group[|group| - 1]
    ensures DisjointRanges(before + PoolOf(group, isHigh)) && AllBelow(before + PoolOf(group, isHigh), group[|group| - 1])
  {
  }

  /** The level is the price range of a group of two or more swings. */
  predicate IsRangeOf(group: seq<real>, isHigh: bool, l: Level)
  {
    |group| >= 2 && l == Level(group[0], group[|group| - 1], isHigh)
  }

  lemma OnePool(group: seq<real>, isHigh: bool, l: Level)
    ensures l in PoolOf(group, isHigh) <==> IsRangeOf(group, isHigh, l)
  {
  }

  /** ...and exactly the groups of two or more swings. */
  lemma {:induction false} PoolsAreTheGroupsOfTwoOrMore(gs: seq<seq<real>>, isHigh: bool, l: Level)
    ensures l in PoolsOf(gs, isHigh) <==> exists k | 0 <= k < |gs| :: IsRangeOf(gs[k], isHigh, l)
  {
    hide PoolOf, IsRangeOf;
    if gs != [] {
      var before, last := gs[..|gs| - 1], gs[|gs| - 1];
      PoolsAreTheGroupsOfTwoOrMore(before, isHigh, l);
      OnePool(last, isHigh, l);
      assert forall k | 0 <= k < |before| :: gs[k] == before[k];
      assert PoolsOf(gs, isHigh) == PoolsOf(before, isHigh) + PoolOf(last, isHigh);
    }
  }

  /** The range of one group of two or more swings of the level's kind. */
  predicate IsRangeOfAGroup(gs: seq<seq<real>>, l: Level)
  {
    exists k | 0 <= k < |gs| :: IsRangeOf(gs[k], l.isHigh, l)
  }

  lemma {:induction false} KindsStayApart(gs: seq<seq<real>>, isHigh: bool)
    ensures forall l | l in PoolsOf(gs, isHigh) :: l.isHigh == isHigh
  {
    if gs != [] { KindsStayApart(gs[..|gs| - 1], isHigh); }
  }

  /** A single swing makes no pool, with or without the early return. */
  lemma FewSwingsMakeNoPool(swings: seq<SwingPoint>, tol: real, isHigh: bool)
    requires |swings| < 2
    ensures PoolsOf(GroupsOf(swings, tol, isHigh), isHigh) == []
  {
    var p := Sorted(Prices(swings, isHigh));
    EverySwingHasAKind(swings);
    GroupsPartitionThePrices(p, tol, |p|);
    FewPricesMakeNoPool(Groups(p, tol, |p|), isHigh);
    hide PoolsOf, Groups, Flatten, Sorted, Prices;
  }

  lemma {:induction false} FewPricesMakeNoPool(gs: seq<seq<real>>, isHigh: bool)
    requires |Flatten(gs)| < 2
    ensures PoolsOf(gs, isHigh) == []
  {
    if gs != [] { FewPricesMakeNoPool(gs[..|gs| - 1], isHigh); }
  }

  /**
   The published pools are exactly the groups of two or more swings of one kind, each as its
   price range; the pools of a kind are disjoint and ascending.
   */
  lemma PublishedPools(swings: seq<SwingPoint>, tol: real)
    requires AllPositive(Prices(swings, true)) && AllPositive(Prices(swings, false)) && 0.0 < tol
    ensures forall l :: l in AllPools(swings, tol) <==> IsRangeOfAGroup(GroupsOf(swings, tol, l.isHigh), l)
    ensures forall isHigh :: DisjointRanges(PoolsOf(GroupsOf(swings, tol, isHigh), isHigh))
    ensures AllPools(swings, tol) == PoolsOf(GroupsOf(swings, tol, true), true) + PoolsOf(GroupsOf(swings, tol, false), false)
  {
    hide GroupsOf, PoolsOf, DisjointRanges;
    if |swings| < 2 {
      FewSwingsMakeNoPool(swings, tol, true);
      FewSwingsMakeNoPool(swings, tol, false);
    }
    KindsStayApart(GroupsOf(swings, tol, true), true);
    KindsStayApart(GroupsOf(swings, tol, false), false);
    forall l: Level ensures l in PoolsOf(GroupsOf(swings, tol, l.isHigh), l.isHigh) <==> IsRangeOfAGroup(GroupsOf(swings, tol, l.isHigh), l) {
      PoolsAreTheGroupsOfTwoOrMore(GroupsOf(swings, tol, l.isHigh), l.isHigh, l);
    }
    forall isHigh ensures DisjointRanges(PoolsOf(GroupsOf(swings, tol, isHigh), isHigh)) {
      PoolsOfAKindAreDisjoint(swings, tol, isHigh);
    }
  }

  lemma PoolsOfAKindAreDisjoint(swings: seq<SwingPoint>, tol: real, isHigh: bool)
    requires AllPositive(Prices(swings, isHigh)) && 0.0 < tol
    ensures DisjointRanges(PoolsOf(GroupsOf(swings, tol, isHigh), isHigh))
  {
    var p := Sorted(Prices(swings, isHigh));
    forall i | 0 <= i < |p| ensures p[i] > 0.0 {
      assert p[i] in multiset(p);
      assert p[i] in Prices(swings, isHigh);
    }
    GroupsRunInOrder(p, tol, |p|);
    PoolsAreDisjoint(GroupsOf(swings, tol, isHigh), isHigh, tol);
  }

  /** The pools depend only on which prices were swings of which kind, not on their order in time. */
  lemma PoolsIgnoreTheOrderOfSwings(a: seq<SwingPoint>, b: seq<SwingPoint>, tol: real)
    requires multiset(Prices(a, true)) == multiset(Prices(b, true))
    requires multiset(Prices(a, false)) == multiset(Prices(b, false))
    ensures AllPools(a, tol) == AllPools(b, tol)
  {
    hide Prices, Sorted, Groups, PoolsOf;
    SortedDependsOnTheMultisetOnly(Prices(a, true), Prices(b, true));
    SortedDependsOnTheMultisetOnly(Prices(a, false), Prices(b, false));
    EverySwingHasAKind(a);
    EverySwingHasAKind(b);
    assert |Prices(a, true)| == |multiset(Prices(a, true))| && |Prices(b, true)| == |multiset(Prices(b, true))|;
    assert |Prices(a, false)| == |multiset(Prices(a, false))| && |Prices(b, false)| == |multiset(Prices(b, false))|;
  }

  lemma {:induction false} EverySwingHasAKind(swings: seq<SwingPoint>)
    ensures |Prices(swings, true)| + |Prices(swings, false)| == |swings|
  {
    if swings != [] { EverySwingHasAKind(swings[..|swings| - 1]); }
  }

  // ---------------------------------------------------------------- pools in terms of the swings

  /** The positions of the swings of one kind at one price. */
  function At(swings: seq<SwingPoint>, isHigh: bool, price: real): set<nat>
  {
    set i | 0 <= i < |swings| && StandsAt(swings[i], isHigh, price)
  }

  predicate StandsAt(s: SwingPoint, isHigh: bool, price: real)
  {
    s.isHigh == isHigh && s.price == price
  }

  lemma OneMoreAt(swings: seq<SwingPoint>, isHigh: bool, price: real)
    requires swings != []
    ensures var n := |swings| - 1;
      |At(swings, isHigh, price)| == |At(swings[..n], isHigh, price)| + if StandsAt(swings[n], isHigh, price) then 1 else 0
  {
    var n := |swings| - 1;
    var before := At(swings[..n], isHigh, price);
    assert At(swings, isHigh, price) == before + if StandsAt(swings[n], isHigh, price) then {n} else {};
    assert n !in before;
  }

  lemma OneMorePriced(swings: seq<SwingPoint>, isHigh: bool, price: real)
    requires swings != []
    ensures var n := |swings| - 1;
      multiset(Prices(swings, isHigh))[price] == multiset(Prices(swings[..n], isHigh))[price] + if StandsAt(swings[n], isHigh, price) then 1 else 0
  {
    var n := |swings| - 1;
    var before := Prices(swings[..n], isHigh);
    assert Prices(swings, isHigh) == before + if swings[n].isHigh == isHigh then [swings[n].price] else [];
    hide Prices;
  }

  lemma {:induction false} PricesCountTheSwings(swings: seq<SwingPoint>, isHigh: bool, price: real)
    ensures multiset(Prices(swings, isHigh))[price] == |At(swings, isHigh, price)|
  {
    if swings != [] {
      hide At, Prices;
      OneMoreAt(swings, isHigh, price);
      OneMorePriced(swings, isHigh, price);
      PricesCountTheSwings(swings[..|swings| - 1], isHigh, price);
    }
  }

  /** The groups hold each price as often as swings of the kind stand there. */
  lemma GroupsCountTheSwings(swings: seq<SwingPoint>, tol: real, isHigh: bool, price: real)
    ensures multiset(Flatten(GroupsOf(swings, tol, isHigh)))[price] == |At(swings, isHigh, price)|
  {
    var p := Sorted(Prices(swings, isHigh));
    GroupsPartitionThePrices(p, tol, |p|);
    assert p[..|p|] == p;
    PricesCountTheSwings(swings, isHigh, price);
    hide Groups, Flatten, Sorted, Prices, At;
  }

  lemma {:induction false} CountInGroups(gs: seq<seq<real>>, k: nat, price: real)
    requires k < |gs|
    ensures multiset(gs[k])[price] <= multiset(Flatten(gs))[price]
  {
    var n := |gs| - 1;
    if k < n { CountInGroups(gs[..n], k, price); }
  }

  lemma SomewhereAt(swings: seq<SwingPoint>, isHigh: bool, price: real) returns (i: nat)
    requires 0 < |At(swings, isHigh, price)|
    ensures i < |swings| && swings[i].isHigh == isHigh && swings[i].price == price
  {
    assert At(swings, isHigh, price) != {};
    i :| i in At(swings, isHigh, price);
  }

  lemma TwiceAt(swings: seq<SwingPoint>, isHigh: bool, price: real) returns (i: nat, j: nat)
    requires 2 <= |At(swings, isHigh, price)|
    ensures i < |swings| && swings[i].isHigh == isHigh && swings[i].price == price
    ensures j < |swings| && swings[j].isHigh == isHigh && swings[j].price == price && i != j
  {
    i := SomewhereAt(swings, isHigh, price);
    var rest := At(swings, isHigh, price) - {i};
    assert |rest| == |At(swings, isHigh, price)| - 1;
    assert rest != {};
    j :| j in rest;
  }

  /** Two different swings of the level's kind stand at its two ends. */
  predicate EndsAreSwings(swings: seq<SwingPoint>, l: Level)
  {
    exists i, j | 0 <= i < |swings| && 0 <= j < |swings| :: i != j && StandsAt(swings[i], l.isHigh, l.low) && StandsAt(swings[j], l.isHigh, l.high)
  }

  lemma EndsOf(g: seq<real>)
    requires |g| >= 2
    ensures 1 <= multiset(g)[g[0]] && 1 <= multiset(g)[g[|g| - 1]]
    ensures g[0] == g[|g| - 1] ==> 2 <= multiset(g)[g[0]]
  {
    assert g == [g[0]] + g[1..|g| - 1] + [g[|g| - 1]];
  }

  lemma GroupsOfTwoHaveTwoEnds(swings: seq<SwingPoint>, tol: real, isHigh: bool, k: nat)
    requires var gs := GroupsOf(swings, tol, isHigh); k < |gs| && |gs[k]| >= 2
    ensures var g := GroupsOf(swings, tol, isHigh)[k]; EndsAreSwings(swings, Level(g[0], g[|g| - 1], isHigh))
  {
    hide GroupsOf, Flatten, At;
    var gs := GroupsOf(swings, tol, isHigh);
    var g := gs[k];
    var lo, hi := g[0], g[|g| - 1];
    GroupsCountTheSwings(swings, tol, isHigh, lo);
    GroupsCountTheSwings(swings, tol, isHigh, hi);
    CountInGroups(gs, k, lo);
    CountInGroups(gs, k, hi);
    EndsOf(g);
    var i, j;
    if lo == hi {
      i, j := TwiceAt(swings, isHigh, lo);
    } else {
      i := SomewhereAt(swings, isHigh, lo);
      j := SomewhereAt(swings, isHigh, hi);
    }
    assert StandsAt(swings[i], isHigh, lo) && StandsAt(swings[j], isHigh, hi);
  }

  lemma GroupsAreInOrder(swings: seq<SwingPoint>, tol: real, isHigh: bool)
    requires AllPositive(Prices(swings, isHigh)) && 0.0 < tol
    ensures InOrder(GroupsOf(swings, tol, isHigh), tol)
    ensures forall k | 0 <= k < |GroupsOf(swings, tol, isHigh)| :: GroupsOf(swings, tol, isHigh)[k] != [] && 0.0 < GroupsOf(swings, tol, isHigh)[k][0]
  {
    var p := Sorted(Prices(swings, isHigh));
    forall i | 0 <= i < |p| ensures p[i] > 0.0 {
      assert p[i] in multiset(p);
      assert p[i] in Prices(swings, isHigh);
    }
    GroupsRunInOrder(p, tol, |p|);
    GroupsPartitionThePrices(p, tol, |p|);
    assert p[..|p|] == p;
    var gs := GroupsOf(swings, tol, isHigh);
    forall k | 0 <= k < |gs| ensures gs[k] != [] && 0.0 < gs[k][0] {
      CountInGroups(gs, k, gs[k][0]);
      assert gs[k][0] in multiset(gs[k]);
      assert gs[k][0] in p;
    }
    hide Groups, Flatten, InOrder, Sorted, Prices;
  }

  predicate PositiveSwings(swings: seq<SwingPoint>)
  {
    forall i | 0 <= i < |swings| :: 0.0 < swings[i].price
  }

  lemma {:induction false} PositivePrices(swings: seq<SwingPoint>, isHigh: bool)
    requires PositiveSwings(swings)
    ensures AllPositive(Prices(swings, isHigh))
  {
    if swings != [] { PositivePrices(swings[..|swings| - 1], isHigh); }
  }

  /**
   A published pool spans swings of its own kind: two different ones stand at its two ends, the
   lower end first, and they are within the tolerance of each other.
   */
  lemma PoolsSpanTheirOwnSwings(swings: seq<SwingPoint>, tol: real, l: Level)
    requires PositiveSwings(swings) && 0.0 < tol
    requires l in AllPools(swings, tol)
    ensures EndsAreSwings(swings, l)
    ensures 0.0 < l.low <= l.high && (l.high - l.low) * 100.0 <= tol * l.low
  {
    hide AllPools, PoolsOf, DisjointRanges, GroupsOf, EndsAreSwings, Prices, AllPositive, Within, InOrder;
    PositivePrices(swings, true);
    PositivePrices(swings, false);
    PublishedPools(swings, tol);
    var gs := GroupsOf(swings, tol, l.isHigh);
    var k :| 0 <= k < |gs| && IsRangeOf(gs[k], l.isHigh, l);
    GroupsOfTwoHaveTwoEnds(swings, tol, l.isHigh, k);
    GroupsAreInOrder(swings, tol, l.isHigh);
    AGroupInOrder(gs, tol, k, l.low);
    WithinIsAThreshold(l.low, l.high, tol);
  }

  lemma AGroupInOrder(gs: seq<seq<real>>, tol: real, k: nat, x: real)
    requires InOrder(gs, tol) && k < |gs|
    ensures var g := gs[k]; g != [] && g[0] <= g[|g| - 1] && Within(g[0], g[|g| - 1], tol) && (x in g ==> g[0] <= x <= g[|g| - 1])
  {
    hide Within;
    assert IsSorted(gs[k]);
  }

  /** All the groups before the last lie below it. */
  lemma {:induction false} EarlierGroupsLieBelow(gs: seq<seq<real>>, tol: real, top: real, x: real)
    requires InOrder(gs, tol) && (gs != [] ==> gs[|gs| - 1][|gs[|gs| - 1]| - 1] < top) && x in Flatten(gs)
    ensures x < top
  {
    hide Within;
    var n := |gs| - 1;
    if x in gs[n] {
      assert IsSorted(gs[n]);
    } else {
      PrefixIsInOrder(gs, tol);
      hide InOrder;
      EarlierGroupsLieBelow(gs[..n], tol, gs[n][0], x);
    }
  }

  /** A price that occurs twice occurs twice in one group. */
  lemma {:induction false} TwiceInOneGroup(gs: seq<seq<real>>, tol: real, x: real) returns (k: nat)
    requires InOrder(gs, tol) && 2 <= multiset(Flatten(gs))[x]
    ensures k < |gs| && 2 <= |gs[k]| && x in gs[k]
  {
    k := |gs| - 1;
    if multiset(gs[k])[x] >= 2 {
      assert |multiset(gs[k])| == |gs[k]|;
      assert multiset(gs[k])[x] <= |gs[k]| by { CountIsBounded(gs[k], x); }
    } else {
      PrefixIsInOrder(gs, tol);
      assert multiset(Flatten(gs))[x] == multiset(Flatten(gs[..k]))[x] + multiset(gs[k])[x];
      if x in gs[k] {
        assert x in Flatten(gs[..k]);
        BelowTheLastGroup(gs, tol, x);
      }
      k := TwiceInOneGroup(gs[..k], tol, x);
    }
  }

  lemma CountIsBounded(s: seq<real>, x: real)
    ensures multiset(s)[x] <= |s|
  {
    var ms := multiset(s);
    assert |ms[x := 0]| == |ms| - ms[x];
  }

  lemma BelowTheLastGroup(gs: seq<seq<real>>, tol: real, x: real)
    requires InOrder(gs, tol) && gs != [] && x in Flatten(gs[..|gs| - 1])
    ensures x !in gs[|gs| - 1]
  {
    var n := |gs| - 1;
    PrefixIsInOrder(gs, tol);
    EarlierGroupsLieBelow(gs[..n], tol, gs[n][0], x);
    assert IsSorted(gs[n]);
    hide Within, Flatten;
  }

  lemma TwoAtAPriceShareAGroup(swings: seq<SwingPoint>, tol: real, i: nat, j: nat) returns (l: Level)
    requires i < j < |swings| && AllPositive(Prices(swings, swings[i].isHigh)) && 0.0 < tol
    requires swings[i].isHigh == swings[j].isHigh && swings[i].price == swings[j].price
    ensures l.isHigh == swings[i].isHigh && l.low <= swings[i].price <= l.high
    ensures IsRangeOfAGroup(GroupsOf(swings, tol, l.isHigh), l)
  {
    var isHigh, x := swings[i].isHigh, swings[i].price;
    hide GroupsOf, Prices, AllPositive, Within, Flatten, InOrder, At, IsRangeOf;
    TwoStandAt(swings, i, j);
    GroupsCountTheSwings(swings, tol, isHigh, x);
    GroupsAreInOrder(swings, tol, isHigh);
    var gs := GroupsOf(swings, tol, isHigh);
    var k := TwiceInOneGroup(gs, tol, x);
    l := LevelOf(gs, tol, k, x, isHigh);
  }

  /** The level of a group of two or more that holds a price. */
  lemma LevelOf(gs: seq<seq<real>>, tol: real, k: nat, x: real, isHigh: bool) returns (l: Level)
    requires InOrder(gs, tol) && k < |gs| && 2 <= |gs[k]| && x in gs[k]
    ensures l.isHigh == isHigh && l.low <= x <= l.high && IsRangeOfAGroup(gs, l)
  {
    hide InOrder, Within, IsRangeOf;
    AGroupInOrder(gs, tol, k, x);
    l := Level(gs[k][0], gs[k][|gs[k]| - 1], isHigh);
    RangeOf(gs[k], isHigh);
  }

  /** Two swings of one kind at one price are published: some pool of the kind spans that price. */
  lemma TwoAtAPriceAreAPool(swings: seq<SwingPoint>, tol: real, i: nat, j: nat)
    requires PositiveSwings(swings) && 0.0 < tol
    requires i < j < |swings| && swings[i].isHigh == swings[j].isHigh && swings[i].price == swings[j].price
    ensures exists l :: l in AllPools(swings, tol) && l.isHigh == swings[i].isHigh && l.low <= swings[i].price <= l.high
  {
    hide AllPools, PoolsOf, DisjointRanges, GroupsOf, Prices, AllPositive, IsRangeOfAGroup;
    PositivePrices(swings, true);
    PositivePrices(swings, false);
    PublishedPools(swings, tol);
    var l := TwoAtAPriceShareAGroup(swings, tol, i, j);
    assert l in AllPools(swings, tol);
  }

  lemma RangeOf(g: seq<real>, isHigh: bool)
    requires 2 <= |g|
    ensures IsRangeOf(g, isHigh, Level(g[0], g[|g| - 1], isHigh))
  {
  }

  lemma TwoStandAt(swings: seq<SwingPoint>, i: nat, j: nat)
    requires i < j < |swings| && swings[i].isHigh == swings[j].isHigh && swings[i].price == swings[j].price
    ensures 2 <= |At(swings, swings[i].isHigh, swings[i].price)|
  {
    var all := At(swings, swings[i].isHigh, swings[i].price);
    assert {i, j} <= all;
    SubsetIsSmaller({i, j}, all);
    assert |{i, j}| == 2;
  }

  lemma SubsetIsSmaller(a: set<nat>, b: set<nat>)
    requires a <= b
    ensures |a| <= |b|
  {
    assert b == a + (b - a);
  }
}
