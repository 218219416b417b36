/**
 The bounded candle window of one timeframe, against the unbounded list it stands for:
 append a newer bar, overwrite the same bar, drop an older one.
 */
module Ring {
  import opened Bars

  /** Bars retained per timeframe. */
  const CAPACITY: nat := 600

  function Last(buf: seq<Candle>): Candle
    requires buf != []
  {
    buf[|buf| - 1]
  }

  /** The simple list: no bound. */
  function Push(buf: seq<Candle>, c: Candle): seq<Candle>
  {
    if buf == [] || Last(buf).closeTime < c.closeTime then buf + [c]
    else if Last(buf).closeTime == c.closeTime then buf[|buf| - 1 := c]
    else buf
  }

  /** `push_candle` on one window. */
  function PushBounded(buf: seq<Candle>, c: Candle): seq<Candle>
  {
    if buf != [] && Last(buf).closeTime == c.closeTime then buf[|buf| - 1 := c]
    else if buf != [] && Last(buf).closeTime > c.closeTime then buf
    else if |buf| >= CAPACITY then buf[1..] + [c]
    else buf + [c]
  }

  function PushAll(buf: seq<Candle>, cs: seq<Candle>): seq<Candle>
  {
    if cs == [] then buf else Push(PushAll(buf, cs[..|cs| - 1]), cs[|cs| - 1])
  }

  function PushAllBounded(buf: seq<Candle>, cs: seq<Candle>): seq<Candle>
  {
    if cs == [] then buf else PushBounded(PushAllBounded(buf, cs[..|cs| - 1]), cs[|cs| - 1])
  }

  function Newest<T>(buf: seq<T>, n: nat): seq<T>
  {
    if |buf| <= n then buf else buf[|buf| - n..]
  }

  predicate Ascending(buf: seq<Candle>)
  {
    forall i, j | 0 <= i < j < |buf| :: buf[i].closeTime < buf[j].closeTime
  }

  // ---------------------------------------------------------------- refinement

  lemma PushRefines(full: seq<Candle>, c: Candle)
    ensures PushBounded(Newest(full, CAPACITY), c) == Newest(Push(full, c), CAPACITY)
  {
  }

  /** Whatever is pushed, the window is the newest entries of the unbounded list. */
  lemma {:induction false} WindowIsTheNewestOfTheList(full: seq<Candle>, cs: seq<Candle>)
    ensures PushAllBounded(Newest(full, 600), cs) == Newest(PushAll(full, cs), 600)
  {
    if cs != [] {
      WindowIsTheNewestOfTheList(full, cs[..|cs| - 1]);
      PushRefines(PushAll(full, cs[..|cs| - 1]), cs[|cs| - 1]);
    }
  }

  lemma {:induction false} PushAllSplits(buf: seq<Candle>, a: seq<Candle>, b: seq<Candle>)
    ensures PushAll(buf, a + b) == PushAll(PushAll(buf, a), b)
    ensures PushAllBounded(buf, a + b) == PushAllBounded(PushAllBounded(buf, a), b)
  {
    if b == [] {
      assert a + b == a;
    } else {
      PushAllSplits(buf, a, b[..|b| - 1]);
      assert (a + b)[..|a + b| - 1] == a + b[..|b| - 1];
    }
  }

  // ---------------------------------------------------------------- what the list holds

  /** No earlier bar of the history closes later. */
  predicate Accepted(history: seq<Candle>, i: nat)
  {
    i < |history| && forall j | 0 <= j < i :: history[j].closeTime <= history[i].closeTime
  }

  /** Accepted, and not replaced by a later replay of the same bar. */
  predicate Survives(history: seq<Candle>, i: nat)
  {
    && Accepted(history, i)
    && forall k | i < k < |history| && history[k].closeTime == history[i].closeTime :: !Accepted(history, k)
  }

  /** The positions of the history whose bars the list holds, oldest first. */
  function Kept(history: seq<Candle>): (ks: seq<nat>)
    ensures forall j | 0 <= j < |ks| :: ks[j] < |history|
  {
    if history == [] then []
    else
      var n := |history| - 1;
      var ks := Kept(history[..n]);
      if ks == [] || history[ks[|ks| - 1]].closeTime < history[n].closeTime then ks + [n]
      else if history[ks[|ks| - 1]].closeTime == history[n].closeTime then ks[|ks| - 1 := n]
      else ks
  }

  lemma {:induction false} ListIsTheKept(history: seq<Candle>)
    ensures |PushAll([], history)| == |Kept(history)|
    ensures forall j | 0 <= j < |Kept(history)| :: PushAll([], history)[j] == history[Kept(history)[j]]
  {
    if history != [] {
      var before := history[..|history| - 1];
      ListIsTheKept(before);
      assert forall j | 0 <= j < |Kept(before)| :: before[Kept(before)[j]] == history[Kept(before)[j]];
    }
  }

  /** The close times at some positions. */
  function TimesAt(ks: seq<nat>, history: seq<Candle>): seq<int>
    requires forall j | 0 <= j < |ks| :: ks[j] < |history|
  {
    seq(|ks|, j requires 0 <= j < |ks| => history[ks[j]].closeTime)
  }

  predicate Rising(ts: seq<int>)
  {
    forall i, j | 0 <= i < j < |ts| :: ts[i] < ts[j]
  }

  predicate NoneAfter(history: seq<Candle>, t: int)
  {
    forall i | 0 <= i < |history| :: history[i].closeTime <= t
  }

  lemma OneMoreTime(ts: seq<int>, t: int)
    requires Rising(ts)
    ensures ts == [] || ts[|ts| - 1] < t ==> Rising(ts + [t])
    ensures ts != [] && ts[|ts| - 1] == t ==> ts[|ts| - 1 := t] == ts
  {
  }

  lemma KeptStep(history: seq<Candle>)
    requires history != []
    ensures var n := |history| - 1;
      var ks, t := Kept(history[..n]), history[n].closeTime;
      var ts := TimesAt(ks, history[..n]);
      && |ts| == |ks|
      && TimesAt(ks, history) == ts
      && Kept(history) == (if ts == [] || ts[|ts| - 1] < t then ks + [n] else if ts[|ts| - 1] == t then ks[|ks| - 1 := n] else ks)
      && TimesAt(Kept(history), history) == (if ts == [] || ts[|ts| - 1] < t then ts + [t] else if ts[|ts| - 1] == t then ts[|ts| - 1 := t] else ts)
  {
  }

  lemma {:induction false} KeptAscends(history: seq<Candle>)
    ensures var ts := TimesAt(Kept(history), history);
      && Rising(ts)
      && (history != [] ==> ts != [] && NoneAfter(history, ts[|ts| - 1]))
  {
    if history != [] {
      var n := |history| - 1;
      var before, t := history[..n], history[n].closeTime;
      hide Kept, Rising, NoneAfter;
      KeptAscends(before);
      KeptStep(history);
      OneMoreAscends(TimesAt(Kept(before), before), TimesAt(Kept(history), history), history);
      hide TimesAt;
    }
  }

  /** Times that rise to the newest so far still do once one more has been taken up. */
  lemma OneMoreAscends(ts: seq<int>, ts': seq<int>, history: seq<Candle>)
    requires history != [] && Rising(ts)
    requires if |history| == 1 then ts == [] else ts != [] && NoneAfter(history[..|history| - 1], ts[|ts| - 1])
    requires var t := history[|history| - 1].closeTime;
      ts' == if ts == [] || ts[|ts| - 1] < t then ts + [t] else if ts[|ts| - 1] == t then ts[|ts| - 1 := t] else ts
    ensures Rising(ts') && ts' != [] && NoneAfter(history, ts'[|ts'| - 1])
  {
    var n := |history| - 1;
    var before, newest := history[..n], ts'[|ts'| - 1];
    OneMoreTime(ts, history[n].closeTime);
    hide Rising, NoneAfter;
    if n == 0 { NoneBeforeAnyone(newest); } else { LaterStillNone(before, ts[|ts| - 1], newest); }
    NoneAfterOneMore(history, newest);
  }

  lemma NoneAfterOneMore(history: seq<Candle>, t: int)
    requires history != []
    ensures NoneAfter(history, t) <==> NoneAfter(history[..|history| - 1], t) && history[|history| - 1].closeTime <= t
  {
    assert forall i | 0 <= i < |history| - 1 :: history[..|history| - 1][i] == history[i];
  }

  lemma LaterStillNone(history: seq<Candle>, t: int, u: int)
    requires NoneAfter(history, t) && t <= u
    ensures NoneAfter(history, u)
  {
  }

  lemma NoneBeforeAnyone(t: int)
    ensures NoneAfter([], t)
  {
  }

  /** With `top` the time of a position and none after it, nothing is after `t` exactly when `top` is not. */
  lemma NewestDecides(history: seq<Candle>, k: nat, t: int)
    requires k < |history| && NoneAfter(history, history[k].closeTime)
    ensures NoneAfter(history, t) <==> history[k].closeTime <= t
  {
  }

  lemma AcceptedMeansNoneAfter(history: seq<Candle>)
    requires history != []
    ensures var n := |history| - 1;
      Accepted(history, n) <==> NoneAfter(history[..n], history[n].closeTime)
  {
    assert forall j | 0 <= j < |history| - 1 :: history[..|history| - 1][j] == history[j];
  }

  lemma SurvivingOneMore(history: seq<Candle>, i: nat)
    requires history != [] && i < |history| - 1
    ensures var n := |history| - 1;
      Survives(history, i) <==>
        Survives(history[..n], i) && !(Accepted(history, n) && history[n].closeTime == history[i].closeTime)
  {
  }

  lemma {:induction false} KeptAreTheSurvivors(history: seq<Candle>, i: nat)
    ensures i in Kept(history) <==> Survives(history, i)
  {
    if i >= |history| {
      assert forall j | 0 <= j < |Kept(history)| :: Kept(history)[j] != i;
    } else {
      var n := |history| - 1;
      NewestIsKeptIfAccepted(history);
      if i < n {
        KeptAreTheSurvivors(history[..n], i);
        SurvivingOneMore(history, i);
        KeptAfterOneMore(history, i);
      } else {
        assert Survives(history, n) <==> Accepted(history, n);
      }
      hide Kept, Survives, Accepted;
    }
  }

  /** A new bar is kept exactly when it is accepted: when no kept one is newer. */
  lemma {:induction false} NewestIsKeptIfAccepted(history: seq<Candle>)
    requires history != []
    ensures var n := |history| - 1;
      n in Kept(history) <==> Accepted(history, n)
  {
    var n := |history| - 1;
    var before, t := history[..n], history[n].closeTime;
    var ks := Kept(before);
    KeptAscends(before);
    KeptStep(history);
    AcceptedMeansNoneAfter(history);
    if before == [] { NoneBeforeAnyone(t); } else { NewestDecides(before, ks[|ks| - 1], t); }
    assert n !in ks by { assert forall j | 0 <= j < |ks| :: ks[j] != n; }
    LastIsIn(ks, n);
    hide Kept, Accepted, NoneAfter, Rising;
  }

  lemma LastIsIn(ks: seq<nat>, n: nat)
    ensures n in ks + [n]
    ensures ks != [] ==> n in ks[|ks| - 1 := n]
  {
    if ks != [] { assert ks[|ks| - 1 := n][|ks| - 1] == n; }
  }

  /** An older position stays kept unless the new bar replays the newest kept one, and that is it. */
  lemma {:induction false} KeptAfterOneMore(history: seq<Candle>, i: nat)
    requires history != [] && i < |history| - 1
    ensures var n := |history| - 1;
      i in Kept(history) <==>
        i in Kept(history[..n]) && !(Accepted(history, n) && history[n].closeTime == history[i].closeTime)
  {
    hide Kept, Accepted, NoneAfter, Rising, TimesAt;
    var n := |history| - 1;
    var before, t := history[..n], history[n].closeTime;
    var ks := Kept(before);
    var ts := TimesAt(ks, before);
    KeptAscends(before);
    KeptStep(history);
    TimesAtEach(ks, before);
    NoneAfterAt(before, ts[|ts| - 1], i);
    AcceptedMeansNoneAfter(history);
    NewestDecides(before, ks[|ks| - 1], t);
    TiesAreLast(ks, ts, i, history[i].closeTime, before);
    AllButTheLast(ks, n, i);
  }

  lemma TimesAtEach(ks: seq<nat>, history: seq<Candle>)
    requires forall j | 0 <= j < |ks| :: ks[j] < |history|
    ensures |TimesAt(ks, history)| == |ks| && forall j | 0 <= j < |ks| :: TimesAt(ks, history)[j] == history[ks[j]].closeTime
  {
  }

  lemma NoneAfterAt(history: seq<Candle>, t: int, i: nat)
    requires NoneAfter(history, t) && i < |history|
    ensures history[i].closeTime <= t
  {
  }

  /** Of the kept positions only the last has the newest time. */
  lemma TiesAreLast(ks: seq<nat>, ts: seq<int>, i: nat, t: int, before: seq<Candle>)
    requires ks != [] && |ts| == |ks| && Rising(ts) && i < |before| && before[i].closeTime == t
    requires forall j | 0 <= j < |ks| :: ks[j] < |before|
    requires forall j | 0 <= j < |ks| :: ts[j] == before[ks[j]].closeTime
    ensures i in ks && t == ts[|ts| - 1] ==> ks[|ks| - 1] == i
    ensures i in ks && t == ts[|ts| - 1] ==> !exists j | 0 <= j < |ks| - 1 :: ks[j] == i
    ensures i in ks && t < ts[|ts| - 1] ==> exists j | 0 <= j < |ks| - 1 :: ks[j] == i
  {
    if i in ks {
      var j :| 0 <= j < |ks| && ks[j] == i;
      assert ts[j] == t;
    }
  }

  lemma AllButTheLast(ks: seq<nat>, n: nat, i: nat)
    requires ks != [] && i != n
    ensures i in ks[|ks| - 1 := n] <==> exists j | 0 <= j < |ks| - 1 :: ks[j] == i
    ensures i in ks + [n] <==> i in ks
  {
    var ks' := ks[|ks| - 1 := n];
    forall j | 0 <= j < |ks| - 1 && ks[j] == i ensures i in ks' { assert ks'[j] == i; }
    if i in ks' { var j :| 0 <= j < |ks'| && ks'[j] == i; assert ks[j] == i; }
    if i in ks { assert i in ks + [n]; }
  }

  /**
   From an empty window the list is strictly ascending and holds exactly the bars of the
   history that were in order when they came and have not been replaced since.
   */
  lemma ListHoldsExactlyTheSurvivors(history: seq<Candle>)
    ensures Ascending(PushAll([], history))
    ensures forall c :: c in PushAll([], history) <==> exists i: nat :: Survives(history, i) && history[i] == c
  {
    ListIsTheKept(history);
    KeptAscends(history);
    TimesAscend(PushAll([], history), TimesAt(Kept(history), history));
    hide PushAll, Kept, Survives, Ascending, Rising;
    forall c ensures c in PushAll([], history) <==> exists i: nat :: Survives(history, i) && history[i] == c {
      ListHoldsSurvivors(history, c);
    }
  }

  lemma TimesAscend(list: seq<Candle>, ts: seq<int>)
    requires |list| == |ts| && Rising(ts) && forall j | 0 <= j < |list| :: list[j].closeTime == ts[j]
    ensures Ascending(list)
  {
  }

  lemma ListHoldsSurvivors(history: seq<Candle>, c: Candle)
    ensures c in PushAll([], history) <==> exists i: nat :: Survives(history, i) && history[i] == c
  {
    ListIsTheKept(history);
    assert forall i: nat | Survives(history, i) :: i < |history|;
    hide PushAll, Kept, Survives;
    var list, ks := PushAll([], history), Kept(history);
    if c in list {
      var j :| 0 <= j < |list| && list[j] == c;
      KeptAreTheSurvivors(history, ks[j]);
      assert Survives(history, ks[j]);
    }
    if i: nat :| Survives(history, i) && history[i] == c {
      KeptAreTheSurvivors(history, i);
      var j :| 0 <= j < |ks| && ks[j] == i;
      assert list[j] == c;
    }
  }

  // ---------------------------------------------------------------- safe refetch

  lemma {:induction false} PushAllReaches(buf: seq<Candle>, cs: seq<Candle>)
    ensures buf != [] || cs != [] ==> PushAll(buf, cs) != []
    ensures forall i | 0 <= i < |cs| :: cs[i].closeTime <= Last(PushAll(buf, cs)).closeTime
    ensures buf != [] ==> Last(buf).closeTime <= Last(PushAll(buf, cs)).closeTime
  {
    if cs != [] {
      PushAllReaches(buf, cs[..|cs| - 1]);
    }
  }

  /** A list whose last entry already is the newest of a batch is left alone by that batch. */
  lemma {:induction false} ReplayChangesOnlyTheLast(buf: seq<Candle>, cs: seq<Candle>)
    requires buf != [] && forall i | 0 <= i < |cs| :: cs[i].closeTime <= Last(buf).closeTime
    ensures var r := PushAll(buf, cs);
      && |r| == |buf| && r[..|r| - 1] == buf[..|buf| - 1] && Last(r).closeTime == Last(buf).closeTime
      && (Last(r) == Last(buf) || Last(r) in cs)
  {
    if cs != [] {
      ReplayChangesOnlyTheLast(buf, cs[..|cs| - 1]);
    }
  }

  /** The entry a batch leaves for its newest close time is the batch's last bar of that time. */
  lemma {:induction false} LastOfItsTime(buf: seq<Candle>, cs: seq<Candle>, t: int) returns (i: nat)
    requires buf != [] || cs != []
    requires Last(PushAll(buf, cs)).closeTime == t
    requires exists i | 0 <= i < |cs| :: cs[i].closeTime == t
    ensures i < |cs| && cs[i].closeTime == t && Last(PushAll(buf, cs)) == cs[i]
    ensures forall j | i < j < |cs| :: cs[j].closeTime != t
  {
    var n := |cs| - 1;
    PushAllReaches(buf, cs);
    if cs[n].closeTime == t {
      i := n;
    } else {
      var before := cs[..n];
      assert PushAll(buf, before) != [] && Last(PushAll(buf, before)).closeTime == t;
      assert exists i | 0 <= i < |before| :: before[i].closeTime == t;
      i := LastOfItsTime(buf, before, t);
      forall j | i < j < |cs| ensures cs[j].closeTime != t { if j < n { assert cs[j] == before[j]; } }
    }
  }

  /** The newest entry is the same after the second push: the batch's last bar of its time, both times. */
  lemma SameNewest(buf: seq<Candle>, cs: seq<Candle>)
    requires cs != []
    ensures var once := PushAll(buf, cs);
      once != [] && PushAll(once, cs) != [] && Last(PushAll(once, cs)) == Last(once)
  {
    hide PushAll;
    var once := PushAll(buf, cs);
    PushAllReaches(buf, cs);
    ReplayChangesOnlyTheLast(once, cs);
    if Last(PushAll(once, cs)) != Last(once) {
      var t := Last(once).closeTime;
      var i := LastOfItsTime(buf, cs, t);
      var j := LastOfItsTime(once, cs, t);
    }
  }

  /** Pushing ANY batch twice is pushing it once: refetching is always safe. */
  lemma RefetchIsIdempotent(buf: seq<Candle>, cs: seq<Candle>)
    ensures PushAll(PushAll(buf, cs), cs) == PushAll(buf, cs)
  {
    if cs != [] {
      hide PushAll;
      var once := PushAll(buf, cs);
      var twice := PushAll(once, cs);
      PushAllReaches(buf, cs);
      ReplayChangesOnlyTheLast(once, cs);
      SameNewest(buf, cs);
      assert once == once[..|once| - 1] + [Last(once)];
      assert twice == twice[..|twice| - 1] + [Last(twice)];
    }
  }

  lemma RefetchIsIdempotentInTheWindow(buf: seq<Candle>, cs: seq<Candle>)
    requires |buf| <= CAPACITY
    ensures PushAllBounded(PushAllBounded(buf, cs), cs) == PushAllBounded(buf, cs)
  {
    WindowIsTheNewestOfTheList(buf, cs);
    WindowIsTheNewestOfTheList(PushAll(buf, cs), cs);
    RefetchIsIdempotent(buf, cs);
  }
}
