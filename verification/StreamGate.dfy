/** The market-data stream tier: raised at once on demand, lowered only after it lingers. */
module StreamGate {
  import opened Wrappers

  datatype Tier = Idle | Prices | Scan

  function Rank(t: Tier): int
  {
    match t case Idle => 0 case Prices => 1 case Scan => 2
  }

  /** A stream profile and the symbols it serves. */
  datatype Target = Target(tier: Tier, symbols: seq<string>)

  /** What somebody needs right now: scanners first, then money at risk, else nothing. */
  function StreamDemand(keepWarm: bool, scanning: bool, exposed: seq<string>): Target
  {
    if keepWarm || scanning then Target(Scan, [])
    else if exposed != [] then Target(Prices, exposed)
    else Target(Idle, [])
  }

  /**
   One pass of the loop. `Silent`: there is no data agent yet, or reading demand raised.
   `setFails`: the call that applies a profile would raise.
   */
  datatype Poll = Silent | Answered(desired: Target, now: real, setFails: bool)

  datatype Gate = Gate(applied: Target, lowerSince: Option<real>)

  const START := Gate(Target(Idle, []), None)

  /** `_gate_decision`: apply now? and since when a lower tier has been wanted. */
  function Decision(current: int, desired: int, lowerSince: Option<real>, now: real, linger: real): (bool, Option<real>)
  {
    if desired >= current then (true, None)
    else if lowerSince.None? then (false, Some(now))
    else if now - lowerSince.value >= linger then (true, None)
    else (false, lowerSince)
  }

  // ---------------------------------------------------------------- the loop

  /** Does this poll call for a profile change? */
  predicate Attempts(g: Gate, p: Poll, linger: real)
  {
    && p.Answered?
    && p.desired != g.applied
    && Decision(Rank(g.applied.tier), Rank(p.desired.tier), g.lowerSince, p.now, linger).0
  }

  function Step(g: Gate, p: Poll, linger: real): Gate
  {
    match p
    case Silent => g
    case Answered(desired, now, setFails) =>
      if desired == g.applied then g.(lowerSince := None)
      else
        var (go, since) := Decision(Rank(g.applied.tier), Rank(desired.tier), g.lowerSince, now, linger);
        Gate(if go && !setFails then desired else g.applied, since)
  }

  function After(polls: seq<Poll>, linger: real): Gate
  {
    if polls == [] then START else Step(After(polls[..|polls| - 1], linger), polls[|polls| - 1], linger)
  }

  function Calls(polls: seq<Poll>, linger: real): seq<Target>
  {
    if polls == [] then []
    else
      var n := |polls| - 1;
      Calls(polls[..n], linger) + if Attempts(After(polls[..n], linger), polls[n], linger) then [polls[n].desired] else []
  }

  /** `_stream_gate_loop`: the profile in force at the end, and every profile asked for. */
  method StreamGateLoop(polls: seq<Poll>, linger: real) returns (applied: Target, lowerSince: Option<real>, calls: seq<Target>)
    ensures Gate(applied, lowerSince) == After(polls, linger)
    ensures calls == Calls(polls, linger)
  {
    applied, lowerSince, calls := Target(Idle, []), None, [];
    for i := 0 to |polls|
      invariant Gate(applied, lowerSince) == After(polls[..i], linger)
      invariant calls == Calls(polls[..i], linger)
    {
      assert polls[..i + 1][..i] == polls[..i];
      if polls[i].Silent? { continue; }
      var desired := polls[i].desired;
      if desired == applied {
        lowerSince := None;
        continue;
      }
      var current, wanted := Rank(applied.tier), Rank(desired.tier);
      var (applyNow, since) := Decision(current, wanted, lowerSince, polls[i].now, linger);
      lowerSince := since;
      if !applyNow && wanted == current {
        applyNow, lowerSince := true, None;
      }
      if applyNow {
        calls := calls + [desired];
        if polls[i].setFails { continue; }
        applied := desired;
      }
    }
    assert polls[..|polls|] == polls;
  }

  // ---------------------------------------------------------------- upgrades

  /**
   An equal or higher tier is applied at the first poll that asks for it: at once when the
   call goes through, and asked for again at the next such poll when it does not.
   */
  lemma RaisesAreImmediate(polls: seq<Poll>, linger: real, k: nat)
    requires k < |polls| && polls[k].Answered?
    requires Rank(polls[k].desired.tier) >= Rank(After(polls[..k], linger).applied.tier)
    ensures var was := After(polls[..k], linger).applied;
      After(polls[..k + 1], linger) == Gate(if polls[k].setFails then was else polls[k].desired, None)
  {
    assert polls[..k + 1][..k] == polls[..k];
  }

  /**
   Money at risk is never left without prices: after any poll whose call does not raise, the
   tier in force covers what demand asks for, and exposed symbols are streamed unless the
   full scan profile is up.
   */
  lemma ExposureIsAlwaysPriced(polls: seq<Poll>, linger: real, k: nat, keepWarm: bool, scanning: bool, exposed: seq<string>)
    requires k < |polls| && polls[k].Answered? && !polls[k].setFails
    requires polls[k].desired == StreamDemand(keepWarm, scanning, exposed)
    ensures var inForce := After(polls[..k + 1], linger).applied;
      && Rank(inForce.tier) >= Rank(polls[k].desired.tier)
      && (keepWarm || scanning ==> inForce.tier == Scan)
      && (exposed != [] && inForce.tier != Scan ==> inForce == Target(Prices, exposed))
  {
    assert polls[..k + 1][..k] == polls[..k];
  }

  // ---------------------------------------------------------------- downgrades

  /** Poll `i` asks for less than what is in force when it is made. */
  predicate AsksLower(polls: seq<Poll>, linger: real, i: nat)
    requires i < |polls|
  {
    polls[i].Answered? && Rank(polls[i].desired.tier) < Rank(After(polls[..i], linger).applied.tier)
  }

  predicate Lowers(polls: seq<Poll>, linger: real, i: nat)
    requires i < |polls|
  {
    AsksLower(polls, linger, i) && Attempts(After(polls[..i], linger), polls[i], linger)
  }

  /** A poll that asked for less and was told to wait. */
  predicate Waits(polls: seq<Poll>, linger: real, i: nat)
    requires i < |polls|
  {
    AsksLower(polls, linger, i) && !Attempts(After(polls[..i], linger), polls[i], linger)
  }

  /** From `j` up to (not including) `k`, every poll that was answered was told to wait. */
  predicate Streak(polls: seq<Poll>, linger: real, j: nat, k: nat)
    requires k <= |polls|
  {
    && j < k
    && Waits(polls, linger, j)
    && forall i | j <= i < k :: polls[i].Silent? || Waits(polls, linger, i)
  }

  /** ...and no earlier poll belongs to the same unbroken wait. */
  predicate Begins(polls: seq<Poll>, linger: real, j: nat, k: nat)
    requires k <= |polls|
  {
    Streak(polls, linger, j, k) && forall i | 0 <= i < j :: !Streak(polls, linger, i, k)
  }

  lemma OneStep(polls: seq<Poll>, linger: real, k: nat)
    requires k < |polls|
    ensures After(polls[..k + 1], linger) == Step(After(polls[..k], linger), polls[k], linger)
  {
    assert polls[..k + 1][..k] == polls[..k];
  }

  lemma StreaksGrow(polls: seq<Poll>, linger: real, j: nat, k: nat)
    requires j < k < |polls|
    ensures Streak(polls, linger, j, k + 1) <==> Streak(polls, linger, j, k) && (polls[k].Silent? || Waits(polls, linger, k))
  {
  }

  lemma {:induction false} WaitingSetsTheTimer(polls: seq<Poll>, linger: real, j: nat, k: nat)
    requires k <= |polls| && Streak(polls, linger, j, k)
    ensures After(polls[..k], linger).lowerSince.Some?
  {
    OneStep(polls, linger, k - 1);
    if j < k - 1 {
      StreaksGrow(polls, linger, j, k - 1);
      WaitingSetsTheTimer(polls, linger, j, k - 1);
    }
  }

  /** A running timer holds the time at which the present unbroken wait began... */
  lemma {:induction false} TheTimerHasAStart(polls: seq<Poll>, linger: real, k: nat) returns (j: nat)
    requires k <= |polls| && After(polls[..k], linger).lowerSince.Some?
    ensures j < k && Begins(polls, linger, j, k)
    ensures After(polls[..k], linger).lowerSince == Some(polls[j].now)
  {
    var p := k - 1;
    OneStep(polls, linger, p);
    if After(polls[..p], linger).lowerSince.None? {
      j := p;
      forall i | 0 <= i < j ensures !Streak(polls, linger, i, k) {
        StreaksGrow(polls, linger, i, p);
        if Streak(polls, linger, i, p) { WaitingSetsTheTimer(polls, linger, i, p); }
      }
    } else {
      j := TheTimerHasAStart(polls, linger, p);
      forall i | 0 <= i <= j ensures Streak(polls, linger, i, k) <==> Streak(polls, linger, i, p) {
        StreaksGrow(polls, linger, i, p);
      }
    }
  }

  /** ...and it is running whenever such a wait is under way. */
  lemma TheStartIsOnTheTimer(polls: seq<Poll>, linger: real, j: nat, k: nat)
    requires k <= |polls| && Begins(polls, linger, j, k)
    ensures After(polls[..k], linger).lowerSince == Some(polls[j].now)
  {
    WaitingSetsTheTimer(polls, linger, j, k);
    var i := TheTimerHasAStart(polls, linger, k);
    assert !(i < j) && !(j < i);
  }

  /**
   Safety and exactness over every run: a poll lowers the tier exactly when it asks for less
   than what is in force and closes an unbroken wait, begun at some earlier poll, of at least
   the linger time. Every answered poll in between asked for less as well.
   */
  lemma LowersExactlyAfterLinger(polls: seq<Poll>, linger: real, k: nat)
    requires k < |polls| && AsksLower(polls, linger, k)
    ensures Lowers(polls, linger, k) <==>
      exists j: nat :: j < k && Begins(polls, linger, j, k) && polls[k].now - polls[j].now >= linger
  {
    if After(polls[..k], linger).lowerSince.Some? {
      var j := TheTimerHasAStart(polls, linger, k);
      assert Lowers(polls, linger, k) ==> Begins(polls, linger, j, k) && polls[k].now - polls[j].now >= linger;
    }
    forall j: nat | j < k && Begins(polls, linger, j, k) ensures After(polls[..k], linger).lowerSince == Some(polls[j].now) {
      TheStartIsOnTheTimer(polls, linger, j, k);
    }
  }

  /** The tiers in order: nothing, then prices, then the full scan. */
  predicate IsLower(a: Tier, b: Tier)
  {
    (a.Idle? && !b.Idle?) || (a.Prices? && b.Scan?)
  }

  /** Poll `k` closes an unbroken wait of at least the linger time. */
  predicate ClosesAWait(polls: seq<Poll>, linger: real, k: nat)
    requires k < |polls| && polls[k].Answered?
  {
    exists j | 0 <= j < k :: Begins(polls, linger, j, k) && polls[k].now - polls[j].now >= linger
  }

  /**
   Which profiles are asked for: one at each answered poll that wants another than the one in
   force, if it is of no lower tier or closes a wait of the linger time; whether or not the call
   then goes through.
   */
  lemma CallsGoOutExactlyWhen(polls: seq<Poll>, linger: real, k: nat)
    requires k < |polls|
    ensures var inForce := After(polls[..k], linger).applied;
      Calls(polls[..k + 1], linger) == Calls(polls[..k], linger) +
        if polls[k].Answered? && polls[k].desired != inForce
           && (!IsLower(polls[k].desired.tier, inForce.tier) || ClosesAWait(polls, linger, k))
        then [polls[k].desired] else []
  {
    assert polls[..k + 1][..k] == polls[..k];
    if AsksLower(polls, linger, k) { LowersExactlyAfterLinger(polls, linger, k); }
    hide After, Begins;
  }

  /** Through a wait the profile in force does not move. */
  lemma {:induction false} WaitingKeepsTheProfile(polls: seq<Poll>, linger: real, j: nat, k: nat)
    requires k <= |polls| && Streak(polls, linger, j, k)
    ensures After(polls[..k], linger).applied == After(polls[..j], linger).applied
  {
    OneStep(polls, linger, k - 1);
    if j < k - 1 {
      StreaksGrow(polls, linger, j, k - 1);
      WaitingKeepsTheProfile(polls, linger, j, k - 1);
    }
  }

  /** The tier in force falls only at a poll that lowers it. */
  lemma FallsOnlyWhereLowered(polls: seq<Poll>, linger: real, k: nat)
    requires k < |polls|
    ensures Rank(After(polls[..k + 1], linger).applied.tier) < Rank(After(polls[..k], linger).applied.tier)
      <==> Lowers(polls, linger, k) && !polls[k].setFails
  {
    OneStep(polls, linger, k);
  }

  predicate ClockRises(polls: seq<Poll>)
  {
    forall i, j | 0 <= i <= j < |polls| && polls[i].Answered? && polls[j].Answered? :: polls[i].now <= polls[j].now
  }

  /** Churn bound: two calls that lower the tier are at least the linger time apart. */
  lemma LoweringsAreApart(polls: seq<Poll>, linger: real, i: nat, k: nat)
    requires ClockRises(polls) && i < k < |polls|
    requires Lowers(polls, linger, i) && Lowers(polls, linger, k)
    ensures polls[k].now - polls[i].now >= linger
  {
    LowersExactlyAfterLinger(polls, linger, k);
    var j: nat :| j < k && Begins(polls, linger, j, k) && polls[k].now - polls[j].now >= linger;
    assert i < j by {
      assert !Waits(polls, linger, i);
    }
  }

  /** `d` is what every answered poll from `m` to `k` asks for, and no call to apply it raises. */
  predicate Persists(polls: seq<Poll>, d: Target, m: nat, k: nat)
    requires k < |polls|
  {
    && m <= k
    && polls[m].Answered?
    && polls[k].Answered?
    && forall i | m <= i <= k && polls[i].Answered? :: polls[i].desired == d && !polls[i].setFails
  }

  lemma {:induction false} PersistentDemandWaits(polls: seq<Poll>, linger: real, d: Target, m: nat, k: nat)
    requires ClockRises(polls) && m <= k < |polls|
    requires polls[m].Answered?
    requires forall i | m <= i <= k && polls[i].Answered? :: polls[i].desired == d && !polls[i].setFails
    ensures var g := After(polls[..k + 1], linger);
      || g.applied == d
      || (g.lowerSince.Some? && g.lowerSince.value <= polls[m].now && Rank(d.tier) < Rank(g.applied.tier))
  {
    OneStep(polls, linger, k);
    if m < k {
      PersistentDemandWaits(polls, linger, d, m, k - 1);
    } else if After(polls[..k], linger).lowerSince.Some? {
      var j := TheTimerHasAStart(polls, linger, k);
    }
  }

  /** Liveness: demand that persists for the linger time, over at least two polls, is in force. */
  lemma PersistentDemandIsServed(polls: seq<Poll>, linger: real, d: Target, m: nat, k: nat)
    requires ClockRises(polls) && m < k < |polls| && Persists(polls, d, m, k)
    requires polls[k].now - polls[m].now >= linger
    ensures After(polls[..k + 1], linger).applied == d
  {
    OneStep(polls, linger, k);
    PersistentDemandWaits(polls, linger, d, m, k - 1);
  }
}
