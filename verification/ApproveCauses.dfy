/**
 What the approve / sweep protocol does, told per row, per session and per message: every
 booking, every decision of a row and every move of a session has exactly one kind of cause.
 The causes are stated over the state itself, not through the handlers.
 */
module ApproveCauses {
  import opened Wrappers
  import opened ApproveProtocol

  /** The row the user has pending: live, and no later row is still proposed. */
  predicate Pending(st: State, p: nat)
  {
    && p < |st.proposals| && LiveRow(st.proposals[p], st.now)
    && forall q | p < q < |st.proposals| :: !st.proposals[q].status.Proposed?
  }

  predicate NonePending(st: State)
  {
    forall p | 0 <= p < |st.proposals| :: !Pending(st, p)
  }

  /** The newest row of the session is an executed one. */
  predicate ShowsTrade(ps: seq<Proposal>, s: nat)
  {
    exists q :: 0 <= q < |ps| && ps[q].session == s && ps[q].status.Executed? && forall r | q < r < |ps| :: ps[r].session != s
  }

  lemma PendingIsRead(st: State, p: nat)
    ensures LivePending(st.proposals, st.now) == Some(p) <==> Pending(st, p)
    ensures NewestProposed(st.proposals) == Some(p) <==>
            p < |st.proposals| && st.proposals[p].status.Proposed? && forall q | p < q < |st.proposals| :: !st.proposals[q].status.Proposed?
  {
  }

  lemma NothingIsRead(st: State)
    ensures LivePending(st.proposals, st.now).None? <==> NonePending(st)
  {
    hide LivePending, Pending;
    var r := LivePending(st.proposals, st.now);
    if r.Some? { PendingIsRead(st, r.value); }
    forall p: nat ensures LivePending(st.proposals, st.now) == Some(p) <==> Pending(st, p) { PendingIsRead(st, p); }
  }

  lemma TheLatestShows(ps: seq<Proposal>, s: nat)
    ensures LatestExecuted(ps, s) <==> ShowsTrade(ps, s)
  {
    var latest := LatestForSession(ps, s);
    if ShowsTrade(ps, s) {
      var q :| 0 <= q < |ps| && ps[q].session == s && ps[q].status.Executed? && forall r | q < r < |ps| :: ps[r].session != s;
      assert latest == Some(q);
    }
  }

  // ---------------------------------------------------------------- bookings

  /** The daemon takes up command `i`. */
  predicate TakesUp(st: State, step: Step, p: nat)
  {
    step.Handle? && step.msg < |st.outstanding| && st.outstanding[step.msg].Command? && st.outstanding[step.msg].proposal == p
  }

  /** The market takes the trade of a row that is proposed and has not lapsed. */
  predicate Fills(st: State, step: Step, p: nat)
  {
    TakesUp(st, step, p) && step.market.BookAccepted? && p < |st.proposals| && LiveRow(st.proposals[p], st.now)
  }

  /** A trade is booked exactly when a command meets a willing market on a live row; no other step touches the log. */
  lemma StepsBookExactlyAtFills(st: State, step: Step)
    ensures forall p: nat | Fills(st, step, p) :: Next(st, step).booked == st.booked + [Booking(st.outstanding[step.msg].session, p)]
    ensures (forall p: nat :: !Fills(st, step, p)) ==> Next(st, step).booked == st.booked
  {
    if step.Handle? && step.msg < |st.outstanding| && st.outstanding[step.msg].Command? {
      var p := st.outstanding[step.msg].proposal;
      assert Fills(st, step, p) <==> step.market.BookAccepted? && p < |st.proposals| && LiveRow(st.proposals[p], st.now);
    }
    hide Fills, ExpireStale, AfterRead, LivePending, LatestExecuted, Withdrawn;
  }

  /** Over every run the log holds exactly what was filled, with the session whose command was filled. */
  lemma {:induction false} BookingsAreExactlyTheFills(st: State, steps: seq<Step>, b: Booking)
    ensures b in Run(st, steps).booked <==> b in st.booked || exists k :: 0 <= k < |steps| && IsFill(Run(st, steps[..k]), steps[k], b)
    decreases |steps|
  {
    if steps == [] {
    } else {
      var n := |steps| - 1;
      var before := Run(st, steps[..n]);
      BookingsAreExactlyTheFills(st, steps[..n], b);
      RunsEndWithTheLast(st, steps);
      AFillBooks(before, steps[n], b);
      assert forall k | 0 <= k < n :: steps[..n][..k] == steps[..k];
      hide IsFill, Run, Next;
      if b in st.booked || exists k :: 0 <= k < n && IsFill(Run(st, steps[..n][..k]), steps[..n][k], b) {
        if b !in st.booked {
          var k :| 0 <= k < n && IsFill(Run(st, steps[..n][..k]), steps[..n][k], b);
          assert IsFill(Run(st, steps[..k]), steps[k], b);
        }
      }
      if k :| 0 <= k < |steps| && IsFill(Run(st, steps[..k]), steps[k], b) {
        if k < n { assert IsFill(Run(st, steps[..n][..k]), steps[..n][k], b); }
      }
    }
  }

  predicate IsFill(st: State, step: Step, b: Booking)
  {
    Fills(st, step, b.proposal) && st.outstanding[step.msg].session == b.session
  }

  lemma AFillBooks(st: State, step: Step, b: Booking)
    ensures b in Next(st, step).booked <==> b in st.booked || IsFill(st, step, b)
  {
    StepsBookExactlyAtFills(st, step);
    hide Next;
    if q: nat :| Fills(st, step, q) { assert q == st.outstanding[step.msg].proposal; }
  }

  lemma RunsEndWithTheLast(st: State, steps: seq<Step>)
    requires steps != []
    ensures Run(st, steps) == Next(Run(st, steps[..|steps| - 1]), steps[|steps| - 1])
  {
    var n := |steps| - 1;
    assert steps == steps[..n] + [steps[n]];
    RunSplits(st, steps[..n], [steps[n]]);
    var last := [steps[n]];
    assert Run(Run(st, steps[..n]), last) == Run(Next(Run(st, steps[..n]), last[0]), last[1..]);
  }

  // ---------------------------------------------------------------- replies

  /** The stores, the row and a price are there, so the row is re-validated. */
  predicate Revalidated(st: State, p: nat, market: Market)
  {
    && !market.NoEngine? && !market.PlaneDown? && !market.NoPrice?
    && p < |st.proposals| && st.proposals[p].status.Proposed?
  }

  predicate RowIsLive(st: State, p: nat)
  {
    p < |st.proposals| && LiveRow(st.proposals[p], st.now)
  }

  predicate RowIsProposed(st: State, p: nat)
  {
    p < |st.proposals| && st.proposals[p].status.Proposed?
  }

  /**
   What the daemon answers: approved exactly when the market takes a live row, and final
   exactly when no later approval of the row could succeed, or no engine answered.
   */
  lemma RepliesExactlyWhen(st: State, s: nat, p: nat, market: Market)
    ensures var (after, reply) := Approve(st, s, p, market);
      && (reply.Approved? <==> market.BookAccepted? && RowIsLive(st, p))
      && (reply == Refused(true) <==>
            market.PlaneDown? || (market.NoPrice? && RowIsProposed(st, p)) || (market.Drifted? && RowIsLive(st, p)))
      && (market.BookRefused? && RowIsLive(st, p) ==>
            reply == Refused(false) && after.proposals[p].status.Rejected? && after.booked == st.booked)
  {
  }

  // ---------------------------------------------------------------- rows

  /** The user turns down what is pending. */
  predicate TurnsDown(st: State, step: Step)
  {
    (step.ApiReject? || step.ApiEnd?) && Active(st).Some?
  }

  /** Reading the pending row, which marks it expired if it has lapsed. */
  predicate Reads(st: State, step: Step)
  {
    || TurnsDown(st, step)
    || (step.ApiApprove? && Active(st).Some? && st.sessions[Active(st).value].SetupProposed?)
    || (step.Propose? && Active(st).Some? && st.sessions[Active(st).value].Scanning?)
  }

  predicate IsNewestProposed(st: State, p: nat)
    requires p < |st.proposals|
  {
    forall q | p < q < |st.proposals| :: !st.proposals[q].status.Proposed?
  }

  /** What a step does to a row that is still proposed, by its cause. */
  function Fate(st: State, step: Step, p: nat): ProposalStatus
    requires p < |st.proposals|
  {
    var live := LiveRow(st.proposals[p], st.now);
    if live && Fills(st, step, p) then Executed
    else if live && TakesUp(st, step, p) && step.market.Breached? then Invalidated
    else if live && TakesUp(st, step, p) && step.market.BookRefused? then Rejected
    else if live && TurnsDown(st, step) && Pending(st, p) then Rejected
    else if !live && (step.Sweep? || (TakesUp(st, step, p) && Revalidated(st, p, step.market)) || (Reads(st, step) && IsNewestProposed(st, p)))
    then Expired
    else Proposed
  }

  lemma HandlingDecides(st: State, step: Step, p: nat)
    requires p < |st.proposals| && st.proposals[p].status.Proposed? && step.Handle?
    ensures p < |Next(st, step).proposals| && Next(st, step).proposals[p] == st.proposals[p].(status := Fate(st, step, p))
  {
  }

  lemma ReadingDecides(st: State, p: nat)
    requires p < |st.proposals| && st.proposals[p].status.Proposed?
    ensures AfterRead(st.proposals, st.now)[p] ==
            if IsNewestProposed(st, p) && !LiveRow(st.proposals[p], st.now) then st.proposals[p].(status := Expired) else st.proposals[p]
    ensures |Withdrawn(st.proposals, st.now)| == |st.proposals|
    ensures Withdrawn(st.proposals, st.now)[p] ==
            if !IsNewestProposed(st, p) then st.proposals[p]
            else st.proposals[p].(status := if LiveRow(st.proposals[p], st.now) then Rejected else Expired)
    ensures Pending(st, p) <==> LiveRow(st.proposals[p], st.now) && IsNewestProposed(st, p)
  {
    PendingIsRead(st, p);
  }

  lemma ApiDecides(st: State, step: Step, p: nat)
    requires p < |st.proposals| && st.proposals[p].status.Proposed?
    requires step.Propose? || step.ApiApprove? || step.ApiReject? || step.ApiEnd?
    ensures p < |Next(st, step).proposals| && Next(st, step).proposals[p] == st.proposals[p].(status := Fate(st, step, p))
  {
    ReadingDecides(st, p);
    RowsAfterReading(st, step, p);
    hide Next, AfterRead, Withdrawn, LivePending, IsNewestProposed, LiveRow, Pending;
  }

  /** What a step that reads the pending row leaves of any row there was. */
  lemma RowsAfterReading(st: State, step: Step, p: nat)
    requires p < |st.proposals|
    requires step.Propose? || step.ApiApprove? || step.ApiReject? || step.ApiEnd?
    ensures |Withdrawn(st.proposals, st.now)| == |st.proposals| && |st.proposals| <= |Next(st, step).proposals|
    ensures Next(st, step).proposals[p] ==
      if TurnsDown(st, step) then Withdrawn(st.proposals, st.now)[p]
      else if Reads(st, step) then AfterRead(st.proposals, st.now)[p] else st.proposals[p]
  {
    WithdrawNarrows(st.proposals, st.now);
    hide AfterRead, Withdrawn, LivePending, LatestExecuted;
  }

  /** Every decision of a row has its cause: what any step makes of a row that was still proposed. */
  lemma EveryDecisionHasItsCause(st: State, step: Step, p: nat)
    requires p < |st.proposals| && st.proposals[p].status.Proposed?
    ensures p < |Next(st, step).proposals| && Next(st, step).proposals[p] == st.proposals[p].(status := Fate(st, step, p))
  {
    match step
    case Handle(_, _) => HandlingDecides(st, step, p);
    case Propose(_) => ApiDecides(st, step, p);
    case ApiApprove => ApiDecides(st, step, p);
    case ApiReject => ApiDecides(st, step, p);
    case ApiEnd => ApiDecides(st, step, p);
    case Sweep => SweepingDecides(st, p);
    case Wait(_) =>
    case StartSession =>
    case Lose(_) =>
    case React(_) =>
    case MeterEnd =>
  }

  lemma SweepingDecides(st: State, p: nat)
    requires p < |st.proposals| && st.proposals[p].status.Proposed?
    ensures p < |Next(st, Sweep).proposals| && Next(st, Sweep).proposals[p] == st.proposals[p].(status := Fate(st, Sweep, p))
  {
    hide LivePending, LatestExecuted;
  }

  /** The live session scans and the user has no pending row of it. */
  predicate Offers(st: State, step: Step)
  {
    && step.Propose? && Active(st).Some? && st.sessions[Active(st).value].Scanning?
    && forall p | 0 <= p < |st.proposals| && Pending(st, p) :: st.proposals[p].session != Active(st).value
  }

  /** Rows are added exactly when a scanning session proposes without one of its own pending. */
  lemma RowsAppearExactlyAtOffers(st: State, step: Step)
    ensures |Next(st, step).proposals| == |st.proposals| + if Offers(st, step) then 1 else 0
    ensures Offers(st, step) ==>
      Next(st, step).proposals[|st.proposals|] == Proposal(Active(st).value, Proposed, st.now + step.ttl)
  {
    NothingIsRead(st);
    if LivePending(st.proposals, st.now).Some? { PendingIsRead(st, LivePending(st.proposals, st.now).value); }
    forall p: nat | Pending(st, p) ensures LivePending(st.proposals, st.now) == Some(p) { PendingIsRead(st, p); }
    hide LivePending, LatestExecuted, Pending;
  }

  // ---------------------------------------------------------------- sessions

  /** An answer for session `s` reaches the API. */
  predicate Hears(st: State, step: Step, s: nat, reply: Reply)
  {
    && step.React? && step.msg < |st.outstanding| && st.outstanding[step.msg].Answer?
    && st.outstanding[step.msg].session == s && st.outstanding[step.msg].reply == reply
  }

  /** The step looks for a trade behind a paused session, because nothing is pending on it. */
  predicate Recovers(st: State, step: Step)
  {
    (step.Sweep? && !AnyLive(st.proposals, st.now)) || ((step.ApiApprove? || step.ApiReject?) && NonePending(st))
  }

  /** What a step makes of the live session, by its cause. */
  function Becomes(st: State, step: Step, s: nat): SessionStatus
    requires s < |st.sessions|
  {
    var from := st.sessions[s];
    if step.ApiEnd? then Ended(UserEnded)
    else if step.MeterEnd? then Ended(MeterEnded)
    else if from.Scanning? then if Offers(st, step) then SetupProposed else Scanning
    else if Hears(st, step, s, Approved) || (Recovers(st, step) && ShowsTrade(st.proposals, s)) then Ended(TradeOpened)
    else if Hears(st, step, s, Refused(false)) || Recovers(st, step) || step.ApiReject? then Scanning
    else SetupProposed
  }

  /** A session is at rest between handlers only while it scans, is paused, or has ended. */
  predicate AtRest(sessions: seq<SessionStatus>)
  {
    forall i | 0 <= i < |sessions| :: !sessions[i].Executing?
  }

  lemma ProposingMoves(st: State, s: nat, ttl: nat)
    requires Active(st) == Some(s) && AtRest(st.sessions)
    ensures Next(st, Propose(ttl)).sessions == st.sessions[s := Becomes(st, Propose(ttl), s)]
  {
    NothingIsRead(st);
    if LivePending(st.proposals, st.now).Some? { PendingIsRead(st, LivePending(st.proposals, st.now).value); }
    forall p: nat | Pending(st, p) ensures LivePending(st.proposals, st.now) == Some(p) { PendingIsRead(st, p); }
    hide LivePending, AfterRead, Pending, ShowsTrade, Recovers;
  }

  lemma RepairMoves(st: State, s: nat)
    requires s < |st.sessions| && st.sessions[s].SetupProposed?
    ensures Repair(st, s).sessions == st.sessions[s := if ShowsTrade(st.proposals, s) then Ended(TradeOpened) else Scanning]
  {
    TheLatestShows(st.proposals, s);
    hide LatestExecuted, ShowsTrade;
  }

  lemma NarrowingKeepsTrades(ps: seq<Proposal>, ps': seq<Proposal>, s: nat)
    requires Narrows(ps, ps')
    ensures ShowsTrade(ps', s) <==> ShowsTrade(ps, s)
  {
    TheLatestShows(ps, s);
    TheLatestShows(ps', s);
    NarrowingKeepsTheLatest(ps, ps', s);
    hide LatestExecuted, ShowsTrade;
  }

  lemma AnsweringMoves(st: State, s: nat, step: Step)
    requires Active(st) == Some(s) && AtRest(st.sessions) && (step.ApiApprove? || step.ApiReject?)
    ensures Next(st, step).sessions == st.sessions[s := Becomes(st, step, s)]
  {
    NothingIsRead(st);
    ReadNarrows(st.proposals, st.now);
    WithdrawNarrows(st.proposals, st.now);
    NarrowingKeepsTrades(st.proposals, AfterRead(st.proposals, st.now), s);
    NarrowingKeepsTrades(st.proposals, Withdrawn(st.proposals, st.now), s);
    if st.sessions[s].SetupProposed? {
      RepairMoves(st.(proposals := AfterRead(st.proposals, st.now)), s);
      RepairMoves(st.(proposals := Withdrawn(st.proposals, st.now)), s);
    }
    hide LivePending, AfterRead, Withdrawn, ShowsTrade, Repair, NonePending, Narrows;
  }

  lemma SweepingMoves(st: State, s: nat)
    requires Active(st) == Some(s) && AtRest(st.sessions)
    ensures Next(st, Sweep).sessions == st.sessions[s := Becomes(st, Sweep, s)]
  {
    PendingIsLive(st);
    ReadNarrows(st.proposals, st.now);
    NarrowingKeepsTrades(st.proposals, ExpireStale(st.proposals, st.now), s);
    if st.sessions[s].SetupProposed? { RepairMoves(st.(proposals := ExpireStale(st.proposals, st.now)), s); }
    hide LivePending, ExpireStale, ShowsTrade, Repair, AnyLive, Narrows;
  }

  lemma HearingMoves(st: State, s: nat, i: nat)
    requires Sound(st) && Active(st) == Some(s) && AtRest(st.sessions)
    ensures Next(st, React(i)).sessions == st.sessions[s := Becomes(st, React(i), s)]
  {
    hide ShowsTrade, ProposalsInOrder, BookedIsExecuted, AnyLive;
  }

  /**
   Every move of a session has its cause. The live session goes where the cause sends it, no
   other session moves, and a new one starts exactly when none is live.
   */
  lemma EveryMoveHasItsCause(st: State, step: Step)
    requires Sound(st) && AtRest(st.sessions)
    ensures Active(st).Some? ==> Next(st, step).sessions == st.sessions[Active(st).value := Becomes(st, step, Active(st).value)]
    ensures Active(st).None? ==> Next(st, step).sessions == st.sessions + if step.StartSession? then [Scanning] else []
    ensures AtRest(Next(st, step).sessions)
  {
    if Active(st).None? {
      NobodyMoves(st, step);
    } else {
      var s := Active(st).value;
      match step
      case Propose(ttl) => ProposingMoves(st, s, ttl);
      case ApiApprove => AnsweringMoves(st, s, step);
      case ApiReject => AnsweringMoves(st, s, step);
      case Sweep => SweepingMoves(st, s);
      case React(i) => HearingMoves(st, s, i);
      case _ => QuietMoves(st, s, step);
    }
    hide Next, ShowsTrade, Sound, NonePending, AnyLive, Offers, Hears;
  }

  lemma NobodyMoves(st: State, step: Step)
    requires Sound(st) && Active(st).None?
    ensures Next(st, step).sessions == st.sessions + if step.StartSession? then [Scanning] else []
  {
    hide ProposalsInOrder, BookedIsExecuted, LivePending, ExpireStale;
  }

  lemma QuietMoves(st: State, s: nat, step: Step)
    requires Active(st) == Some(s) && AtRest(st.sessions)
    requires !step.Propose? && !step.ApiApprove? && !step.ApiReject? && !step.Sweep? && !step.React?
    ensures Next(st, step).sessions == st.sessions[s := Becomes(st, step, s)]
  {
    hide ShowsTrade, Withdrawn, NonePending, AnyLive;
  }

  /** Over every run sessions are at rest between handlers: `Executing` is never left behind. */
  lemma {:induction false} RunsLeaveNothingExecuting(steps: seq<Step>)
    ensures AtRest(Run(INITIAL, steps).sessions)
  {
    if steps != [] {
      var n := |steps| - 1;
      RunsLeaveNothingExecuting(steps[..n]);
      RunsKeepSound(INITIAL, steps[..n]);
      RunsEndWithTheLast(INITIAL, steps);
      EveryMoveHasItsCause(Run(INITIAL, steps[..n]), steps[n]);
    }
  }

  // ---------------------------------------------------------------- messages

  /** A command leaves exactly when a paused session's user approves what is pending; it names that row. */
  predicate Dispatches(st: State, step: Step, p: nat)
  {
    step.ApiApprove? && Active(st).Some? && st.sessions[Active(st).value].SetupProposed? && Pending(st, p)
  }

  lemma CommandsLeaveExactlyOnApproval(st: State, step: Step, p: nat)
    requires step.ApiApprove?
    ensures Dispatches(st, step, p) ==> Next(st, step).outstanding == st.outstanding + [Command(Active(st).value, p)]
    ensures (forall q: nat :: !Dispatches(st, step, q)) ==> Next(st, step).outstanding == st.outstanding
  {
    PendingIsRead(st, p);
    if LivePending(st.proposals, st.now).Some? {
      PendingIsRead(st, LivePending(st.proposals, st.now).value);
      assert Active(st).Some? && st.sessions[Active(st).value].SetupProposed? ==>
          Dispatches(st, step, LivePending(st.proposals, st.now).value);
    }
    hide LivePending, LatestExecuted, Pending, AfterRead;
  }

  /** Outside approvals, messages are answered where they stand or taken off, and nothing else moves them. */
  lemma OtherMessagesMoveExactlyWhen(st: State, step: Step)
    requires !step.ApiApprove?
    ensures var next := Next(st, step).outstanding;
      match step
      case Handle(i, market) =>
        |next| == |st.outstanding| && forall j | 0 <= j < |next| ::
          if j == i && st.outstanding[j].Command?
          then next[j].Answer? && next[j].session == st.outstanding[j].session && next[j].proposal == st.outstanding[j].proposal
               && (next[j].reply.Approved? <==> Fills(st, step, next[j].proposal))
          else next[j] == st.outstanding[j]
      case Lose(i) => i < |st.outstanding| ==> st.outstanding == next[..i] + [st.outstanding[i]] + next[i..]
      case React(i) => i < |st.outstanding| && st.outstanding[i].Answer? ==> st.outstanding == next[..i] + [st.outstanding[i]] + next[i..]
      case _ => next == st.outstanding
  {
    hide LivePending, LatestExecuted, ExpireStale, Withdrawn, AfterRead, LiveRow;
    if step.Handle? { HandlingAnswers(st, step); }
    hide Approve, Fills, ProposeStep, ApiRejectStep, SweepStep;
    if step.Propose? || step.ApiReject? || step.ApiEnd? || step.Sweep? { NoMessageMoves(st, step); }
  }

  lemma HandlingAnswers(st: State, step: Step)
    requires step.Handle?
    ensures var next := Next(st, step).outstanding;
      |next| == |st.outstanding| && forall j | 0 <= j < |next| ::
        if j == step.msg && st.outstanding[j].Command?
        then next[j].Answer? && next[j].session == st.outstanding[j].session && next[j].proposal == st.outstanding[j].proposal
             && (next[j].reply.Approved? <==> Fills(st, step, next[j].proposal))
        else next[j] == st.outstanding[j]
  {
    var i := step.msg;
    if i < |st.outstanding| && st.outstanding[i].Command? {
      RepliesExactlyWhen(st, st.outstanding[i].session, st.outstanding[i].proposal, step.market);
      hide Approve;
    }
  }

  lemma NoMessageMoves(st: State, step: Step)
    requires step.Propose? || step.ApiReject? || step.ApiEnd? || step.Sweep?
    ensures Next(st, step).outstanding == st.outstanding
  {
    hide LivePending, LatestExecuted, ExpireStale, Withdrawn, AfterRead;
  }

  // ---------------------------------------------------------------- what an approval is for

  /**
   Undisturbed, an approval of what is pending trades: the daemon fills it, the row is
   executed, one booking is added, and the session ends as trade-opened with nothing under way
   that was not before.
   */
  lemma AnApprovalCompletes(st: State, s: nat, p: nat)
    requires Active(st) == Some(s) && st.sessions[s].SetupProposed? && Pending(st, p)
    ensures var i := |st.outstanding|;
      Run(st, [ApiApprove, Handle(i, BookAccepted)] + [React(i)]) ==
        State(st.now, st.sessions[s := Ended(TradeOpened)], Mark(st.proposals, p, Executed),
              st.outstanding, st.booked + [Booking(s, p)])
  {
    var i := |st.outstanding|;
    RunSplits(st, [ApiApprove, Handle(i, BookAccepted)], [React(i)]);
    RunOfTwo(st, ApiApprove, Handle(i, BookAccepted));
    TheCommandLeaves(st, s, p);
    var sent := st.(outstanding := st.outstanding + [Command(s, p)]);
    TheDaemonFills(sent, s, p, i);
    var filled := State(st.now, st.sessions, Mark(st.proposals, p, Executed), sent.outstanding[i := Answer(s, p, Approved)], st.booked + [Booking(s, p)]);
    TheReplyCloses(filled, s, p, i);
    assert filled.outstanding == st.outstanding + [Answer(s, p, Approved)];
    assert Without(filled.outstanding, i) == st.outstanding;
    assert [React(i)][1..] == [];
    assert Run(filled, [React(i)]) == Next(filled, React(i));
    hide Next, Pending, Active;
  }

  lemma TheCommandLeaves(st: State, s: nat, p: nat)
    requires Active(st) == Some(s) && st.sessions[s].SetupProposed? && Pending(st, p)
    ensures Next(st, ApiApprove) == st.(outstanding := st.outstanding + [Command(s, p)])
  {
    PendingIsRead(st, p);
    ReadNarrows(st.proposals, st.now);
    hide LivePending, AfterRead, Pending, Repair;
  }

  lemma TheDaemonFills(st: State, s: nat, p: nat, i: nat)
    requires i < |st.outstanding| && st.outstanding[i] == Command(s, p) && p < |st.proposals| && LiveRow(st.proposals[p], st.now)
    ensures Next(st, Handle(i, BookAccepted)) ==
      State(st.now, st.sessions, Mark(st.proposals, p, Executed), st.outstanding[i := Answer(s, p, Approved)], st.booked + [Booking(s, p)])
  {
  }

  lemma TheReplyCloses(st: State, s: nat, p: nat, i: nat)
    requires i < |st.outstanding| && st.outstanding[i] == Answer(s, p, Approved) && s < |st.sessions| && st.sessions[s].SetupProposed?
    ensures Next(st, React(i)) == st.(sessions := st.sessions[s := Ended(TradeOpened)], outstanding := Without(st.outstanding, i))
  {
  }
}
