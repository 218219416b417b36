/**
 The approve / sweep protocol of one tenant: metered sessions, proposals with a shelf
 life, the API handlers, the daemon's approval handler and the proposal sweeper.

 Every handler is one atomic step. What is NOT atomic is the conversation between the
 API and the daemon: a command may be delivered late or never, and so may its reply.
 Those messages are the `outstanding` part of the state.
 */
module ApproveProtocol {
  import opened Wrappers

  // ---------------------------------------------------------------- state

  datatype ProposalStatus = Proposed | Rejected | Expired | Invalidated | Executed

  /** Proposals are identified by their position in creation order. */
  datatype Proposal = Proposal(session: nat, status: ProposalStatus, expiresAt: int)

  datatype EndReason = TradeOpened | UserEnded | MeterEnded

  datatype SessionStatus = Scanning | SetupProposed | Executing | Ended(reason: EndReason)

  datatype Reply = Approved | Refused(retryable: bool)

  /** A command on its way to the daemon, or the daemon's reply on its way back. */
  datatype Message =
    | Command(session: nat, proposal: nat)
    | Answer(session: nat, proposal: nat, reply: Reply)

  /** One trade put into the market: the session whose approval booked it, and the row it booked. */
  datatype Booking = Booking(session: nat, proposal: nat)

  datatype State = State(
    now: int,
    sessions: seq<SessionStatus>,   // oldest first; only the newest may be live
    proposals: seq<Proposal>,       // oldest first
    outstanding: seq<Message>,
    booked: seq<Booking>)           // oldest first

  const INITIAL := State(0, [], [], [], [])

  // ---------------------------------------------------------------- stores

  /** The state machine's table of legal transitions. */
  predicate Legal(from: SessionStatus, to: SessionStatus)
  {
    match from
    case Scanning => to.SetupProposed? || to.Ended?
    case SetupProposed => to.Scanning? || to.Executing? || to.Ended?
    case Executing => to.Ended?
    case Ended(_) => false
  }

  /** `_transition` with the callers' `except SessionError: pass`: an illegal move changes nothing. */
  function Transition(st: State, s: nat, to: SessionStatus): State
    requires s < |st.sessions|
  {
    if Legal(st.sessions[s], to) then st.(sessions := st.sessions[s := to]) else st
  }

  /** `approve` then `end(TRADE_OPENED)`; the second is reached only if the first was legal. */
  function CloseAsTradeOpened(st: State, s: nat): State
    requires s < |st.sessions|
  {
    if Legal(st.sessions[s], Executing)
    then Transition(Transition(st, s, Executing), s, Ended(TradeOpened))
    else st
  }

  /** `get_active`: the newest session that has not ended. */
  function Active(st: State): (r: Option<nat>)
    ensures r.Some? ==> r.value < |st.sessions| && !st.sessions[r.value].Ended?
  {
    if st.sessions != [] && !st.sessions[|st.sessions| - 1].Ended? then Some(|st.sessions| - 1) else None
  }

  /** The newest row still marked proposed. */
  function NewestProposed(ps: seq<Proposal>): (r: Option<nat>)
    ensures r.Some? ==> r.value < |ps| && ps[r.value].status.Proposed?
    ensures r.Some? ==> forall j | r.value < j < |ps| :: !ps[j].status.Proposed?
    ensures r.None? ==> forall j | 0 <= j < |ps| :: !ps[j].status.Proposed?
  {
    if ps == [] then None
    else if ps[|ps| - 1].status.Proposed? then Some(|ps| - 1)
    else NewestProposed(ps[..|ps| - 1])
  }

  /** The newest row of one session, whatever its status. */
  function LatestForSession(ps: seq<Proposal>, s: nat): (r: Option<nat>)
    ensures r.Some? ==> r.value < |ps| && ps[r.value].session == s
    ensures r.Some? ==> forall j | r.value < j < |ps| :: ps[j].session != s
    ensures r.None? ==> forall j | 0 <= j < |ps| :: ps[j].session != s
  {
    if ps == [] then None
    else if ps[|ps| - 1].session == s then Some(|ps| - 1)
    else LatestForSession(ps[..|ps| - 1], s)
  }

  /** `get_pending` marks the newest proposed row expired when it has lapsed. */
  function AfterRead(ps: seq<Proposal>, now: int): (r: seq<Proposal>)
    ensures |r| == |ps|
  {
    match NewestProposed(ps)
    case None => ps
    case Some(p) => if ps[p].expiresAt <= now then ps[p := ps[p].(status := Expired)] else ps
  }

  /** What `get_pending` hands its callers once they discard a row that is not proposed. */
  function LivePending(ps: seq<Proposal>, now: int): (r: Option<nat>)
    ensures r.Some? ==> r.value < |ps| && ps[r.value].status.Proposed? && now < ps[r.value].expiresAt
  {
    match NewestProposed(ps)
    case None => None
    case Some(p) => if ps[p].expiresAt <= now then None else Some(p)
  }

  function Mark(ps: seq<Proposal>, p: nat, status: ProposalStatus): seq<Proposal>
    requires p < |ps|
  {
    ps[p := ps[p].(status := status)]
  }

  function ExpireStale(ps: seq<Proposal>, now: int): (r: seq<Proposal>)
    ensures |r| == |ps|
  {
    seq(|ps|, i requires 0 <= i < |ps| =>
      if ps[i].status.Proposed? && ps[i].expiresAt <= now then ps[i].(status := Expired) else ps[i])
  }

  predicate LatestExecuted(ps: seq<Proposal>, s: nat)
  {
    var latest := LatestForSession(ps, s);
    latest.Some? && ps[latest.value].status.Executed?
  }

  // ---------------------------------------------------------------- the daemon

  /** What the daemon meets when it handles an approval. */
  datatype Market =
    | NoEngine       // the user's engine is gone, or the handler raised before it wrote anything
    | PlaneDown      // a store is not configured
    | NoPrice        // no live price for the symbol
    | Breached       // price is at or beyond the invalidation price
    | Drifted        // price moved beyond tolerance, or re-sizing refused
    | BookRefused    // risk gate or execution said no
    | BookAccepted

  /**
   `_approve_proposal` on behalf of session `s`, and the checks before it: the row is looked up
   by user, whichever session created it. A reply without the `retryable` flag reads as final.
   */
  function Approve(st: State, s: nat, p: nat, market: Market): (State, Reply)
  {
    if market.NoEngine? then (st, Refused(false))
    else if market.PlaneDown? then (st, Refused(true))
    else if p >= |st.proposals| || !st.proposals[p].status.Proposed? then (st, Refused(false))
    else if market.NoPrice? then (st, Refused(true))
    else if st.proposals[p].expiresAt <= st.now then
      (st.(proposals := Mark(st.proposals, p, Expired)), Refused(false))
    else if market.Breached? then
      (st.(proposals := Mark(st.proposals, p, Invalidated)), Refused(false))
    else if market.Drifted? then (st, Refused(true))
    else if market.BookAccepted? then
      (st.(proposals := Mark(st.proposals, p, Executed), booked := st.booked + [Booking(s, p)]), Approved)
    else (st.(proposals := Mark(st.proposals, p, Rejected)), Refused(false))
  }

  // ---------------------------------------------------------------- steps

  datatype Step =
    | Wait(elapsed: nat)
    | StartSession
    | Propose(ttl: nat)                  // a worker cycle that found a setup
    | ApiApprove                         // POST /api/session/approve, up to the dispatch
    | ApiReject                          // POST /api/session/reject
    | ApiEnd                             // POST /api/session/end
    | Handle(msg: nat, market: Market)   // the daemon takes a command off the bus
    | Lose(msg: nat)                     // a command or a reply is lost
    | React(msg: nat)                    // the API acts on a reply
    | Sweep
    | MeterEnd                           // a meter or lost capacity ends the live session

  function Without<T>(s: seq<T>, i: nat): seq<T>
    requires i < |s|
  {
    s[..i] + s[i + 1..]
  }

  /** A paused session without a live proposal: its trade is open, or it resumes scanning. */
  function Repair(st: State, s: nat): State
    requires s < |st.sessions|
  {
    if LatestExecuted(st.proposals, s) then CloseAsTradeOpened(st, s) else Transition(st, s, Scanning)
  }

  /** Create the row, then pause the session on it. */
  function Offer(st: State, s: nat, ttl: nat): State
    requires s < |st.sessions|
  {
    Transition(st.(proposals := st.proposals + [Proposal(s, Proposed, st.now + ttl)]), s, SetupProposed)
  }

  function ProposeStep(st: State, s: nat, ttl: nat): State
    requires s < |st.sessions|
  {
    var read := st.(proposals := AfterRead(st.proposals, st.now));
    var pending := LivePending(st.proposals, st.now);
    if pending.Some? && st.proposals[pending.value].session == s then read else Offer(read, s, ttl)
  }

  function ApiApproveStep(st: State, s: nat): State
    requires s < |st.sessions|
  {
    var read := st.(proposals := AfterRead(st.proposals, st.now));
    match LivePending(st.proposals, st.now)
    case Some(p) => read.(outstanding := st.outstanding + [Command(s, p)])
    case None =>
      Repair(read, s)
  }

  /** The rows once a pending proposal has been read and, if live, marked rejected. */
  function Withdrawn(ps: seq<Proposal>, now: int): seq<Proposal>
  {
    match LivePending(ps, now)
    case Some(p) => Mark(ps, p, Rejected)
    case None => AfterRead(ps, now)
  }

  function ApiRejectStep(st: State, s: nat): State
    requires s < |st.sessions|
  {
    var read := st.(proposals := Withdrawn(st.proposals, st.now));
    if LivePending(st.proposals, st.now).None? && st.sessions[s].SetupProposed? then Repair(read, s)
    else Transition(read, s, Scanning)
  }

  function ApiEndStep(st: State, s: nat): State
    requires s < |st.sessions|
  {
    Transition(st.(proposals := Withdrawn(st.proposals, st.now)), s, Ended(UserEnded))
  }

  /** `_sweep_once`: expire lapsed rows, then repair the paused session. */
  function SweepStep(st: State): State
  {
    var swept := st.(proposals := ExpireStale(st.proposals, st.now));
    match Active(st)
    case None => swept
    case Some(s) =>
      if !st.sessions[s].SetupProposed? || LivePending(swept.proposals, st.now).Some? then swept
      else Repair(swept, s)
  }

  function ReactStep(st: State, m: Message): State
    requires m.Answer?
  {
    if m.session >= |st.sessions| then st
    else if m.reply.Approved? then CloseAsTradeOpened(st, m.session)
    else if m.reply.retryable then st
    else Transition(st, m.session, Scanning)
  }

  /** One step of the whole system; a step that is not enabled changes nothing. */
  function Next(st: State, step: Step): State
  {
    match step
    case Wait(d) => st.(now := st.now + d)
    case StartSession =>
      if Active(st).None? then st.(sessions := st.sessions + [Scanning]) else st
    case Propose(ttl) =>
      var a := Active(st);
      if a.Some? && st.sessions[a.value].Scanning? then ProposeStep(st, a.value, ttl) else st
    case ApiApprove =>
      var a := Active(st);
      if a.Some? && st.sessions[a.value].SetupProposed? then ApiApproveStep(st, a.value) else st
    case ApiReject =>
      var a := Active(st);
      if a.Some? then ApiRejectStep(st, a.value) else st
    case ApiEnd =>
      var a := Active(st);
      if a.Some? then ApiEndStep(st, a.value) else st
    case Handle(i, market) =>
      if i < |st.outstanding| && st.outstanding[i].Command? then
        var m := st.outstanding[i];
        var (after, reply) := Approve(st, m.session, m.proposal, market);
        after.(outstanding := st.outstanding[i := Answer(m.session, m.proposal, reply)])
      else st
    case Lose(i) =>
      if i < |st.outstanding| then st.(outstanding := Without(st.outstanding, i)) else st
    case React(i) =>
      if i < |st.outstanding| && st.outstanding[i].Answer? then
        ReactStep(st.(outstanding := Without(st.outstanding, i)), st.outstanding[i])
      else st
    case Sweep => SweepStep(st)
    case MeterEnd =>
      var a := Active(st);
      if a.Some? then Transition(st, a.value, Ended(MeterEnded)) else st
  }

  function Run(st: State, steps: seq<Step>): State
    decreases |steps|
  {
    if steps == [] then st else Run(Next(st, steps[0]), steps[1..])
  }

  // ---------------------------------------------------------------- what every run keeps

  /** Only the newest session can be live. */
  predicate OneLiveSession(sessions: seq<SessionStatus>)
  {
    forall i | 0 <= i < |sessions| - 1 :: sessions[i].Ended?
  }

  /** Proposals are created by the newest session, one undecided row per session. */
  predicate ProposalsInOrder(ps: seq<Proposal>, sessions: nat)
  {
    && (forall i | 0 <= i < |ps| :: ps[i].session < sessions)
    && (forall i, j | 0 <= i < j < |ps| :: ps[i].session <= ps[j].session)
    && (forall i, j | 0 <= i < j < |ps| :: ps[i].session == ps[j].session ==> !ps[i].status.Proposed?)
  }

  /** The booking log holds each executed proposal exactly once and nothing else. */
  predicate BookedIsExecuted(booked: seq<nat>, ps: seq<Proposal>)
  {
    && (forall i, j | 0 <= i < j < |booked| :: booked[i] != booked[j])
    && (forall i | 0 <= i < |booked| :: booked[i] < |ps| && ps[booked[i]].status.Executed?)
    && (forall p | 0 <= p < |ps| :: ps[p].status.Executed? ==> p in booked)
  }

  /** The rows booked, in order. */
  function Rows(booked: seq<Booking>): seq<nat>
  {
    seq(|booked|, i requires 0 <= i < |booked| => booked[i].proposal)
  }

  predicate BookersExist(booked: seq<Booking>, sessions: nat)
  {
    forall i | 0 <= i < |booked| :: booked[i].session < sessions
  }

  predicate MessagesResolve(outstanding: seq<Message>, sessions: nat, proposals: nat)
  {
    forall i | 0 <= i < |outstanding| ::
      outstanding[i].session < sessions && outstanding[i].proposal < proposals
  }

  predicate Sound(st: State)
  {
    && OneLiveSession(st.sessions)
    && ProposalsInOrder(st.proposals, |st.sessions|)
    && BookedIsExecuted(Rows(st.booked), st.proposals)
    && BookersExist(st.booked, |st.sessions|)
    && MessagesResolve(st.outstanding, |st.sessions|, |st.proposals|)
  }

  /** A row changes only while it is proposed, and rows are never removed. */
  predicate DecisionsStand(ps: seq<Proposal>, ps': seq<Proposal>)
  {
    && |ps| <= |ps'|
    && forall p | 0 <= p < |ps| ::
         && ps'[p].session == ps[p].session
         && (!ps[p].status.Proposed? ==> ps'[p] == ps[p])
  }

  /** Some proposed rows are decided without being booked; nothing else moves. */
  predicate Narrows(ps: seq<Proposal>, ps': seq<Proposal>)
  {
    && |ps'| == |ps|
    && forall i | 0 <= i < |ps| ::
         || ps'[i] == ps[i]
         || (ps[i].status.Proposed? && ps'[i].session == ps[i].session &&
             !ps'[i].status.Proposed? && !ps'[i].status.Executed?)
  }

  lemma NarrowingKeepsSound(st: State, ps: seq<Proposal>)
    requires Sound(st) && Narrows(st.proposals, ps)
    ensures Sound(st.(proposals := ps)) && DecisionsStand(st.proposals, ps)
  {
  }

  lemma ReadNarrows(ps: seq<Proposal>, now: int)
    ensures Narrows(ps, AfterRead(ps, now)) && Narrows(ps, ExpireStale(ps, now))
    ensures LivePending(ps, now).Some? ==> AfterRead(ps, now) == ps
    ensures LivePending(ps, now).Some? ==> Narrows(ps, Mark(ps, LivePending(ps, now).value, Rejected))
  {
  }

  lemma TransitionKeepsSound(st: State, s: nat, to: SessionStatus)
    requires Sound(st) && s < |st.sessions|
    ensures Sound(Transition(st, s, to))
    ensures Sound(CloseAsTradeOpened(st, s))
  {
    hide ProposalsInOrder, BookedIsExecuted, BookersExist, Rows, MessagesResolve;
  }

  lemma RepairKeepsSound(st: State, s: nat)
    requires Sound(st) && s < |st.sessions|
    ensures Sound(Repair(st, s)) && Repair(st, s).proposals == st.proposals
  {
    TransitionKeepsSound(st, s, Scanning);
    hide Sound, LatestExecuted;
  }

  lemma OfferKeepsSound(st: State, s: nat, ttl: nat)
    requires Sound(st) && Active(st) == Some(s)
    requires forall i | 0 <= i < |st.proposals| && st.proposals[i].session == s :: !st.proposals[i].status.Proposed?
    ensures Sound(Offer(st, s, ttl)) && DecisionsStand(st.proposals, Offer(st, s, ttl).proposals)
  {
  }

  /** If the newest proposed row is not live in session `s`, no row of `s` is still proposed. */
  lemma NoOlderUndecided(st: State, s: nat)
    requires ProposalsInOrder(st.proposals, s + 1)
    requires LivePending(st.proposals, st.now).None? ||
             st.proposals[LivePending(st.proposals, st.now).value].session != s
    ensures var ps := AfterRead(st.proposals, st.now);
      forall i | 0 <= i < |ps| && ps[i].session == s :: !ps[i].status.Proposed?
  {
  }

  lemma ProposeKeepsSound(st: State, s: nat, ttl: nat)
    requires Sound(st) && Active(st) == Some(s)
    ensures Sound(ProposeStep(st, s, ttl)) && DecisionsStand(st.proposals, ProposeStep(st, s, ttl).proposals)
  {
    ReadNarrows(st.proposals, st.now);
    var read := st.(proposals := AfterRead(st.proposals, st.now));
    NarrowingKeepsSound(st, read.proposals);
    var pending := LivePending(st.proposals, st.now);
    if pending.None? || st.proposals[pending.value].session != s {
      NoOlderUndecided(st, s);
      OfferKeepsSound(read, s, ttl);
    }
  }

  lemma BookingKeepsSound(st: State, s: nat, p: nat)
    requires Sound(st) && s < |st.sessions| && p < |st.proposals| && st.proposals[p].status.Proposed?
    ensures Sound(st.(proposals := Mark(st.proposals, p, Executed), booked := st.booked + [Booking(s, p)]))
  {
    assert Rows(st.booked + [Booking(s, p)]) == Rows(st.booked) + [p];
    BookingKeepsTheLog(Rows(st.booked), st.proposals, p);
    hide Rows, BookedIsExecuted;
  }

  lemma BookingKeepsTheLog(rows: seq<nat>, ps: seq<Proposal>, p: nat)
    requires BookedIsExecuted(rows, ps) && p < |ps| && ps[p].status.Proposed?
    ensures BookedIsExecuted(rows + [p], Mark(ps, p, Executed))
  {
    var ps' := Mark(ps, p, Executed);
    forall q | 0 <= q < |ps'| && ps'[q].status.Executed? ensures q in rows + [p] {
      assert q == p || q in rows;
    }
  }

  lemma ApproveKeepsSound(st: State, s: nat, p: nat, market: Market)
    requires Sound(st) && s < |st.sessions|
    ensures Sound(Approve(st, s, p, market).0) && DecisionsStand(st.proposals, Approve(st, s, p, market).0.proposals)
  {
    var after := Approve(st, s, p, market).0;
    if after.booked == st.booked {
      assert Narrows(st.proposals, after.proposals);
      NarrowingKeepsSound(st, after.proposals);
    } else {
      BookingKeepsSound(st, s, p);
    }
  }

  lemma WithdrawNarrows(ps: seq<Proposal>, now: int)
    ensures Narrows(ps, Withdrawn(ps, now))
  {
  }

  lemma WithdrawKeepsSound(st: State)
    requires Sound(st)
    ensures Sound(st.(proposals := Withdrawn(st.proposals, st.now)))
    ensures DecisionsStand(st.proposals, Withdrawn(st.proposals, st.now))
  {
  }

  lemma ApiRejectKeepsSound(st: State, s: nat)
    requires Sound(st) && Active(st) == Some(s)
    ensures Sound(ApiRejectStep(st, s)) && DecisionsStand(st.proposals, ApiRejectStep(st, s).proposals)
  {
    hide Sound, DecisionsStand, LatestForSession, Withdrawn;
    WithdrawKeepsSound(st);
    var read := st.(proposals := Withdrawn(st.proposals, st.now));
    TransitionKeepsSound(read, s, Scanning);
    RepairKeepsSound(read, s);
    hide Repair, LivePending;
  }

  lemma ApiEndKeepsSound(st: State, s: nat)
    requires Sound(st) && Active(st) == Some(s)
    ensures Sound(ApiEndStep(st, s)) && DecisionsStand(st.proposals, ApiEndStep(st, s).proposals)
  {
    WithdrawKeepsSound(st);
    TransitionKeepsSound(st.(proposals := Withdrawn(st.proposals, st.now)), s, Ended(UserEnded));
  }

  lemma DispatchKeepsSound(st: State, s: nat, p: nat)
    requires Sound(st) && s < |st.sessions| && p < |st.proposals|
    ensures Sound(st.(outstanding := st.outstanding + [Command(s, p)]))
  {
  }

  lemma ApiApproveKeepsSound(st: State, s: nat)
    requires Sound(st) && Active(st) == Some(s)
    ensures Sound(ApiApproveStep(st, s)) && DecisionsStand(st.proposals, ApiApproveStep(st, s).proposals)
  {
    ReadNarrows(st.proposals, st.now);
    var read := st.(proposals := AfterRead(st.proposals, st.now));
    NarrowingKeepsSound(st, read.proposals);
    RepairKeepsSound(read, s);
    if LivePending(st.proposals, st.now).Some? { DispatchKeepsSound(read, s, LivePending(st.proposals, st.now).value); }
    hide Sound, DecisionsStand, AfterRead, Repair, LivePending;
  }

  lemma SweepKeepsSound(st: State)
    requires Sound(st)
    ensures Sound(SweepStep(st)) && DecisionsStand(st.proposals, SweepStep(st).proposals)
  {
    ReadNarrows(st.proposals, st.now);
    var swept := st.(proposals := ExpireStale(st.proposals, st.now));
    NarrowingKeepsSound(st, swept.proposals);
    hide Sound, DecisionsStand, ExpireStale;
    if Active(st).Some? {
      RepairKeepsSound(swept, Active(st).value);
    }
    hide Repair, LivePending;
  }

  lemma LosingKeepsSound(st: State, i: nat)
    requires Sound(st) && i < |st.outstanding|
    ensures Sound(st.(outstanding := Without(st.outstanding, i)))
  {
  }

  lemma ReactKeepsSound(st: State, m: Message)
    requires Sound(st) && m.Answer?
    ensures Sound(ReactStep(st, m)) && ReactStep(st, m).proposals == st.proposals
  {
  }

  lemma StandingStill(st: State)
    requires Sound(st)
    ensures DecisionsStand(st.proposals, st.proposals)
    ensures Active(st).None? ==> Sound(st.(sessions := st.sessions + [Scanning]))
  {
  }

  lemma WaitingKeepsSound(st: State, elapsed: nat)
    requires Sound(st)
    ensures Sound(st.(now := st.now + elapsed))
  {
  }

  lemma HandlingKeepsSound(st: State, i: nat, market: Market)
    requires Sound(st) && i < |st.outstanding| && st.outstanding[i].Command?
    ensures Sound(Next(st, Handle(i, market))) && DecisionsStand(st.proposals, Next(st, Handle(i, market)).proposals)
  {
    var m := st.outstanding[i];
    assert m.session < |st.sessions|;
    ApproveMovesRowsOnly(st, m.session, m.proposal, market);
    hide Approve, OneLiveSession, ProposalsInOrder, BookedIsExecuted, BookersExist, Rows, DecisionsStand, MessagesResolve;
    ApproveKeepsSound(st, m.session, m.proposal, market);
    AnsweringResolves(st.outstanding, |st.sessions|, |st.proposals|, i, Approve(st, m.session, m.proposal, market).1);
  }

  lemma ApproveMovesRowsOnly(st: State, s: nat, p: nat, market: Market)
    ensures var after := Approve(st, s, p, market).0;
      |after.proposals| == |st.proposals| && after.sessions == st.sessions && after.outstanding == st.outstanding
  {
  }

  lemma AnsweringResolves(outstanding: seq<Message>, sessions: nat, proposals: nat, i: nat, reply: Reply)
    requires MessagesResolve(outstanding, sessions, proposals) && i < |outstanding|
    ensures MessagesResolve(outstanding[i := Answer(outstanding[i].session, outstanding[i].proposal, reply)], sessions, proposals)
  {
  }

  lemma UserStepKeepsSound(st: State, step: Step)
    requires Sound(st) && (step.Propose? || step.ApiApprove? || step.ApiReject? || step.ApiEnd? || step.MeterEnd?)
    ensures Sound(Next(st, step))
    ensures DecisionsStand(st.proposals, Next(st, step).proposals)
  {
    hide Sound, DecisionsStand, ProposeStep, ApiApproveStep, ApiRejectStep, ApiEndStep, Transition, CloseAsTradeOpened;
    hide Approve, ReactStep, SweepStep;
    StandingStill(st);
    if Active(st).Some? {
      var a := Active(st).value;
      if step.Propose? { ProposeKeepsSound(st, a, step.ttl); }
      else if step.ApiApprove? { ApiApproveKeepsSound(st, a); }
      else if step.ApiReject? { ApiRejectKeepsSound(st, a); }
      else if step.ApiEnd? { ApiEndKeepsSound(st, a); }
      else { MeterKeepsSound(st, a); }
    }
    hide Active;
  }

  lemma MeterKeepsSound(st: State, s: nat)
    requires Sound(st) && s < |st.sessions|
    ensures Sound(Transition(st, s, Ended(MeterEnded))) && Transition(st, s, Ended(MeterEnded)).proposals == st.proposals
  {
    TransitionKeepsSound(st, s, Ended(MeterEnded));
    hide Sound;
  }

  lemma StepKeepsSound(st: State, step: Step)
    requires Sound(st)
    ensures Sound(Next(st, step))
    ensures DecisionsStand(st.proposals, Next(st, step).proposals)
  {
    hide Sound, DecisionsStand, Approve, ProposeStep, ApiApproveStep, ApiRejectStep, ApiEndStep, SweepStep, ReactStep;
    StandingStill(st);
    match step
    case Handle(i, market) =>
      if i < |st.outstanding| && st.outstanding[i].Command? { HandlingKeepsSound(st, i, market); }
    case Lose(i) =>
      if i < |st.outstanding| { LosingKeepsSound(st, i); }
    case React(i) =>
      if i < |st.outstanding| && st.outstanding[i].Answer? {
        LosingKeepsSound(st, i);
        ReactKeepsSound(st.(outstanding := Without(st.outstanding, i)), st.outstanding[i]);
      }
    case Sweep => SweepKeepsSound(st);
    case Wait(elapsed) => WaitingKeepsSound(st, elapsed);
    case StartSession =>
    case _ => UserStepKeepsSound(st, step);
  }

  lemma {:induction false} RunsKeepSound(st: State, steps: seq<Step>)
    requires Sound(st)
    ensures Sound(Run(st, steps)) && DecisionsStand(st.proposals, Run(st, steps).proposals)
    decreases |steps|
  {
    if steps != [] {
      StepKeepsSound(st, steps[0]);
      RunsKeepSound(Next(st, steps[0]), steps[1..]);
    }
  }

  /** No run books a proposal twice, and exactly the executed rows have been booked. */
  lemma EachProposalIsBookedAtMostOnce(steps: seq<Step>, p: nat)
    ensures var st := Run(INITIAL, steps);
      && multiset(Rows(st.booked))[p] <= 1
      && (multiset(Rows(st.booked))[p] == 1 <==> p < |st.proposals| && st.proposals[p].status.Executed?)
  {
    RunsKeepSound(INITIAL, steps);
    NoRepeats(Rows(Run(INITIAL, steps).booked), p);
  }

  lemma {:induction false} NoRepeats(s: seq<nat>, x: nat)
    requires forall i, j | 0 <= i < j < |s| :: s[i] != s[j]
    ensures multiset(s)[x] == if x in s then 1 else 0
  {
    if s != [] {
      NoRepeats(s[1..], x);
      assert s == [s[0]] + s[1..];
      assert x in s[1..] ==> exists j | 1 <= j < |s| :: s[j] == x;
    }
  }

  /**
   The `retryable` flag is truthful: whenever the handler got as far as its stores, a
   refusal may be retried exactly when the row is still proposed afterwards.
   */
  lemma RetryableMeansStillProposed(st: State, s: nat, p: nat, market: Market)
    requires !market.PlaneDown? && !market.NoEngine?
    ensures var (after, reply) := Approve(st, s, p, market);
      && (reply.Approved? <==> market.BookAccepted? && p < |st.proposals| && LiveRow(st.proposals[p], st.now))
      && (reply.Approved? <==> after.booked == st.booked + [Booking(s, p)])
      && (reply.Refused? ==>
            && after.booked == st.booked
            && (reply.retryable <==> p < |after.proposals| && after.proposals[p].status.Proposed?))
  {
    var (after, reply) := Approve(st, s, p, market);
    if reply.Refused? { assert after.booked == st.booked; }
    if reply.Approved? { assert |after.booked| == |st.booked| + 1; }
    assert st.booked != st.booked + [Booking(s, p)];
  }

  predicate StillProposed(st: State, p: nat)
  {
    p < |st.proposals| && st.proposals[p].status.Proposed?
  }

  /**
   Over every refusal: the flag is truthful except exactly where no store was consulted and it
   is wrong by default, calling a proposed row final without an engine, or a decided one
   retryable without the stores.
   */
  lemma RetryableIsTruthfulExactlyWhen(st: State, s: nat, p: nat, market: Market)
    requires Approve(st, s, p, market).1.Refused?
    ensures var (after, reply) := Approve(st, s, p, market);
      (reply.retryable <==> StillProposed(after, p)) <==>
        && (market.NoEngine? ==> !StillProposed(st, p))
        && (market.PlaneDown? ==> StillProposed(st, p))
  {
  }

  // ---------------------------------------------------------------- one trade a session

  /** Some approval of session `s` has been booked. */
  predicate HasBooked(booked: seq<Booking>, s: nat)
  {
    exists i | 0 <= i < |booked| :: booked[i].session == s
  }

  predicate OneBookingEach(booked: seq<Booking>)
  {
    forall i, j | 0 <= i < j < |booked| :: booked[i].session != booked[j].session
  }

  /** A session whose approval has been booked is not scanning for another trade. */
  predicate NoScanBehindATrade(booked: seq<Booking>, sessions: seq<SessionStatus>)
  {
    forall i | 0 <= i < |booked| && booked[i].session < |sessions| :: !sessions[booked[i].session].Scanning?
  }

  /** No session has booked twice, and none that has booked is scanning. */
  predicate OneTradeASession(st: State)
  {
    OneBookingEach(st.booked) && NoScanBehindATrade(st.booked, st.sessions)
  }

  /** The live session is paused although its trade is already open. */
  predicate PausedOnATrade(st: State, s: nat)
  {
    Active(st) == Some(s) && st.sessions[s].SetupProposed? && HasBooked(st.booked, s)
  }

  /** ...and its own newest row does not show it, as when the trade was booked on another session's row. */
  predicate PausedOnAHiddenTrade(st: State)
  {
    Active(st).Some? && PausedOnATrade(st, Active(st).value) && !LatestExecuted(st.proposals, Active(st).value)
  }

  /** The steps that resume a scan behind an open trade, or open a second one. */
  predicate Hazard(st: State, step: Step)
  {
    match step
    case React(i) =>
      // a stale or duplicate refusal arrives for a session whose trade is open
      && i < |st.outstanding| && st.outstanding[i].Answer?
      && st.outstanding[i].reply == Refused(false)
      && PausedOnATrade(st, st.outstanding[i].session)
    case ApiReject =>
      // some row of this user is still live, so the recovery branch is skipped; or it finds no trade
      && Active(st).Some? && PausedOnATrade(st, Active(st).value)
      && (LivePending(st.proposals, st.now).Some? || PausedOnAHiddenTrade(st))
    case ApiApprove =>
      // the recovery branch finds no trade
      LivePending(st.proposals, st.now).None? && PausedOnAHiddenTrade(st)
    case Sweep =>
      LivePending(ExpireStale(st.proposals, st.now), st.now).None? && PausedOnAHiddenTrade(st)
    case Handle(i, market) =>
      // a fill for a session that has booked before, or has gone back to scanning
      && i < |st.outstanding| && st.outstanding[i].Command?
      && var m := st.outstanding[i];
         && Approve(st, m.session, m.proposal, market).1.Approved?
         && (HasBooked(st.booked, m.session) || (m.session < |st.sessions| && st.sessions[m.session].Scanning?))
    case _ => false
  }

  lemma ResumingIsTheOnlyDanger(st: State, s: nat)
    requires OneTradeASession(st) && s < |st.sessions|
    ensures OneTradeASession(CloseAsTradeOpened(st, s))
    ensures forall reason :: OneTradeASession(Transition(st, s, Ended(reason)))
    ensures OneTradeASession(Transition(st, s, SetupProposed))
    ensures OneTradeASession(Transition(st, s, Scanning)) <==>
            !(st.sessions[s].SetupProposed? && HasBooked(st.booked, s))
  {
    hide OneBookingEach;
  }

  lemma RepairTrades(st: State, s: nat)
    requires OneTradeASession(st) && s < |st.sessions|
    ensures OneTradeASession(Repair(st, s)) <==>
            !(st.sessions[s].SetupProposed? && HasBooked(st.booked, s) && !LatestExecuted(st.proposals, s))
  {
    ResumingIsTheOnlyDanger(st, s);
    hide OneBookingEach, NoScanBehindATrade, LatestExecuted, CloseAsTradeOpened, Transition;
  }

  /** Rows decided without a booking leave every session's newest row executed or not as it was. */
  lemma NarrowingKeepsTheLatest(ps: seq<Proposal>, ps': seq<Proposal>, s: nat)
    requires Narrows(ps, ps')
    ensures LatestExecuted(ps', s) <==> LatestExecuted(ps, s)
  {
    forall i | 0 <= i < |ps| ensures ps'[i].session == ps[i].session && (ps'[i].status.Executed? <==> ps[i].status.Executed?) {
      assert ps'[i] == ps[i] || ps'[i].session == ps[i].session;
    }
    var latest, latest' := LatestForSession(ps, s), LatestForSession(ps', s);
    assert latest == latest';
  }

  /** A fill breaks the promise exactly for a session that has booked before or is scanning. */
  lemma FillTrades(booked: seq<Booking>, sessions: seq<SessionStatus>, b: Booking)
    requires OneBookingEach(booked) && NoScanBehindATrade(booked, sessions)
    ensures OneBookingEach(booked + [b]) && NoScanBehindATrade(booked + [b], sessions) <==>
            !HasBooked(booked, b.session) && !(b.session < |sessions| && sessions[b.session].Scanning?)
  {
    var all := booked + [b];
    assert all[|booked|] == b && forall i | 0 <= i < |booked| :: all[i] == booked[i];
  }

  lemma HandleTrades(st: State, i: nat, market: Market)
    requires OneTradeASession(st)
    ensures OneTradeASession(Next(st, Handle(i, market))) <==> !Hazard(st, Handle(i, market))
  {
    if i < |st.outstanding| && st.outstanding[i].Command? {
      FillTrades(st.booked, st.sessions, Booking(st.outstanding[i].session, st.outstanding[i].proposal));
    }
    hide OneBookingEach, NoScanBehindATrade, HasBooked;
  }

  lemma ApproveTrades(st: State, s: nat)
    requires OneTradeASession(st) && Active(st) == Some(s) && st.sessions[s].SetupProposed?
    ensures OneTradeASession(ApiApproveStep(st, s)) <==> !Hazard(st, ApiApprove)
  {
    ReadNarrows(st.proposals, st.now);
    var read := st.(proposals := AfterRead(st.proposals, st.now));
    NarrowingKeepsTheLatest(st.proposals, read.proposals, s);
    RepairTrades(read, s);
    hide OneBookingEach, NoScanBehindATrade, LatestExecuted, AfterRead, HasBooked, Repair;
  }

  lemma RejectTrades(st: State, s: nat)
    requires OneTradeASession(st) && Active(st) == Some(s)
    ensures OneTradeASession(ApiRejectStep(st, s)) <==> !Hazard(st, ApiReject)
    ensures OneTradeASession(ApiEndStep(st, s))
  {
    WithdrawNarrows(st.proposals, st.now);
    var read := st.(proposals := Withdrawn(st.proposals, st.now));
    NarrowingKeepsTheLatest(st.proposals, read.proposals, s);
    RepairTrades(read, s);
    ResumingIsTheOnlyDanger(read, s);
    hide OneBookingEach, NoScanBehindATrade, LatestExecuted, Withdrawn, HasBooked, Repair, Transition;
  }

  lemma SweepTrades(st: State)
    requires OneTradeASession(st)
    ensures OneTradeASession(SweepStep(st)) <==> !Hazard(st, Sweep)
  {
    ReadNarrows(st.proposals, st.now);
    var swept := st.(proposals := ExpireStale(st.proposals, st.now));
    if Active(st).Some? {
      NarrowingKeepsTheLatest(st.proposals, swept.proposals, Active(st).value);
      RepairTrades(swept, Active(st).value);
    }
    hide OneBookingEach, NoScanBehindATrade, LatestExecuted, ExpireStale, HasBooked, Repair;
  }

  lemma ProposeTrades(st: State, s: nat, ttl: nat)
    requires OneTradeASession(st) && s < |st.sessions|
    ensures OneTradeASession(ProposeStep(st, s, ttl))
  {
    var added := AfterRead(st.proposals, st.now) + [Proposal(s, Proposed, st.now + ttl)];
    ResumingIsTheOnlyDanger(st.(proposals := added), s);
    hide OneBookingEach, NoScanBehindATrade, AfterRead, LivePending;
  }

  /**
   The exact condition: a step takes a state with one trade a session to one without
   exactly when it is one of the named hazards.
   */
  lemma OneTradeBreaksExactlyAtAHazard(st: State, step: Step)
    requires Sound(st) && OneTradeASession(st)
    ensures OneTradeASession(Next(st, step)) <==> !Hazard(st, step)
  {
    var active := Active(st);
    match step
    case Propose(ttl) => if active.Some? { ProposeTrades(st, active.value, ttl); }
    case ApiApprove => if active.Some? && st.sessions[active.value].SetupProposed? { ApproveTrades(st, active.value); }
    case ApiReject => if active.Some? { RejectTrades(st, active.value); }
    case ApiEnd => if active.Some? { RejectTrades(st, active.value); }
    case Handle(i, market) => HandleTrades(st, i, market);
    case React(i) => ReactTrades(st, i);
    case Sweep => SweepTrades(st);
    case MeterEnd => if active.Some? { ResumingIsTheOnlyDanger(st, active.value); }
    case Lose(_) =>
    case Wait(_) =>
    case StartSession =>
  }

  lemma ReactTrades(st: State, i: nat)
    requires Sound(st) && OneTradeASession(st)
    ensures OneTradeASession(Next(st, React(i))) <==> !Hazard(st, React(i))
  {
    if i < |st.outstanding| && st.outstanding[i].session < |st.sessions| {
      ResumingIsTheOnlyDanger(st.(outstanding := Without(st.outstanding, i)), st.outstanding[i].session);
    }
    hide OneBookingEach, NoScanBehindATrade, HasBooked, ProposalsInOrder, BookedIsExecuted;
  }

  // ---------------------------------------------------------------- disciplined runs

  predicate LiveRow(row: Proposal, now: int)
  {
    row.status.Proposed? && now < row.expiresAt
  }

  /**
   What keeps a run clear of every hazard: no approval is dispatched while an earlier one
   of the same session is unresolved, and no meter ends a session under a live proposal.
   */
  predicate Disciplined(st: State, step: Step)
  {
    var active := Active(st);
    match step
    case ApiApprove =>
      active.Some? ==> forall i | 0 <= i < |st.outstanding| :: st.outstanding[i].session != active.value
    case MeterEnd =>
      active.Some? ==> forall p | 0 <= p < |st.proposals| && LiveRow(st.proposals[p], st.now) ::
        st.proposals[p].session != active.value
    case _ => true
  }

  predicate DisciplinedRun(st: State, steps: seq<Step>)
    decreases |steps|
  {
    steps == [] || (Disciplined(st, steps[0]) && DisciplinedRun(Next(st, steps[0]), steps[1..]))
  }

  predicate LiveRowsBelongTo(ps: seq<Proposal>, now: int, active: Option<nat>)
  {
    forall p | 0 <= p < |ps| && LiveRow(ps[p], now) :: active == Some(ps[p].session)
  }

  predicate OneMessageASession(outstanding: seq<Message>)
  {
    forall i, j | 0 <= i < j < |outstanding| :: outstanding[i].session != outstanding[j].session
  }

  /** A command names a row of its own session, and a live one only while that session is paused. */
  predicate CommandsFit(outstanding: seq<Message>, ps: seq<Proposal>, sessions: seq<SessionStatus>, now: int)
  {
    forall i | 0 <= i < |outstanding| && outstanding[i].Command? ::
      var m := outstanding[i];
      && m.proposal < |ps| && ps[m.proposal].session == m.session && m.session < |sessions|
      && (LiveRow(ps[m.proposal], now) ==> sessions[m.session].SetupProposed?)
  }

  /** An approval on its way back reports a booking of its session. */
  predicate ApprovalsAreBooked(outstanding: seq<Message>, booked: seq<Booking>)
  {
    forall i | 0 <= i < |outstanding| && outstanding[i].Answer? && outstanding[i].reply.Approved? ::
      HasBooked(booked, outstanding[i].session)
  }

  /** Once a session's trade is open, all that can still be under way is the approval of it. */
  predicate OnlyApprovalsAfterATrade(outstanding: seq<Message>, booked: seq<Booking>)
  {
    forall i | 0 <= i < |outstanding| && HasBooked(booked, outstanding[i].session) ::
      outstanding[i].Answer? && outstanding[i].reply.Approved?
  }

  /** Each session booked a row of its own, and the newest one it has. */
  predicate BookingsAreLatest(booked: seq<Booking>, ps: seq<Proposal>)
  {
    forall i | 0 <= i < |booked| :: IsLatest(ps, booked[i])
  }

  predicate IsLatest(ps: seq<Proposal>, b: Booking)
  {
    && b.proposal < |ps|
    && ps[b.proposal].session == b.session
    && ps[b.proposal].status.Executed?
    && forall q | b.proposal < q < |ps| :: ps[q].session != b.session
  }

  predicate Quiet(st: State)
  {
    && LiveRowsBelongTo(st.proposals, st.now, Active(st))
    && OneMessageASession(st.outstanding)
    && CommandsFit(st.outstanding, st.proposals, st.sessions, st.now)
    && ApprovalsAreBooked(st.outstanding, st.booked)
    && OnlyApprovalsAfterATrade(st.outstanding, st.booked)
    && BookingsAreLatest(st.booked, st.proposals)
  }

  predicate Orderly(st: State)
  {
    Sound(st) && OneTradeASession(st) && Quiet(st)
  }

  /** No second live row hides behind the newest proposed one. */
  lemma AtMostOneLiveRow(st: State)
    requires ProposalsInOrder(st.proposals, |st.sessions|)
    requires LiveRowsBelongTo(st.proposals, st.now, Active(st))
    ensures forall p | 0 <= p < |st.proposals| && LiveRow(st.proposals[p], st.now) ::
      LivePending(st.proposals, st.now) == Some(p)
  {
  }

  /** In an orderly state a booked trade shows as its session's newest row, and no row of the live session is live beside it. */
  lemma TradesShow(st: State, s: nat)
    requires Orderly(st) && HasBooked(st.booked, s)
    ensures LatestExecuted(st.proposals, s)
    ensures Active(st) == Some(s) ==> forall p | 0 <= p < |st.proposals| :: !LiveRow(st.proposals[p], st.now)
  {
    var i :| 0 <= i < |st.booked| && st.booked[i].session == s;
    LatestShows(st.proposals, st.booked[i]);
    if Active(st) == Some(s) { NothingLiveBeside(st.proposals, |st.sessions|, st.now, st.booked[i]); }
    hide BookedIsExecuted, LatestExecuted, ProposalsInOrder, IsLatest;
  }

  lemma LatestShows(ps: seq<Proposal>, b: Booking)
    requires IsLatest(ps, b)
    ensures LatestExecuted(ps, b.session)
  {
    assert LatestForSession(ps, b.session) == Some(b.proposal);
  }

  lemma NothingLiveBeside(ps: seq<Proposal>, sessions: nat, now: int, b: Booking)
    requires ProposalsInOrder(ps, sessions) && IsLatest(ps, b) && LiveRowsBelongTo(ps, now, Some(b.session))
    ensures forall p | 0 <= p < |ps| :: !LiveRow(ps[p], now)
  {
  }

  lemma NoHazardWhenOrderly(st: State, step: Step)
    requires Orderly(st)
    ensures !Hazard(st, step)
  {
    if Active(st).Some? && HasBooked(st.booked, Active(st).value) { TradesShow(st, Active(st).value); }
    if LivePending(st.proposals, st.now).Some? { assert LiveRow(st.proposals[LivePending(st.proposals, st.now).value], st.now); }
    hide BookingsAreLatest, BookedIsExecuted, ProposalsInOrder, LatestExecuted, LivePending, ExpireStale;
  }

  /** The rows after a step are narrowed, the live session may have moved, nothing else changed. */
  lemma DecidingKeepsQuiet(st: State, ps: seq<Proposal>, sessions: seq<SessionStatus>)
    requires Quiet(st) && Narrows(st.proposals, ps) && |sessions| == |st.sessions|
    requires sessions == st.sessions || forall p | 0 <= p < |ps| :: !LiveRow(ps[p], st.now)
    ensures Quiet(st.(proposals := ps, sessions := sessions))
  {
  }

  lemma OfferKeepsQuiet(st: State, s: nat, ttl: nat)
    requires Quiet(st) && Active(st) == Some(s) && st.sessions[s].Scanning?
    requires NoScanBehindATrade(st.booked, st.sessions)
    requires MessagesResolve(st.outstanding, |st.sessions|, |st.proposals|)
    ensures Quiet(Offer(st, s, ttl))
  {
  }

  lemma ProposeKeepsQuiet(st: State, ttl: nat)
    requires Orderly(st)
    ensures Quiet(Next(st, Propose(ttl)))
  {
    var active := Active(st);
    if active.Some? && st.sessions[active.value].Scanning? {
      ReadNarrows(st.proposals, st.now);
      var read := st.(proposals := AfterRead(st.proposals, st.now));
      DecidingKeepsQuiet(st, read.proposals, st.sessions);
      OfferKeepsQuiet(read, active.value, ttl);
    }
  }

  lemma DispatchKeepsQuiet(st: State, s: nat, p: nat)
    requires Orderly(st) && s < |st.sessions| && st.sessions[s].SetupProposed?
    requires p < |st.proposals| && st.proposals[p].session == s && st.proposals[p].status.Proposed?
    requires forall i | 0 <= i < |st.outstanding| :: st.outstanding[i].session != s
    ensures Quiet(st.(outstanding := st.outstanding + [Command(s, p)]))
  {
  }

  /** Once the pending row is withdrawn or found lapsed, no live row is left. */
  lemma NoLiveRowOnceSettled(st: State)
    requires Orderly(st)
    ensures var ps := Withdrawn(st.proposals, st.now);
      Narrows(st.proposals, ps) && forall p | 0 <= p < |ps| :: !LiveRow(ps[p], st.now)
  {
  }

  lemma ApiApproveKeepsQuiet(st: State, s: nat)
    requires Orderly(st) && Active(st) == Some(s) && st.sessions[s].SetupProposed? && Disciplined(st, ApiApprove)
    ensures Quiet(ApiApproveStep(st, s))
  {
    match LivePending(st.proposals, st.now)
    case Some(p) =>
      ReadNarrows(st.proposals, st.now);
      assert LiveRow(st.proposals[p], st.now);
      DispatchKeepsQuiet(st, s, p);
    case None =>
      NoLiveRowOnceSettled(st);
      assert AfterRead(st.proposals, st.now) == Withdrawn(st.proposals, st.now);
      OnlyTheSessionMoves(st.(proposals := AfterRead(st.proposals, st.now)), s);
      hide Orderly, Quiet, Narrows, LiveRow, Withdrawn, AfterRead, Repair;
      DecidingKeepsQuiet(st, AfterRead(st.proposals, st.now), ApiApproveStep(st, s).sessions);
  }

  lemma ApiRejectKeepsQuiet(st: State, s: nat)
    requires Orderly(st) && Active(st) == Some(s)
    ensures Quiet(ApiRejectStep(st, s)) && Quiet(ApiEndStep(st, s))
  {
    NoLiveRowOnceSettled(st);
    OnlyTheSessionMoves(st.(proposals := Withdrawn(st.proposals, st.now)), s);
    hide Orderly, Quiet, Narrows, LiveRow, Withdrawn, LivePending, Repair, Transition;
    DecidingKeepsQuiet(st, Withdrawn(st.proposals, st.now), ApiRejectStep(st, s).sessions);
    DecidingKeepsQuiet(st, Withdrawn(st.proposals, st.now), ApiEndStep(st, s).sessions);
  }

  /** Repairs and transitions move one session and nothing else. */
  lemma OnlyTheSessionMoves(st: State, s: nat)
    requires s < |st.sessions|
    ensures |Repair(st, s).sessions| == |st.sessions| && Repair(st, s) == st.(sessions := Repair(st, s).sessions)
    ensures forall to :: |Transition(st, s, to).sessions| == |st.sessions| && Transition(st, s, to) == st.(sessions := Transition(st, s, to).sessions)
  {
    RepairMovesTheSession(st, s);
    hide Repair;
  }

  /** A repair moves the session and nothing else. */
  lemma RepairMovesTheSession(st: State, s: nat)
    requires s < |st.sessions|
    ensures |Repair(st, s).sessions| == |st.sessions|
    ensures Repair(st, s) == st.(sessions := Repair(st, s).sessions)
  {
    hide LatestExecuted;
  }

  lemma SweepKeepsQuiet(st: State)
    requires Orderly(st)
    ensures Quiet(SweepStep(st))
  {
    ReadNarrows(st.proposals, st.now);
    var swept := st.(proposals := ExpireStale(st.proposals, st.now));
    NarrowingKeepsSound(st, swept.proposals);
    DecidingKeepsQuiet(st, swept.proposals, st.sessions);
    AtMostOneLiveRow(swept);
    if LivePending(swept.proposals, st.now).None? && Active(st).Some? {
      RepairMovesTheSession(swept, Active(st).value);
      assert forall p | 0 <= p < |swept.proposals| :: !LiveRow(swept.proposals[p], st.now);
      DecidingKeepsQuiet(st, swept.proposals, Repair(swept, Active(st).value).sessions);
    }
    hide Quiet, Orderly, Sound, ExpireStale, LiveRow, Repair;
  }

  lemma HandleKeepsQuiet(st: State, i: nat, market: Market)
    requires Orderly(st) && i < |st.outstanding| && st.outstanding[i].Command?
    ensures Quiet(Next(st, Handle(i, market)))
  {
    var m := st.outstanding[i];
    var (after, reply) := Approve(st, m.session, m.proposal, market);
    if !reply.Approved? {
      assert Narrows(st.proposals, after.proposals);
      DecidingKeepsQuiet(st, after.proposals, st.sessions);
      RefusingKeepsQuiet(after, i, reply);
    } else {
      BookingKeepsQuiet(st, i);
    }
    hide Quiet;
  }

  lemma RefusingKeepsQuiet(st: State, i: nat, reply: Reply)
    requires Quiet(st) && i < |st.outstanding| && st.outstanding[i].Command? && reply.Refused?
    ensures Quiet(st.(outstanding := st.outstanding[i := Answer(st.outstanding[i].session, st.outstanding[i].proposal, reply)]))
  {
    hide HasBooked, BookingsAreLatest;
  }

  lemma BookingKeepsQuiet(st: State, i: nat)
    requires Orderly(st) && i < |st.outstanding| && st.outstanding[i].Command?
    requires st.outstanding[i].proposal < |st.proposals| && st.proposals[st.outstanding[i].proposal].status.Proposed?
    ensures var m := st.outstanding[i];
      Quiet(st.(proposals := Mark(st.proposals, m.proposal, Executed),
                outstanding := st.outstanding[i := Answer(m.session, m.proposal, Approved)],
                booked := st.booked + [Booking(m.session, m.proposal)]))
  {
    var m := st.outstanding[i];
    var ps, b := Mark(st.proposals, m.proposal, Executed), Booking(m.session, m.proposal);
    BookingStaysLatest(st, b);
    OneMoreBooking(st.booked, b);
    hide HasBooked, BookingsAreLatest, BookedIsExecuted;
  }

  lemma OneMoreBooking(booked: seq<Booking>, b: Booking)
    ensures forall s :: HasBooked(booked + [b], s) <==> HasBooked(booked, s) || s == b.session
  {
    var all := booked + [b];
    forall s ensures HasBooked(all, s) <==> HasBooked(booked, s) || s == b.session {
      assert all[|booked|] == b;
      if HasBooked(booked, s) {
        var i :| 0 <= i < |booked| && booked[i].session == s;
        assert all[i].session == s;
      }
    }
  }

  lemma BookingStaysLatest(st: State, b: Booking)
    requires ProposalsInOrder(st.proposals, |st.sessions|) && BookingsAreLatest(st.booked, st.proposals)
    requires b.proposal < |st.proposals| && st.proposals[b.proposal].status.Proposed? && st.proposals[b.proposal].session == b.session
    ensures BookingsAreLatest(st.booked + [b], Mark(st.proposals, b.proposal, Executed))
  {
    var ps := Mark(st.proposals, b.proposal, Executed);
    assert IsLatest(ps, b);
    forall i | 0 <= i < |st.booked| ensures IsLatest(ps, st.booked[i]) {
      assert IsLatest(st.proposals, st.booked[i]);
    }
    hide IsLatest;
  }

  lemma LoseKeepsQuiet(st: State, i: nat)
    requires Quiet(st) && i < |st.outstanding|
    ensures Quiet(st.(outstanding := Without(st.outstanding, i)))
    ensures forall j | 0 <= j < |st.outstanding| - 1 :: Without(st.outstanding, i)[j].session != st.outstanding[i].session
  {
  }

  /** A session no command is under way for may move, if that leaves no live row behind. */
  lemma ReactKeepsQuiet(st: State, m: Message)
    requires Orderly(st) && m.Answer?
    requires forall i | 0 <= i < |st.outstanding| :: st.outstanding[i].session != m.session
    requires m.reply.Approved? ==> HasBooked(st.booked, m.session)
    ensures Quiet(ReactStep(st, m))
  {
    if m.reply.Approved? { TradesShow(st, m.session); }
  }

  lemma StepKeepsOrder(st: State, step: Step)
    requires Orderly(st) && Disciplined(st, step)
    ensures Orderly(Next(st, step))
  {
    StepKeepsSound(st, step);
    NoHazardWhenOrderly(st, step);
    OneTradeBreaksExactlyAtAHazard(st, step);
    StepKeepsQuiet(st, step);
  }

  lemma StepKeepsQuiet(st: State, step: Step)
    requires Orderly(st) && Disciplined(st, step)
    ensures Quiet(Next(st, step))
  {
    var active := Active(st);
    match step
    case Propose(ttl) => ProposeKeepsQuiet(st, ttl);
    case ApiApprove =>
      if active.Some? && st.sessions[active.value].SetupProposed? { ApiApproveKeepsQuiet(st, active.value); }
    case ApiReject => if active.Some? { ApiRejectKeepsQuiet(st, active.value); }
    case ApiEnd => if active.Some? { ApiRejectKeepsQuiet(st, active.value); }
    case Handle(i, market) =>
      if i < |st.outstanding| && st.outstanding[i].Command? { HandleKeepsQuiet(st, i, market); }
    case Lose(i) => if i < |st.outstanding| { LoseKeepsQuiet(st, i); }
    case React(i) =>
      if i < |st.outstanding| && st.outstanding[i].Answer? {
        LoseKeepsQuiet(st, i);
        LosingKeepsSound(st, i);
        ReactKeepsQuiet(st.(outstanding := Without(st.outstanding, i)), st.outstanding[i]);
      }
    case Sweep => SweepKeepsQuiet(st);
    case MeterEnd => MeterEndKeepsQuiet(st);
    case StartSession => StartKeepsQuiet(st);
    case Wait(_) =>
  }

  lemma MeterEndKeepsQuiet(st: State)
    requires Orderly(st) && Disciplined(st, MeterEnd)
    ensures Quiet(Next(st, MeterEnd))
  {
  }

  lemma StartKeepsQuiet(st: State)
    requires Orderly(st)
    ensures Quiet(Next(st, StartSession))
  {
  }

  lemma {:induction false} DisciplinedRunsKeepOrder(st: State, steps: seq<Step>)
    requires Orderly(st) && DisciplinedRun(st, steps)
    ensures Orderly(Run(st, steps))
    decreases |steps|
  {
    if steps != [] {
      StepKeepsOrder(st, steps[0]);
      DisciplinedRunsKeepOrder(Next(st, steps[0]), steps[1..]);
    }
  }

  // ---------------------------------------------------------------- the promises

  /** The bookings a session's approvals made. */
  function BookingsBy(booked: seq<Booking>, s: nat): set<nat>
  {
    set i | 0 <= i < |booked| && booked[i].session == s
  }

  /** Over every disciplined run a session books at most one trade and never scans behind it. */
  lemma DisciplinedRunsOpenOneTradeASession(steps: seq<Step>, s: nat)
    requires DisciplinedRun(INITIAL, steps)
    ensures var st := Run(INITIAL, steps);
      && |BookingsBy(st.booked, s)| <= 1
      && (s < |st.sessions| && HasBooked(st.booked, s) ==> !st.sessions[s].Scanning?)
  {
    assert Orderly(INITIAL);
    DisciplinedRunsKeepOrder(INITIAL, steps);
    var bookings := BookingsBy(Run(INITIAL, steps).booked, s);
    if bookings != {} {
      var i :| i in bookings;
      assert bookings == {i};
    }
  }

  /**
   What a sweep does to a paused session: it leaves it paused exactly while some row of the
   user is live, and otherwise ends it as trade-opened exactly when its own newest row was
   executed. Failing that, it resumes the scan; behind its own trade exactly at the hazard.
   */
  lemma SweepRecoversExactlyWhen(st: State, s: nat)
    requires Active(st) == Some(s) && st.sessions[s].SetupProposed?
    ensures var after := SweepStep(st).sessions[s];
      var live := LivePending(ExpireStale(st.proposals, st.now), st.now).Some?;
      && (after == SetupProposed <==> live)
      && (after == Ended(TradeOpened) <==> !live && LatestExecuted(st.proposals, s))
      && (after == Scanning <==> !live && !LatestExecuted(st.proposals, s))
      && (after == Scanning && HasBooked(st.booked, s) <==> Hazard(st, Sweep))
  {
    ReadNarrows(st.proposals, st.now);
    NarrowingKeepsTheLatest(st.proposals, ExpireStale(st.proposals, st.now), s);
    hide LatestExecuted, ExpireStale, HasBooked;
  }

  /** Any of the three repairs a user or the sweeper can trigger closes such a session in an orderly state. */
  lemma EveryRepairClosesALostReply(st: State, s: nat)
    requires Orderly(st) && PausedOnATrade(st, s)
    ensures SweepStep(st).sessions[s] == Ended(TradeOpened)
    ensures ApiApproveStep(st, s).sessions[s] == Ended(TradeOpened)
    ensures ApiApproveStep(st, s).outstanding == st.outstanding
    ensures ApiRejectStep(st, s).sessions[s] == Ended(TradeOpened)
  {
    TradesShow(st, s);
    ReadNarrows(st.proposals, st.now);
    NarrowingKeepsTheLatest(st.proposals, AfterRead(st.proposals, st.now), s);
    NarrowingKeepsTheLatest(st.proposals, ExpireStale(st.proposals, st.now), s);
    NothingLiveNothingPending(st);
    hide LatestExecuted, Quiet, Sound, ExpireStale, AfterRead, HasBooked, LivePending;
  }

  lemma NothingLiveNothingPending(st: State)
    requires forall p | 0 <= p < |st.proposals| :: !LiveRow(st.proposals[p], st.now)
    ensures LivePending(st.proposals, st.now).None?
    ensures LivePending(ExpireStale(st.proposals, st.now), st.now).None?
  {
    var ps := ExpireStale(st.proposals, st.now);
    if LivePending(ps, st.now).Some? {
      var q := LivePending(ps, st.now).value;
      assert ps[q] == st.proposals[q] && LiveRow(st.proposals[q], st.now);
    }
    if LivePending(st.proposals, st.now).Some? {
      assert LiveRow(st.proposals[LivePending(st.proposals, st.now).value], st.now);
    }
  }

  // ---------------------------------------------------------------- paused exactly while a row is live

  predicate AnyLive(ps: seq<Proposal>, now: int)
  {
    exists p | 0 <= p < |ps| :: LiveRow(ps[p], now)
  }

  predicate Paused(st: State)
  {
    Active(st).Some? && st.sessions[Active(st).value].SetupProposed?
  }

  /** No row is live behind a session that is not paused on it. */
  predicate NoStray(st: State)
  {
    AnyLive(st.proposals, st.now) ==> Paused(st)
  }

  /** The steps that end or resume a paused session while a row they do not decide is live. */
  predicate Strays(st: State, step: Step)
  {
    && Paused(st)
    && match step
       case React(i) =>
         // a final refusal, or an approval, arrives for the paused session
         && i < |st.outstanding| && st.outstanding[i].Answer?
         && Active(st) == Some(st.outstanding[i].session)
         && st.outstanding[i].reply != Refused(true)
         && AnyLive(st.proposals, st.now)
       case ApiReject => AnyLive(Withdrawn(st.proposals, st.now), st.now)
       case ApiEnd => AnyLive(Withdrawn(st.proposals, st.now), st.now)
       case ApiApprove => LivePending(st.proposals, st.now).None? && AnyLive(AfterRead(st.proposals, st.now), st.now)
       case MeterEnd => AnyLive(st.proposals, st.now)
       case _ => false
  }

  lemma NarrowingLosesRows(ps: seq<Proposal>, ps': seq<Proposal>, now: int)
    requires Narrows(ps, ps')
    ensures AnyLive(ps', now) ==> AnyLive(ps, now)
  {
    if AnyLive(ps', now) {
      var p :| 0 <= p < |ps'| && LiveRow(ps'[p], now);
      assert ps'[p] == ps[p];
    }
  }

  lemma PendingIsLive(st: State)
    ensures LivePending(st.proposals, st.now).Some? ==> AnyLive(st.proposals, st.now)
    ensures AnyLive(ExpireStale(st.proposals, st.now), st.now) <==> LivePending(ExpireStale(st.proposals, st.now), st.now).Some?
    ensures AnyLive(ExpireStale(st.proposals, st.now), st.now) <==> AnyLive(st.proposals, st.now)
  {
    var ps, now := st.proposals, st.now;
    var swept := ExpireStale(ps, now);
    if LivePending(ps, now).Some? { assert LiveRow(ps[LivePending(ps, now).value], now); }
    if AnyLive(ps, now) {
      var p :| 0 <= p < |ps| && LiveRow(ps[p], now);
      assert LiveRow(swept[p], now);
    }
    if AnyLive(swept, now) {
      var p :| 0 <= p < |swept| && LiveRow(swept[p], now);
      assert LiveRow(ps[p], now);
      assert swept[NewestProposed(swept).value].status.Proposed?;
    }
    if LivePending(swept, now).Some? { assert LiveRow(swept[LivePending(swept, now).value], now); }
  }

  /** A repair unpauses the session. */
  lemma RepairUnpauses(st: State, s: nat)
    requires Active(st) == Some(s) && st.sessions[s].SetupProposed?
    ensures !Paused(Repair(st, s)) && Repair(st, s).proposals == st.proposals && Repair(st, s).now == st.now
  {
    hide LatestExecuted;
  }

  lemma ApproveStrays(st: State, s: nat)
    requires NoStray(st) && Active(st) == Some(s) && st.sessions[s].SetupProposed?
    ensures NoStray(ApiApproveStep(st, s)) <==> !Strays(st, ApiApprove)
  {
    RepairUnpauses(st.(proposals := AfterRead(st.proposals, st.now)), s);
    hide AfterRead, LivePending, Repair, AnyLive;
  }

  lemma RejectStrays(st: State, s: nat)
    requires NoStray(st) && Active(st) == Some(s)
    ensures NoStray(ApiRejectStep(st, s)) <==> !Strays(st, ApiReject)
    ensures NoStray(ApiEndStep(st, s)) <==> !Strays(st, ApiEnd)
  {
    WithdrawNarrows(st.proposals, st.now);
    NarrowingLosesRows(st.proposals, Withdrawn(st.proposals, st.now), st.now);
    if st.sessions[s].SetupProposed? { RepairUnpauses(st.(proposals := Withdrawn(st.proposals, st.now)), s); }
    hide Withdrawn, LivePending, Repair, AnyLive;
  }

  lemma ProposeStrays(st: State, s: nat, ttl: nat)
    requires NoStray(st) && Active(st) == Some(s) && st.sessions[s].Scanning?
    ensures NoStray(ProposeStep(st, s, ttl))
  {
    PendingIsLive(st);
    hide AfterRead, LivePending, AnyLive;
  }

  lemma SweepStrays(st: State)
    ensures NoStray(SweepStep(st)) <==> NoStray(st)
    ensures Paused(SweepStep(st)) ==> AnyLive(SweepStep(st).proposals, st.now)
    ensures SweepStep(st).now == st.now
  {
    PendingIsLive(st);
    if Paused(st) { RepairUnpauses(st.(proposals := ExpireStale(st.proposals, st.now)), Active(st).value); }
    hide ExpireStale, LivePending, AnyLive, Repair;
  }

  lemma HandleStrays(st: State, i: nat, market: Market)
    requires NoStray(st)
    ensures NoStray(Next(st, Handle(i, market)))
  {
    if i < |st.outstanding| && st.outstanding[i].Command? {
      var m := st.outstanding[i];
      var after := Approve(st, m.session, m.proposal, market).0;
      if AnyLive(after.proposals, st.now) {
        var p :| 0 <= p < |after.proposals| && LiveRow(after.proposals[p], st.now);
        assert after.proposals[p] == st.proposals[p];
        assert AnyLive(st.proposals, st.now);
      }
    }
  }

  lemma WaitStrays(st: State, elapsed: nat)
    requires NoStray(st)
    ensures NoStray(st.(now := st.now + elapsed))
  {
    if AnyLive(st.proposals, st.now + elapsed) {
      var p :| 0 <= p < |st.proposals| && LiveRow(st.proposals[p], st.now + elapsed);
      assert LiveRow(st.proposals[p], st.now);
    }
  }

  lemma ReactStrays(st: State, i: nat)
    requires Sound(st) && NoStray(st)
    ensures NoStray(Next(st, React(i))) <==> !Strays(st, React(i))
  {
    hide AnyLive, ProposalsInOrder, BookedIsExecuted, Rows;
  }

  /**
   The exact condition: a step leaves a row live behind a session that is not paused exactly
   when it ends or resumes the paused session while a row it does not decide is live.
   */
  lemma StraysAppearExactlyWhen(st: State, step: Step)
    requires Sound(st) && NoStray(st)
    ensures NoStray(Next(st, step)) <==> !Strays(st, step)
  {
    hide AnyLive, Sound, Approve, ProposeStep, ApiApproveStep, ApiRejectStep, ApiEndStep, SweepStep, ReactStep, Withdrawn, AfterRead, LivePending;
    var a := Active(st);
    match step
    case Propose(ttl) => if a.Some? && st.sessions[a.value].Scanning? { ProposeStrays(st, a.value, ttl); }
    case ApiApprove => if a.Some? && st.sessions[a.value].SetupProposed? { ApproveStrays(st, a.value); }
    case ApiReject => if a.Some? { RejectStrays(st, a.value); }
    case ApiEnd => if a.Some? { RejectStrays(st, a.value); }
    case Handle(i, market) => HandleStrays(st, i, market);
    case React(i) => ReactStrays(st, i);
    case Sweep => SweepStrays(st);
    case Wait(elapsed) => WaitStrays(st, elapsed);
    case StartSession =>
    case Lose(_) =>
    case MeterEnd =>
  }

  predicate StrayFreeRun(st: State, steps: seq<Step>)
    decreases |steps|
  {
    steps == [] || (!Strays(st, steps[0]) && StrayFreeRun(Next(st, steps[0]), steps[1..]))
  }

  lemma {:induction false} StrayFreeRunsHaveNoStray(st: State, steps: seq<Step>)
    requires Sound(st) && NoStray(st) && StrayFreeRun(st, steps)
    ensures Sound(Run(st, steps)) && NoStray(Run(st, steps))
    decreases |steps|
  {
    if steps != [] {
      StraysAppearExactlyWhen(st, steps[0]);
      StepKeepsSound(st, steps[0]);
      hide NoStray, Sound, Strays, Next;
      StrayFreeRunsHaveNoStray(Next(st, steps[0]), steps[1..]);
    }
  }

  /**
   What a sweep restores. It always leaves a paused session only over a live row; and over
   every run that leaves no stray it leaves the session paused exactly while a row is live.
   */
  lemma SweptSessionsArePausedExactlyWhileLive(steps: seq<Step>)
    ensures var st := SweepStep(Run(INITIAL, steps));
      && (Paused(st) ==> AnyLive(st.proposals, st.now))
      && (StrayFreeRun(INITIAL, steps) ==> (Paused(st) <==> AnyLive(st.proposals, st.now)))
  {
    SweepStrays(Run(INITIAL, steps));
    assert NoStray(INITIAL);
    if StrayFreeRun(INITIAL, steps) { StrayFreeRunsHaveNoStray(INITIAL, steps); }
    hide Run, SweepStep, AnyLive;
  }

  // ---------------------------------------------------------------- both conditions are needed

  lemma {:induction false} RunSplits(st: State, first: seq<Step>, second: seq<Step>)
    ensures Run(st, first + second) == Run(Run(st, first), second)
    decreases |first|
  {
    if first == [] {
      assert first + second == second;
    } else {
      assert (first + second)[1..] == first[1..] + second;
      RunSplits(Next(st, first[0]), first[1..], second);
    }
  }

  lemma RunOfTwo(st: State, a: Step, b: Step)
    ensures Run(st, [a, b]) == Next(Next(st, a), b)
  {
    assert [a, b][1..] == [b] && [b][1..] == [];
    assert Run(Next(st, a), [b]) == Next(Next(st, a), b);
  }

  const PAUSED_ON_FIRST := State(0, [SetupProposed], [Proposal(0, Proposed, 180)], [], [])
  const TRADE_OPEN := State(0, [SetupProposed], [Proposal(0, Executed, 180)], [], [Booking(0, 0)])

  lemma Opens()
    ensures Run(INITIAL, [StartSession, Propose(180)]) == PAUSED_ON_FIRST
  {
  }

  lemma ApprovedTwice()
    ensures Run(PAUSED_ON_FIRST, [ApiApprove, ApiApprove]) == PAUSED_ON_FIRST.(outstanding := [Command(0, 0), Command(0, 0)])
  {
  }

  lemma FilledThenRefused()
    ensures Run(PAUSED_ON_FIRST.(outstanding := [Command(0, 0), Command(0, 0)]), [Handle(0, BookAccepted), Handle(1, BookAccepted)])
         == TRADE_OPEN.(outstanding := [Answer(0, 0, Approved), Answer(0, 0, Refused(false))])
  {
  }

  lemma LostThenResumed()
    ensures Run(TRADE_OPEN.(outstanding := [Answer(0, 0, Approved), Answer(0, 0, Refused(false))]), [Lose(0), React(0)])
         == TRADE_OPEN.(sessions := [Scanning])
  {
  }

  const PAUSED_ON_SECOND := State(0, [SetupProposed], [Proposal(0, Executed, 180), Proposal(0, Proposed, 180)], [], [Booking(0, 0)])

  lemma ProposedAgain()
    ensures Run(TRADE_OPEN.(sessions := [Scanning]), [Propose(180), ApiApprove])
         == PAUSED_ON_SECOND.(outstanding := [Command(0, 1)])
  {
    var st := TRADE_OPEN.(sessions := [Scanning]);
    RunOfTwo(st, Propose(180), ApiApprove);
    assert NewestProposed(st.proposals).None?;
    assert Next(st, Propose(180)) == PAUSED_ON_SECOND;
  }

  lemma FilledAgain()
    ensures Run(PAUSED_ON_SECOND.(outstanding := [Command(0, 1)]), [Handle(0, BookAccepted)])
         == State(0, [SetupProposed], [Proposal(0, Executed, 180), Proposal(0, Executed, 180)], [Answer(0, 1, Approved)], [Booking(0, 0), Booking(0, 1)])
  {
  }

  /** Two approvals of one proposal in flight: the second is refused, and its refusal resumes the scan. */
  const DOUBLE_DISPATCH: seq<Step> :=
    [StartSession, Propose(180)] + ([ApiApprove, ApiApprove] + ([Handle(0, BookAccepted), Handle(1, BookAccepted)] +
    ([Lose(0), React(0)] + ([Propose(180), ApiApprove] + [Handle(0, BookAccepted)]))))

  lemma DoubleDispatchBooksTwice()
    ensures Run(INITIAL, DOUBLE_DISPATCH).booked == [Booking(0, 0), Booking(0, 1)]
  {
    Opens();
    ApprovedTwice();
    FilledThenRefused();
    LostThenResumed();
    ProposedAgain();
    FilledAgain();
    var last := [Propose(180), ApiApprove] + [Handle(0, BookAccepted)];
    var third := [Lose(0), React(0)] + last;
    var second := [Handle(0, BookAccepted), Handle(1, BookAccepted)] + third;
    var first := [ApiApprove, ApiApprove] + second;
    RunSplits(INITIAL, [StartSession, Propose(180)], first);
    RunSplits(PAUSED_ON_FIRST, [ApiApprove, ApiApprove], second);
    RunSplits(PAUSED_ON_FIRST.(outstanding := [Command(0, 0), Command(0, 0)]), [Handle(0, BookAccepted), Handle(1, BookAccepted)], third);
    RunSplits(TRADE_OPEN.(outstanding := [Answer(0, 0, Approved), Answer(0, 0, Refused(false))]), [Lose(0), React(0)], last);
    RunSplits(TRADE_OPEN.(sessions := [Scanning]), [Propose(180), ApiApprove], [Handle(0, BookAccepted)]);
  }

  const ORPHAN := State(0, [Ended(MeterEnded), SetupProposed], [Proposal(0, Proposed, 180), Proposal(1, Proposed, 180)], [], [])
  const ORPHAN_AND_TRADE := State(0, [Ended(MeterEnded), SetupProposed], [Proposal(0, Proposed, 180), Proposal(1, Executed, 180)], [], [Booking(1, 1)])

  lemma MeterEndsUnderAProposal()
    ensures Run(PAUSED_ON_FIRST, [MeterEnd, StartSession]) == PAUSED_ON_FIRST.(sessions := [Ended(MeterEnded), Scanning])
  {
  }

  lemma NextSessionProposesBesideIt()
    ensures Run(PAUSED_ON_FIRST.(sessions := [Ended(MeterEnded), Scanning]), [Propose(180), ApiApprove])
         == ORPHAN.(outstanding := [Command(1, 1)])
  {
  }

  lemma OrphanHidesTheTrade()
    ensures Run(ORPHAN.(outstanding := [Command(1, 1)]), [Handle(0, BookAccepted), Lose(0)]) == ORPHAN_AND_TRADE
    ensures Run(ORPHAN_AND_TRADE, [ApiReject])
         == ORPHAN_AND_TRADE.(sessions := [Ended(MeterEnded), Scanning], proposals := [Proposal(0, Rejected, 180), Proposal(1, Executed, 180)])
  {
  }

  /** A meter ends a session under a live proposal; rejecting after a lost reply then resumes the next session. */
  const ORPHANED_ROW: seq<Step> :=
    [StartSession, Propose(180)] + ([MeterEnd, StartSession] + ([Propose(180), ApiApprove] +
    ([Handle(0, BookAccepted), Lose(0)] + [ApiReject])))

  lemma OrphanedRowResumesBehindATrade()
    ensures var st := Run(INITIAL, ORPHANED_ROW);
      Active(st) == Some(1) && st.sessions[1].Scanning? && st.booked == [Booking(1, 1)]
  {
    Opens();
    MeterEndsUnderAProposal();
    NextSessionProposesBesideIt();
    OrphanHidesTheTrade();
    var third := [Handle(0, BookAccepted), Lose(0)] + [ApiReject];
    var second := [Propose(180), ApiApprove] + third;
    var first := [MeterEnd, StartSession] + second;
    RunSplits(INITIAL, [StartSession, Propose(180)], first);
    RunSplits(PAUSED_ON_FIRST, [MeterEnd, StartSession], second);
    RunSplits(PAUSED_ON_FIRST.(sessions := [Ended(MeterEnded), Scanning]), [Propose(180), ApiApprove], third);
    RunSplits(ORPHAN.(outstanding := [Command(1, 1)]), [Handle(0, BookAccepted), Lose(0)], [ApiReject]);
    var st := Run(ORPHAN_AND_TRADE, [ApiReject]);
    assert st.proposals[1].status.Executed?;
  }

  // The state both runs below pass through: session 1 is paused beside an orphaned row of session 0.

  lemma OrphanIsReached()
    ensures Run(INITIAL, [StartSession, Propose(180)] + ([MeterEnd, StartSession] + [Propose(180), ApiApprove])) == ORPHAN.(outstanding := [Command(1, 1)])
  {
    Opens();
    MeterEndsUnderAProposal();
    NextSessionProposesBesideIt();
    RunSplits(INITIAL, [StartSession, Propose(180)], [MeterEnd, StartSession] + [Propose(180), ApiApprove]);
    RunSplits(PAUSED_ON_FIRST, [MeterEnd, StartSession], [Propose(180), ApiApprove]);
  }

  const TO_ORPHAN: seq<Step> := [StartSession, Propose(180)] + ([MeterEnd, StartSession] + [Propose(180), ApiApprove])

  /** After its own fill, a lost reply and a second approval, a paused session books the orphaned row as well. */
  const APPROVED_AGAIN: seq<Step> := TO_ORPHAN + ([Handle(0, BookAccepted), Lose(0)] + [ApiApprove, Handle(0, BookAccepted)])

  lemma ApprovingAgainBooksTheOrphan()
    ensures Run(INITIAL, APPROVED_AGAIN).booked == [Booking(1, 1), Booking(1, 0)]
  {
    hide Next, Run;
    OrphanIsReached();
    OrphanHidesTheTrade();
    RunSplits(INITIAL, TO_ORPHAN, [Handle(0, BookAccepted), Lose(0)] + [ApiApprove, Handle(0, BookAccepted)]);
    RunSplits(ORPHAN.(outstanding := [Command(1, 1)]), [Handle(0, BookAccepted), Lose(0)], [ApiApprove, Handle(0, BookAccepted)]);
    RunOfTwo(ORPHAN_AND_TRADE, ApiApprove, Handle(0, BookAccepted));
    OrphanIsDispatched();
    DispatchedOrphanIsBooked();
  }

  lemma DispatchedOrphanIsBooked()
    ensures Next(ORPHAN_AND_TRADE.(outstanding := [Command(1, 0)]), Handle(0, BookAccepted)).booked == [Booking(1, 1), Booking(1, 0)]
  {
  }

  lemma OrphanIsDispatched()
    ensures Next(ORPHAN_AND_TRADE, ApiApprove) == ORPHAN_AND_TRADE.(outstanding := [Command(1, 0)])
  {
    assert ORPHAN_AND_TRADE.proposals[..1] == [Proposal(0, Proposed, 180)];
    assert NewestProposed(ORPHAN_AND_TRADE.proposals) == Some(0);
  }

  const OWN_ROW_GONE := State(0, [Ended(MeterEnded), SetupProposed], [Proposal(0, Proposed, 180), Proposal(1, Invalidated, 180)], [], [])
  const HIDDEN_TRADE := State(0, [Ended(MeterEnded), SetupProposed], [Proposal(0, Executed, 180), Proposal(1, Invalidated, 180)], [], [Booking(1, 0)])

  /** A session whose own row lapsed books the orphaned one; the sweep does not find that trade and resumes it. */
  const HIDDEN_FROM_THE_SWEEP: seq<Step> := TO_ORPHAN + ([Handle(0, Breached), Lose(0)] + ([ApiApprove, Handle(0, BookAccepted)]
    + ([Lose(0), Sweep] + ([Propose(180), ApiApprove] + [Handle(0, BookAccepted)]))))

  lemma OwnRowGoes()
    ensures Run(ORPHAN.(outstanding := [Command(1, 1)]), [Handle(0, Breached), Lose(0)]) == OWN_ROW_GONE
  {
    var st := ORPHAN.(outstanding := [Command(1, 1)]);
    RunOfTwo(st, Handle(0, Breached), Lose(0));
    assert Next(st, Handle(0, Breached)) == OWN_ROW_GONE.(outstanding := [Answer(1, 1, Refused(false))]);
  }

  lemma OrphanIsBooked()
    ensures Run(OWN_ROW_GONE, [ApiApprove, Handle(0, BookAccepted)]) == HIDDEN_TRADE.(outstanding := [Answer(1, 0, Approved)])
  {
    RunOfTwo(OWN_ROW_GONE, ApiApprove, Handle(0, BookAccepted));
    assert OWN_ROW_GONE.proposals[..1] == [Proposal(0, Proposed, 180)];
    assert NewestProposed(OWN_ROW_GONE.proposals) == Some(0);
    assert Next(OWN_ROW_GONE, ApiApprove) == OWN_ROW_GONE.(outstanding := [Command(1, 0)]);
  }

  lemma SweepResumesIt()
    ensures Run(HIDDEN_TRADE.(outstanding := [Answer(1, 0, Approved)]), [Lose(0), Sweep])
         == HIDDEN_TRADE.(sessions := [Ended(MeterEnded), Scanning])
  {
    RunOfTwo(HIDDEN_TRADE.(outstanding := [Answer(1, 0, Approved)]), Lose(0), Sweep);
    assert ExpireStale(HIDDEN_TRADE.proposals, 0) == HIDDEN_TRADE.proposals;
    assert HIDDEN_TRADE.proposals[..1] == [Proposal(0, Executed, 180)];
    assert NewestProposed(HIDDEN_TRADE.proposals).None?;
    assert LatestForSession(HIDDEN_TRADE.proposals, 1) == Some(1);
    assert Next(HIDDEN_TRADE, Sweep) == HIDDEN_TRADE.(sessions := [Ended(MeterEnded), Scanning]);
  }

  const PAUSED_AGAIN := HIDDEN_TRADE.(proposals := HIDDEN_TRADE.proposals + [Proposal(1, Proposed, 180)])

  lemma ItProposesAnother()
    ensures Next(HIDDEN_TRADE.(sessions := [Ended(MeterEnded), Scanning]), Propose(180)) == PAUSED_AGAIN
  {
    var st := HIDDEN_TRADE.(sessions := [Ended(MeterEnded), Scanning]);
    assert st.proposals[..1] == [Proposal(0, Executed, 180)];
    assert NewestProposed(st.proposals).None?;
  }

  lemma AnotherIsDispatched()
    ensures Next(PAUSED_AGAIN, ApiApprove) == PAUSED_AGAIN.(outstanding := [Command(1, 2)])
  {
    assert NewestProposed(PAUSED_AGAIN.proposals) == Some(2);
  }

  lemma AnotherIsBooked()
    ensures Next(PAUSED_AGAIN.(outstanding := [Command(1, 2)]), Handle(0, BookAccepted)).booked == [Booking(1, 0), Booking(1, 2)]
  {
  }

  lemma ItBooksAnother()
    ensures Run(HIDDEN_TRADE.(sessions := [Ended(MeterEnded), Scanning]), [Propose(180), ApiApprove])
         == PAUSED_AGAIN.(outstanding := [Command(1, 2)])
    ensures Run(PAUSED_AGAIN.(outstanding := [Command(1, 2)]), [Handle(0, BookAccepted)]).booked == [Booking(1, 0), Booking(1, 2)]
  {
    hide Next;
    ItProposesAnother();
    AnotherIsDispatched();
    AnotherIsBooked();
    RunOfTwo(HIDDEN_TRADE.(sessions := [Ended(MeterEnded), Scanning]), Propose(180), ApiApprove);
    var last := PAUSED_AGAIN.(outstanding := [Command(1, 2)]);
    assert [Handle(0, BookAccepted)][1..] == [];
    assert Run(last, [Handle(0, BookAccepted)]) == Next(last, Handle(0, BookAccepted));
  }

  lemma TheSweepResumesBehindAHiddenTrade()
    ensures Run(INITIAL, HIDDEN_FROM_THE_SWEEP).booked == [Booking(1, 0), Booking(1, 2)]
    ensures Hazard(HIDDEN_TRADE, Sweep)
  {
    OrphanIsReached();
    OwnRowGoes();
    OrphanIsBooked();
    SweepResumesIt();
    ItBooksAnother();
    assert HIDDEN_TRADE.booked[0].session == 1;
    assert HasBooked(HIDDEN_TRADE.booked, 1);
    var fourth := [Propose(180), ApiApprove] + [Handle(0, BookAccepted)];
    var third := [Lose(0), Sweep] + fourth;
    var second := [ApiApprove, Handle(0, BookAccepted)] + third;
    RunSplits(INITIAL, TO_ORPHAN, [Handle(0, Breached), Lose(0)] + second);
    RunSplits(ORPHAN.(outstanding := [Command(1, 1)]), [Handle(0, Breached), Lose(0)], second);
    RunSplits(OWN_ROW_GONE, [ApiApprove, Handle(0, BookAccepted)], third);
    RunSplits(HIDDEN_TRADE.(outstanding := [Answer(1, 0, Approved)]), [Lose(0), Sweep], fourth);
    RunSplits(HIDDEN_TRADE.(sessions := [Ended(MeterEnded), Scanning]), [Propose(180), ApiApprove], [Handle(0, BookAccepted)]);
    SweepHazard();
  }

  lemma SweepHazard()
    ensures LivePending(ExpireStale(HIDDEN_TRADE.proposals, 0), 0).None? && !LatestExecuted(HIDDEN_TRADE.proposals, 1)
  {
    assert ExpireStale(HIDDEN_TRADE.proposals, 0) == HIDDEN_TRADE.proposals;
    assert HIDDEN_TRADE.proposals[..1] == [Proposal(0, Executed, 180)];
    assert NewestProposed(HIDDEN_TRADE.proposals).None?;
    assert LatestForSession(HIDDEN_TRADE.proposals, 1) == Some(1);
  }

  // ---------------------------------------------------------------- a stale refusal leaves a stray

  const LAPSING := State(0, [SetupProposed], [Proposal(0, Proposed, 10)], [], [])
  const LAPSED := State(10, [Scanning], [Proposal(0, Expired, 10)], [Command(0, 0)], [])
  const REPROPOSED := State(10, [SetupProposed], [Proposal(0, Expired, 10), Proposal(0, Proposed, 190)], [Command(0, 0)], [])
  const STRAY := State(10, [Scanning], [Proposal(0, Expired, 10), Proposal(0, Proposed, 190)], [], [])

  /** An approval overtaken by its row's expiry is refused after the next row is up, and its refusal resumes the scan. */
  const OVERTAKEN: seq<Step> := [StartSession, Propose(10)] + ([ApiApprove, Wait(10)] + ([Sweep, Propose(180)] + [Handle(0, BookAccepted), React(0)]))

  lemma ItLapses()
    ensures Run(INITIAL, [StartSession, Propose(10)]) == LAPSING
    ensures Run(LAPSING, [ApiApprove, Wait(10)]) == LAPSING.(now := 10, outstanding := [Command(0, 0)])
  {
    RunOfTwo(INITIAL, StartSession, Propose(10));
    RunOfTwo(LAPSING, ApiApprove, Wait(10));
  }

  lemma ItIsProposedAgain()
    ensures Next(LAPSING.(now := 10, outstanding := [Command(0, 0)]), Sweep) == LAPSED
    ensures Run(LAPSING.(now := 10, outstanding := [Command(0, 0)]), [Sweep, Propose(180)]) == REPROPOSED
  {
    var st := LAPSING.(now := 10, outstanding := [Command(0, 0)]);
    assert ExpireStale(st.proposals, 10) == LAPSED.proposals;
    assert Next(st, Sweep) == LAPSED;
    RunOfTwo(st, Sweep, Propose(180));
    assert NewestProposed(LAPSED.proposals).None?;
    assert Next(LAPSED, Propose(180)) == REPROPOSED;
  }

  lemma ItIsRefusedTooLate()
    ensures Next(REPROPOSED, Handle(0, BookAccepted)) == REPROPOSED.(outstanding := [Answer(0, 0, Refused(false))])
    ensures Run(REPROPOSED, [Handle(0, BookAccepted), React(0)]) == STRAY
  {
    RunOfTwo(REPROPOSED, Handle(0, BookAccepted), React(0));
    assert Without([Answer(0, 0, Refused(false))], 0) == [];
  }

  lemma AStaleRefusalLeavesAStray()
    ensures Run(INITIAL, OVERTAKEN) == STRAY && !NoStray(STRAY)
    ensures Next(STRAY, Sweep) == STRAY && Next(STRAY, ApiApprove) == STRAY
  {
    hide Next, Run;
    ItLapses();
    ItIsProposedAgain();
    ItIsRefusedTooLate();
    NobodyRepairsIt();
    var second := [Sweep, Propose(180)] + [Handle(0, BookAccepted), React(0)];
    RunSplits(INITIAL, [StartSession, Propose(10)], [ApiApprove, Wait(10)] + second);
    RunSplits(LAPSING, [ApiApprove, Wait(10)], second);
    RunSplits(LAPSING.(now := 10, outstanding := [Command(0, 0)]), [Sweep, Propose(180)], [Handle(0, BookAccepted), React(0)]);
  }

  lemma NobodyRepairsIt()
    ensures !NoStray(STRAY)
    ensures Next(STRAY, Sweep) == STRAY && Next(STRAY, ApiApprove) == STRAY
  {
    assert LiveRow(STRAY.proposals[1], STRAY.now);
    assert ExpireStale(STRAY.proposals, 10) == STRAY.proposals;
  }

  /** The run is a disciplined one: the discipline keeps trades single, not sessions paused. */
  lemma OvertakenIsDisciplined()
    ensures DisciplinedRun(INITIAL, OVERTAKEN)
  {
    ItLapses();
    ItIsProposedAgain();
    ItIsRefusedTooLate();
    var fourth := [Handle(0, BookAccepted), React(0)];
    var third := [Sweep, Propose(180)] + fourth;
    var second := [ApiApprove, Wait(10)] + third;
    DisciplinedPair(REPROPOSED, Handle(0, BookAccepted), React(0), []);
    assert fourth == [Handle(0, BookAccepted), React(0)] + [];
    DisciplinedPair(LAPSING.(now := 10, outstanding := [Command(0, 0)]), Sweep, Propose(180), fourth);
    DisciplinedPair(LAPSING, ApiApprove, Wait(10), third);
    DisciplinedPair(INITIAL, StartSession, Propose(10), second);
  }

  lemma DisciplinedPair(st: State, a: Step, b: Step, rest: seq<Step>)
    requires Disciplined(st, a) && Disciplined(Next(st, a), b) && DisciplinedRun(Run(st, [a, b]), rest)
    ensures DisciplinedRun(st, [a, b] + rest)
  {
    RunOfTwo(st, a, b);
    var all := [a, b] + rest;
    assert all[1..] == [b] + rest && ([b] + rest)[1..] == rest;
  }
}
