# Verified models of the trading platform's core protocols

This project models the parts of the platform whose behaviour spans many steps, and proves
what they keep over every run:

- **The signal engine's market-data plane.** Bounded candle rings and the open-interest ring
  (`Ring.dfy`, `FeatureStore.dfy`), bars and ban arithmetic (`Bars.dfy`), what a venue's answer
  does to a window (`Grid.dfy`), a round, a tick and a run of wake-ups (`Feed.dfy`), bootstrap
  and its write log (`Bootstrap.dfy`), gap-freedom over whole runs and which bans are honoured
  (`GapFreePolling.dfy`), what a tick achieves (`Ticks.dfy`), what an attempt loads, the hand-off
  and the cost of a miss (`HandOff.dfy`), what the newest event may claim (`Freshness.dfy`), and
  the loops themselves as a class (`Ingest.dfy`).
- **Chart structure.** Swings (`Swings.dfy`), unfilled fair-value gaps (`Gaps.dfy`) and
  liquidity pools (`Pools.dfy`, over `Sorting.dfy` and `Sums.dfy`).
- **The numeric layer over the reals.** EMA, efficiency ratio, correlation (`Indicators.dfy`),
  ATR and its percentile (`Volatility.dfy`), the tradability score (`Scoring.dfy`), median and
  MAD (`OrderStatistics.dfy`), tie-averaged ranks (`Ranks.dfy`).
- **The daemon's control protocols.** Approval, sweep and lost replies
  (`ApproveProtocol.dfy`), the cause of every booking, decision and move (`ApproveCauses.dfy`),
  and the stream tier with its linger (`StreamGate.dfy`).
- **The backtest lab.** Bracket resolution and repricing (`Bracket.dfy`), entry confirmation
  (`Confirmation.dfy`), the event study's runs (`BandStudy.dfy`) and where their events come
  from (`BandEvents.dfy`), the volatility gate (`VolGate.dfy`).

Code that computes is modelled as functions; code that loops or updates state is modelled as
methods (and, where it is an object, classes) proved equal to a specification function or to
the old state's value, and the theorems are about that function. Replies of a venue, a
database, the market or an operator are inputs, so every theorem ranges over all of them.

## Where the code differs from what it says

Each of these is stated as a lemma, with the condition under which the code does what it
says; the code, not the comment, was modelled.

- *"A brief outage self-heals"* (`signal-engine/src/ingest.rs:485-488`) holds for bans and for
  time in which no round commits. A request that fails for any other reason still lets the
  cursor advance. Over every run after that, none of the bars it missed enters the window while
  the venue answers what it is asked (`HandOff.ACommittedFailureIsNeverMadeUp`), nor under any
  answers once a later bar is stored (`HandOff.APassedBarIsLostForGood`). From a window that ends
  at the cursor the same gap opens when a further bar closes between the clock read of a tick and
  the venue's answer, or when more than 99 bars were missed
  (`GapFreePolling.UpToDateFromTheCursorExactlyWhen`, exact). A round stopped by a ban leaves the
  windows it was answered for ahead of the cursor (`ABannedRoundLeavesWindowsAhead`), and such a
  window needs no answer in the next round; `UpToDateExactlyWhen` is exact for every window.
- *"bootstrap_history just filled the store"* (`signal-engine/src/ingest.rs:510-511`): the
  cursors start at the poller's first clock reading whatever bootstrap stored, so a bar that
  closes between a bootstrap answer and that reading is never asked for
  (`HandOff.HandOffIsGapFreeExactlyWhen`, exact; `ABarClosesInTheHandOff` is a start that loses one).
- A round keeps asking every remaining symbol after one reply reported a ban, and the last
  rate-limit reply alone decides (`GapFreePolling.TheLastRateLimitDecides`). A round honours
  every ban reported in it exactly when no earlier reply asks for longer than the last
  (`GapFreePolling.EveryBanIsHonouredExactlyWhen`); `ALongerBanCutShort` is a round that does not.
- `poll_klines` is documented not to advance `last_event_ts`
  (`signal-engine/src/ingest.rs:490-492`), but a round leaves a symbol's newest event as it was
  exactly when no row it stores for the symbol is newer
  (`Freshness.ARoundKeepsTheHeartbeatExactlyWhen`; `APolledBarIsAHeartbeat` is a round that raises it).
- *A session never books a second trade, and a paused session whose trade is open is never
  resumed* (`crypto-trading-agent/src/multi_user_daemon.py:810-819`) fails for the API and for
  the sweeper. A second approval in flight, a stale refusal, a row orphaned when a meter ends
  its session, or an approval that books such a row can each break it.
  `ApproveProtocol.OneTradeBreaksExactlyAtAHazard` gives the exact steps, trades counted by the
  session whose approval booked them; `SweepRecoversExactlyWhen` says what a sweep does; four
  concrete runs break the promise, and `DisciplinedRunsOpenOneTradeASession` gives a discipline
  under which it holds.
- *A pending proposal and a paused session imply each other*
  (`crypto-trading-agent/src/multi_user_daemon.py:812-814`): a sweep restores one half, a paused
  session only over a live row, on every run. The other half is lost exactly at the steps of
  `ApproveProtocol.StraysAppearExactlyWhen` and not restored by sweep or approve;
  `AStaleRefusalLeavesAStray` is a run that loses it, a disciplined one
  (`OvertakenIsDisciplined`), and on runs without such a step a swept session is paused exactly
  while a row is live (`SweptSessionsArePausedExactlyWhileLive`).
- A refusal's `retryable` flag is documented to tell whether the proposal is still proposed
  (`crypto-trading-agent/src/multi_user_daemon.py:719-724`). A daemon without the user's engine
  answers without the flag, which resumes the scan under a proposed row
  (`ApproveProtocol.RetryableIsTruthfulExactlyWhen`, exact).
- The stop of a confirmed entry is documented as behind the extreme "through the absorption
  bar" (`crypto-trading-agent/src/strategy/s1_signals.py:164-170`). The scan keeps extending it,
  so the stop is the documented one exactly when no later bar through the entry goes beyond
  that extreme (`Confirmation.StopIsAsDescribedExactlyWhen`, and `TheStopCanMoveOn` for a tape
  where one does).
- *"All past-only by construction"* (`backtest-lab/study_s1_ab_v2.py:111-112`): the gate also
  asks whether the tape reaches the end of the bar's hour, so the bars of the tape's last,
  partial hour are shut (`VolGate.GateSeesOnlyThePast`, exact; `ThePartialHourIsShut` is a pair of
  tapes).
- `run_symbol` raises exactly when the first swing of a run is inverted, because its
  invalidation was never assigned (`BandStudy.RunsRaiseExactlyWhen`, and
  `AnInvertedFirstSwingRaises` for one).
- *"Truth is between the two runs' results"* (`backtest-lab/study_s1_ab.py:42-44`) is proved
  exactly (`Bracket.TheTruthIsBetweenTheRuns`); with a target nearer than one R behind a stop on
  the winning side it would be false (`ASmallTargetBehindAStopFlatters`).
- The history veto checks neither the fast average's period nor the volatility window:
  `Scoring.GatedScoresRestOnDataExactlyWhen` says exactly what must hold besides.

## Model

| member | source | states |
|---|---|---|
| `Bars.BansAreBounded` | signal-engine/src/ingest.rs:34-54 | every rate-limit status of either venue leads to a wait that ends in the future and within an hour, including Bybit's 403, which has no rule of its own and waits ten minutes |
| `Bars.BoundaryIsTheLastSettledBar` | signal-engine/src/ingest.rs:92-94 | the truncating arithmetic gives the newest grid boundary at least the delay old exactly when the clock is past the delay or on the grid before it, and then no other value meets that description |
| `Ring.WindowIsTheNewestOfTheList` | signal-engine/src/feature_store.rs:121-146 | after any pushes the bounded window is the last 600 entries of the unbounded append/overwrite/drop list |
| `Ring.ListHoldsExactlyTheSurvivors` | signal-engine/src/feature_store.rs:121-146 | the list, and so the window, holds exactly the bars that were accepted and not overwritten, strictly ascending in close time |
| `Ring.RefetchIsIdempotent` | signal-engine/src/ingest.rs:485-488 | storing any batch twice, sorted or not, equals storing it once, on the unbounded list |
| `Ring.RefetchIsIdempotentInTheWindow` | signal-engine/src/ingest.rs:485-488 | the same for the bounded window |
| `FeatureStore.SymbolState.PushCandle` | signal-engine/src/feature_store.rs:121-146 | the method keeps the window equal to the newest entries of the ghost history, and the newest event time equal to the maximum of all accepted ones; a stale bar changes neither; and it does to its part of the shared store just what the run functions do |
| `FeatureStore.SymbolState.ClearCandles` | signal-engine/src/feature_store.rs:112-115 | drops every window and the freshness claim, and nothing else |
| `FeatureStore.SymbolState.PushOpenInterest` | signal-engine/src/feature_store.rs:160-179 | a negative value changes nothing; any other refreshes the one-hour reference from the newest 128 samples |
| `FeatureStore.SymbolState.UpdateBook` | signal-engine/src/ingest.rs:387-392 | the book update raises the newest event and touches no window and no sample |
| `FeatureStore.SymbolState.IsWarm` | signal-engine/src/feature_store.rs:182-190 | warm exactly when every configured timeframe has enough bars |
| `FeatureStore.RingAnswersLikeTheHistory` | signal-engine/src/feature_store.rs:160-179 | the bounded ring answers "newest sample at or before the cutoff" like the unbounded history if and only if nothing was evicted, its oldest sample is old enough, or no sample ever was |
| `FeatureStore.SpacedSamplesAnswerExactly` | signal-engine/src/feature_store.rs:81-83 | samples at least 28,347 ms apart always get the exact one-hour reference from 128 samples |
| `FeatureStore.OiDeltaComparesWithTheHour` | signal-engine/src/feature_store.rs:73-79 | so spaced, the published one-hour change compares with the whole history's hour-old sample, and is zero without one |
| `FeatureStore.OneMillisecondLessLosesTheHour` | signal-engine/src/feature_store.rs:81-83 | the spacing is sharp: at 28,346 ms the reference is lost for good in a run of any length |
| `FeatureStore.StaleMeansNothingYoungEnough` | signal-engine/src/pulse.rs:281-289 | a feed reads stale exactly when every accepted event is over age; one event in the future keeps it fresh |
| `Grid.AnswerKeepsContiguityExactly` | signal-engine/src/ingest.rs:584-593 | storing the n newest closed bars keeps a contiguous window contiguous if and only if they reach back to its end |
| `Grid.AMissedBarIsNeverStored` | signal-engine/src/feature_store.rs:121-146 | a bar older than the newest stored one can never enter the window again |
| `GapFreePolling.MissedCountsBars` | signal-engine/src/ingest.rs:541-546 | on the grid the clamped division is exactly the number of missed bars, up to 99 |
| `GapFreePolling.RoundKeepsGapFree` | signal-engine/src/ingest.rs:540-603 | one clean round keeps every symbol's window a contiguous run up to the cursor, whether it commits or a ban leaves the cursor alone; committed, it leaves no symbol without bars |
| `GapFreePolling.CleanRunsAreGapFree` | signal-engine/src/ingest.rs:494-605 | the same over every run of wake-ups from a gap-free start: bans, outages of at most 99 bars, any number of symbols, all timeframes, the other pollers in between |
| `Ticks.ATickMovesExactly` | signal-engine/src/ingest.rs:535-604 | a tick inside a ban does nothing; outside one it moves exactly the due timeframes before the first one a ban stops, to the newest settled boundary, and stores for those and for the stopped one just the sane closed rows each symbol was answered |
| `Ticks.AnUnstoppedTickReachesEveryBoundary` | signal-engine/src/ingest.rs:539-603 | when no round is stopped every timeframe, M5 to H4, ends at its boundary or where it already was beyond it |
| `Ticks.AnsweredSymbolsReachTheBoundary` | signal-engine/src/ingest.rs:556-602 | whatever else stopped or failed in the tick, a symbol that was answered ends with a contiguous window up to the boundary |
| `Ticks.AServedTickCatchesUp` | signal-engine/src/ingest.rs:535-604 | progress: from a gap-free state one served tick outside a ban brings every window of every symbol on every timeframe up to its boundary |
| `Ticks.AnyCleanRunCatchesUp` | signal-engine/src/ingest.rs:485-488 | so the feed catches up after any clean run of bans and outages |
| `Ticks.TheNewestIsTheNewestThatCame` | signal-engine/src/ingest.rs:387-392 | over every run of wake-ups a symbol's newest event never falls, is at least every quote and reading that came, and is one that came or what it was before |
| `HandOff.HandOffIsGapFreeExactlyWhen` | signal-engine/src/ingest.rs:510-516 | the poller starts gap-free after bootstrap if and only if no bar closed between a bootstrap answer and the first clock reading for its timeframe |
| `HandOff.ProcessesAreGapFree` | signal-engine/src/main.rs:89-122 | from bootstrap on: a clean hand-off and clean wake-ups keep every window a gap-free run up to the cursor |
| `HandOff.ABarClosesInTheHandOff` | signal-engine/src/ingest.rs:510-516 | a concrete start that is not gap-free: a bar closes between the answer and the first clock reading |
| `GapFreePolling.ABannedRoundLeavesWindowsAhead` | signal-engine/src/ingest.rs:599-602 | a clean round that a ban stops leaves the cursor alone and the windows of the symbols it was answered for contiguous up to its boundary, ahead of the cursor |
| `GapFreePolling.UpToDateExactlyWhen` | signal-engine/src/ingest.rs:556-602 | wherever its window ends, a symbol is up to date after a committed round if and only if: not answered, it was at the boundary already; answered, the rows reach back to its window, and rows or window reach the boundary |
| `GapFreePolling.UpToDateFromTheCursorExactlyWhen` | signal-engine/src/ingest.rs:556-602 | from a window that ends at the cursor: if and only if it was answered, no further bar had closed, and at most 99 bars were missed |
| `GapFreePolling.ACommittedFailureNeverHeals` | signal-engine/src/ingest.rs:556-582 | on one window: the next full answer after a committed miss leaves a gap, and no batch of rows puts the bar back |
| `HandOff.ACommittedFailureIsNeverMadeUp` | signal-engine/src/ingest.rs:556-602 | over every run after a committed round in which a symbol's request failed, none of the bars it missed enters its window while the venue answers what it is asked |
| `HandOff.ServedAnswersAreNotOlder` | signal-engine/src/ingest.rs:546-555 | a venue that serves the missed bars as of the round's boundary or later answers just that |
| `HandOff.APassedBarIsLostForGood` | signal-engine/src/feature_store.rs:121-146 | a bar missing behind a newer one stays missing over every run, whatever the venue answers |
| `GapFreePolling.TheLastRateLimitDecides` | signal-engine/src/ingest.rs:560-569 | for every list of replies the ban after a round is what its last rate-limit reply asks for; without one the ban stands |
| `GapFreePolling.EveryBanIsHonouredExactlyWhen` | signal-engine/src/ingest.rs:560-602 | a round waits out every ban reported in it if and only if no earlier rate-limit reply asks for longer than the last one |
| `GapFreePolling.ReportedExpiriesAreAsked` | signal-engine/src/ingest.rs:34-54 | an expiry in the future is asked for as reported, up to an hour |
| `GapFreePolling.ALongerBanCutShort` | signal-engine/src/ingest.rs:560-569 | a round in which an hour's ban is cut to a minute |
| `Ingest.Plane.ClearAll` | signal-engine/src/ingest.rs:125-130 | an attempt starts from an empty store |
| `Ingest.Plane.StoreAnswer` | signal-engine/src/ingest.rs:584-593 | stores exactly the sane rows in order, counts them, and appends to the log exactly those bars under the answering venue |
| `Ingest.Plane.BootstrapFrom` | signal-engine/src/ingest.rs:158-235 | one venue's attempt: a rate limit aborts it, any other failure skips the key; the store and the outcome are the specification's |
| `HandOff.AttemptsEnd` | signal-engine/src/ingest.rs:158-235 | an attempt is banned by the first rate-limit answer for as long as that one asks, and otherwise loads, something exactly when some answer held a sane closed bar |
| `HandOff.VenuesServeExactlyWhen` | signal-engine/src/ingest.rs:110-154 | a venue serves exactly when it limits no request and answers some symbol with a sane closed bar, and every window then holds just what it answered there |
| `HandOff.TheWaitIsALimit` | signal-engine/src/ingest.rs:141-153 | when nobody serves the process waits for a venue exactly if one limited it, and first for the first |
| `Ingest.Plane.BootstrapHistory` | signal-engine/src/ingest.rs:110-152 | returns the first venue of the fallback order that serves, if any does, with just the bars it served; otherwise the wait the first rate-limited venue asked for |
| `Ingest.Plane.ChooseVenue` | signal-engine/src/main.rs:89-112 | the retry loop returns the venue of the first attempt that loads anything, with the store that attempt left, all of it from that venue |
| `Ingest.Plane.PollTimeframe` | signal-engine/src/ingest.rs:540-603 | one round equals the specification: every symbol is asked, the cursor moves unless a ban outlasts the round |
| `Ingest.Plane.PollOnce` | signal-engine/src/ingest.rs:535-604 | one wake-up equals the specification's tick, which `Ticks.ATickMovesExactly` describes without the loop |
| `Ingest.Plane.StartPolling` | signal-engine/src/ingest.rs:510-516 | every timeframe's cursor starts at the newest settled boundary, whatever the store holds |
| `Ingest.Plane.StampEvents` | signal-engine/src/ingest.rs:387-392 | quotes and readings raise the newest event of their symbol, in order, and touch no window |
| `Feed.StampsRaiseTheNewest` | signal-engine/src/ingest.rs:387-392 | after any stamps a symbol's newest event is the maximum of what it was and its stamps: at least each of them, and one of them |
| `Ingest.Plane.HandleWake` | signal-engine/src/ingest.rs:284-305 | one wake-up of the kline, book or open-interest poller equals the run function's step, whose newest events `Ticks.TheNewestIsTheNewestThatCame` describes |
| `Ingest.Plane.Operate` | signal-engine/src/main.rs:89-145 | over the life of the process every stored bar comes from the one venue returned, the state is the run functions', and a symbol reads stale exactly when everything logged for it is over age |
| `Freshness.EveryStoredBarWasServed` | signal-engine/src/ingest.rs:214-226 | every bar a window shows was written by a logged answer, so under one venue it is that venue's |
| `Freshness.LastEventIsTheNewestLogged` | signal-engine/src/feature_store.rs:145-178 | after any log of bars, quotes and readings a symbol's newest event is the maximum of those logged for it, and no stored bar is newer |
| `Freshness.NothingAheadExactlyWhen` | signal-engine/src/ingest.rs:214-226 | nothing is stamped ahead of the clock exactly when everything logged had happened |
| `Freshness.StaleExactlyWhenOverAge` | signal-engine/src/pulse.rs:281-289 | a symbol reads stale exactly when everything logged for it is over age |
| `Freshness.ARoundKeepsTheHeartbeatExactlyWhen` | signal-engine/src/ingest.rs:584-593 | a round leaves a symbol's newest event as it was exactly when no row it stores for the symbol is newer |
| `Freshness.APolledBarIsAHeartbeat` | signal-engine/src/ingest.rs:490-492 | a concrete round that advances it |
| `Freshness.CleanRoundsAreHonest` | signal-engine/src/ingest.rs:584-593 | every reply of a clean round holds only bars closed by its boundary, the forming one apart |
| `Freshness.WalkKeepsNothingAhead` | signal-engine/src/ingest.rs:584-593 | a tick stamps no event ahead of the clock, because the forming row is dropped before anything is stored |
| `Freshness.RunsKeepNothingAhead` | signal-engine/src/ingest.rs:494-605 | the same over every run of bars, quotes and open-interest readings |
| `Freshness.TheProcessKeepsNothingAhead` | signal-engine/src/main.rs:89-145 | the same from bootstrap on |
| `Freshness.BootstrapKeepsNothingAhead` | signal-engine/src/ingest.rs:214-226 | the same for bootstrap |
| `Freshness.StoringTheFormingRowHidesADeadFeed` | signal-engine/src/ingest.rs:216-221 | had the last row been stored too, a feed that then dies would read fresh at every moment until the budget after that bar's close |
| `Swings.SwingPoints` | signal-engine/src/structure.rs:83-123 | the loop equals the scan the theorems are about |
| `Swings.ReportIsExactlyTheExtrema` | signal-engine/src/structure.rs:83-123 | the report is exactly the strict window extrema, in index order |
| `Swings.SameKindSwingsAreApart` | signal-engine/src/structure.rs:83-123 | two swings of one kind are more than the look-back apart |
| `Swings.SwingsNeverRepaint` | signal-engine/src/structure.rs:72-82 | the swings of a series are a prefix of the swings of every extension |
| `Swings.EvictionOnlyShiftsSwings` | signal-engine/src/structure.rs:83-123 | for every series and look-back, dropping the oldest bar shifts indices and removes at most the swing at the look-back index |
| `Swings.SlidingWindowNeverRepaints` | signal-engine/src/structure.rs:83-123 | both at once: one bar in, one bar out |
| `Gaps.FairValueGaps` | signal-engine/src/structure.rs:201-243 | the loop equals the scan the theorems are about |
| `Gaps.ReportIsExactlyTheUnfilledGaps` | signal-engine/src/structure.rs:201-243 | the report is exactly the gaps young enough that no later bar has touched, in index order |
| `Gaps.GapsAreTheUntouchedStretches` | signal-engine/src/structure.rs:201-243 | on well-formed bars the report is exactly the stretches of price strictly between the bars on both sides of an index, bullish when the later bar is above and bearish when below, that no bar from two later on has touched, among the last `max_age` bars |
| `Gaps.GapsAreMaintainable` | signal-engine/src/structure.rs:201-243 | after one more bar: the old gaps it does not touch and that have not aged out, then the gap it opens, if any |
| `Gaps.GapsNest` | signal-engine/src/structure.rs:201-243 | two reported gaps at least two indices apart meet in at most a point, or the later contains the earlier |
| `Gaps.NeighbouringGapsCanOverlap` | signal-engine/src/structure.rs:201-243 | at neighbouring indices they can properly overlap: a concrete tape |
| `Pools.LiquidityPools` | signal-engine/src/structure.rs:295-342 | the loops equal the grouping the theorems are about, each kind over its own swings |
| `Pools.GroupsPartitionThePrices` | signal-engine/src/structure.rs:310-323 | laid end to end the groups are the prices, each of them once |
| `Pools.GreedyUsesTheFewestGroups` | signal-engine/src/structure.rs:303-325 | for positive prices the groups partition them, and no grouping whose members are within tolerance of their lowest price, contiguous or not, uses fewer |
| `Pools.GroupingNumbersTheGroups` | signal-engine/src/structure.rs:310-323 | each price lies, at its own place, in the group it is numbered for |
| `Pools.GreedyIsValid` | signal-engine/src/structure.rs:303-325 | the groups, so numbered, are such a grouping |
| `Pools.PublishedPools` | signal-engine/src/structure.rs:295-342 | the published pools are exactly the groups of two or more swings of one kind, each as its price range, and the pools of a kind are disjoint and ascending |
| `Pools.GroupsCountTheSwings` | signal-engine/src/structure.rs:301-306 | the groups of a kind hold each price exactly as often as swings of that kind stand there |
| `Pools.PoolsSpanTheirOwnSwings` | signal-engine/src/structure.rs:301-342 | a published pool is between two different swings of its own kind, lower end first and within the tolerance of each other |
| `Pools.TwoAtAPriceAreAPool` | signal-engine/src/structure.rs:290-342 | two swings of one kind at one price are always published |
| `Pools.PoolsIgnoreTheOrderOfSwings` | signal-engine/src/structure.rs:295-342 | the pools depend only on the multiset of swing prices of each kind |
| `OrderStatistics.MajorityBoundsTheMedian` | signal-engine/src/quant.rs:362-377 | with strictly more than half the values in an interval, so is the median |
| `OrderStatistics.MajorityBoundsTheDeviation` | signal-engine/src/quant.rs:380-390 | and the median deviation is at most the interval's width, whatever the other values are |
| `OrderStatistics.HalfIsNotEnough` | signal-engine/src/quant.rs:392-398 | the half is sharp: one of two values drags the median beyond any bound |
| `OrderStatistics.DeviationVanishesExactlyUnderAMajority` | signal-engine/src/quant.rs:396-406 | the deviation is zero, and so no robust score exists, exactly when strictly more than half the values are identical |
| `OrderStatistics.MediansFollowTheUnits` | signal-engine/src/quant.rs:362-377 | the median of values in other units, scaled, turned around or shifted, is the median in those units |
| `OrderStatistics.ScoresIgnoreTheUnits` | signal-engine/src/quant.rs:380-406 | the deviation scales with the size of the units, and a robust score is the same in any units up to the sign of a turn; it counts scaled deviations from the median |
| `Indicators.Ema` | signal-engine/src/indicators.rs:47-60 | the loop equals the fold of the incremental step over the seed |
| `Indicators.IncrementalEmaMatchesBatch` | signal-engine/src/indicators.rs:62-70 | keeping the average live with the step equals rescanning, for any continuation |
| `Indicators.EmaIsTheFadingMean` | signal-engine/src/indicators.rs:62-70 | in closed form: a share of 2 / (period + 1) of each value, faded by the rest for every value after it, and what is left of the seed |
| `Indicators.AveragesAreFadingMeans` | signal-engine/src/indicators.rs:47-60 | defined exactly from `period` values on, with their plain mean as the seed |
| `Indicators.AveragesFollowTheDirection` | signal-engine/src/indicators.rs:44-60 | on values that never fall the fast average is at or above the slow one, on values that never rise at or below it, for any two periods and any length |
| `Indicators.NetIsAtMostThePath` | signal-engine/src/indicators.rs:113-138 | net travel is at most path length, with equality exactly for a monotone window |
| `Indicators.EfficiencyNeedsNoClamp` | signal-engine/src/indicators.rs:113-138 | the clamp never bites, and the ratio is one exactly for a monotone window with a measurable path |
| `Indicators.CovarianceSums` | signal-engine/src/indicators.rs:161-179 | the three accumulators are the products of the centred series |
| `Indicators.CorrelationNeedsNoClamp` | signal-engine/src/indicators.rs:161-186 | with the exact root the quotient lies between minus one and one, and its square is one exactly for proportional centred series |
| `Sums.CauchySchwarz` | signal-engine/src/indicators.rs:161-186 | squared dot product at most the product of the squares, with equality exactly for proportional sequences |
| `Volatility.Atr` | signal-engine/src/indicators.rs:76-102 | the loop equals Wilder's smoothing of the true ranges after their seed |
| `Volatility.TrueRangeIsTheSpan` | signal-engine/src/indicators.rs:26-32 | a true range spans the bar and the close before it |
| `Volatility.WilderIsAnExponentialAverage` | signal-engine/src/indicators.rs:76-102 | Wilder's smoothing over n ranges is the exponential average of period 2n - 1 |
| `Volatility.AtrIsTheFadingMean` | signal-engine/src/indicators.rs:76-102 | so in closed form: the mean of the first ranges, and after it a share of one over the period of each range, faded by the rest |
| `Volatility.AtrStaysWithinTheRanges` | signal-engine/src/indicators.rs:76-102 | the average never leaves the span of the true ranges |
| `Volatility.RanksAreFractions` | signal-engine/src/indicators.rs:145-155 | a percentile is a fraction, grows with the value, and is one exactly above the whole sample and zero exactly at or below all of it |
| `Volatility.CountBelowCounts` | signal-engine/src/indicators.rs:145-155 | what a percentile counts are the positions of the sample below the value |
| `Volatility.HistoryIsEachWindow` | signal-engine/src/scoring.rs:504-519 | on sane bars the history has one range percentage for each end after the first full period, over the whole window up to it |
| `Volatility.Volatility` | signal-engine/src/scoring.rs:492-525 | the method returns the reading, with zero and the midpoint in place of what could not be measured |
| `Volatility.MeasuredExactlyWhen` | signal-engine/src/scoring.rs:492-525 | on sane bars the range is measured exactly from one bar more than its period, its percentile exactly when the look-back window also outlasts the period |
| `Volatility.ReadingsAreInRange` | signal-engine/src/scoring.rs:492-525 | measured readings are a non-negative percentage and a fraction |
| `Scoring.PrimaryIsTheLastHeaviest` | signal-engine/src/scoring.rs:436-442 | the primary is the last of the heaviest timeframes that have bars, and only that one |
| `Scoring.Trend` | signal-engine/src/scoring.rs:452-485 | the loop equals the weighted vote |
| `Scoring.VotesFollowThePrice` | signal-engine/src/scoring.rs:456-478 | on closes that never fall a timeframe never votes down, on closes that never rise never up |
| `Scoring.VotesAreSeparations` | signal-engine/src/scoring.rs:467-474 | a vote is up or down exactly when the averages are at least the dead band of the price apart |
| `Scoring.TrendNeedsNoClamp` | signal-engine/src/scoring.rs:480-485 | the clamps never bite, and full alignment means every weighted vote points the same way |
| `Scoring.ScoresArePercentages` | signal-engine/src/scoring.rs:594-606 | the weighted score is a percentage without its clamp, and a hundred exactly when every weighted factor is one |
| `Scoring.VetoedDimensionsScoreZero` | signal-engine/src/scoring.rs:562-592 | at or past the funding and spread limits the factor is already zero |
| `Scoring.Score` | signal-engine/src/scoring.rs:217-346 | vetoes, factors and tradability are the specification's, in the order they are pushed; `VetoesExactlyWhen` and `ScoresExactlyWithinLimits` say when a veto falls and what the score is |
| `Scoring.VetoesExactlyWhen` | signal-engine/src/scoring.rs:220-260 | each veto is in the list exactly under its own inequality, and at most once |
| `Scoring.ScoresExactlyWithinLimits` | signal-engine/src/scoring.rs:217-346 | nothing is vetoed exactly when age, spread, depth and funding are within their limits and the primary has more bars than each period; then the score is the weighted mean of the factors as a whole percentage, rounded half up, and otherwise zero |
| `Scoring.PositioningFallsWithFunding` | signal-engine/src/scoring.rs:562-577 | full exactly without funding; lost in proportion to it, up to twice as fast as open interest builds, and gone exactly where that reaches the limit |
| `Scoring.BooksAreAsGoodAsTheirWorstSide` | signal-engine/src/scoring.rs:580-592 | the spread's share of its limit is lost and the depth's share of its target kept; the worse of the two counts |
| `Scoring.LiquidityFollowsTheClock` | signal-engine/src/scoring.rs:545-555 | the clock factor repeats daily, is full exactly in the overlap of London and New York, and least exactly in the first three hours |
| `Scoring.FactorsMeasureThePrimary` | signal-engine/src/scoring.rs:436-525 | efficiency is net travel over path for the primary's last closes and volatility the hump at its percentile; without bars both fall back |
| `Scoring.VanishingLimitsAreNotDividedBy` | signal-engine/src/scoring.rs:480-606 | with a vanishing funding limit positioning is full, with a vanishing spread limit or depth target the book counts for nothing, and without weight trend and score are zero |
| `Scoring.GatedScoresRestOnDataExactlyWhen` | signal-engine/src/scoring.rs:251-271 | past the history gate no default stands in for a measurement if and only if the volatility window outlasts the range period and the fast average fits the bars |
| `Scoring.UnvetoedScoresRestOnData` | signal-engine/src/scoring.rs:258-271 | so an empty veto list guarantees it when the fast period is at most the slow one |
| `Scoring.APositiveScoreIsEarned` | signal-engine/src/pulse.rs:253-257 | a score lies in 0 to 100, and a positive one implies a young feed, a good enough book, tame funding and measured factors |
| `Scoring.ShippedPeriodsAreEnough` | signal-engine/src/scoring.rs:179-203 | the shipped periods meet the guarantee's conditions |
| `Ranks.Rank` | signal-engine/eval/evaluate.py:116-125 | for any order the sort may pick among ties, each rank is the count of smaller values plus half of the other equal ones |
| `Ranks.TiedPositionsSum` | signal-engine/eval/evaluate.py:120-125 | in sorted order a tied group fills consecutive positions, and this is their sum |
| `Ranks.RanksAddUp` | signal-engine/eval/evaluate.py:116-125 | ranks add up to n(n-1)/2 with or without ties |
| `Ranks.TransformsKeepRanks` | signal-engine/eval/evaluate.py:116-125 | a strictly increasing transform leaves every rank unchanged |
| `Ranks.SpearmanIsAtMostOne` | signal-engine/eval/evaluate.py:128-136 | squared rank correlation is at most one, in product form, and series that order alike attain it |
| `ApproveProtocol.RetryableMeansStillProposed` | crypto-trading-agent/src/multi_user_daemon.py:711-808 | a handler that reached the stores approves exactly when the market takes a live row, books exactly then, and its refusal is retryable exactly when the row is still proposed |
| `ApproveProtocol.RetryableIsTruthfulExactlyWhen` | crypto-trading-agent/src/multi_user_daemon.py:886-889 | over every refusal the flag is truthful except exactly for a proposed row without an engine and a decided one without the stores |
| `ApproveProtocol.StepKeepsSound` | crypto-trading-agent/src/multi_user_daemon.py:711-854 | every step keeps one live session, ordered proposals, decided rows and a booking log that is exactly the executed rows |
| `ApproveProtocol.RunsKeepSound` | crypto-trading-agent/src/core/session_manager.py:48-56 | the same over every run of API calls, handlers, sweeps, losses, meters and waits |
| `ApproveProtocol.EachProposalIsBookedAtMostOnce` | crypto-trading-agent/src/multi_user_daemon.py:787-807 | over every run a proposal is booked at most once, and exactly once if executed |
| `ApproveCauses.RepliesExactlyWhen` | crypto-trading-agent/src/multi_user_daemon.py:711-808 | approved exactly when the market takes a live row; retryable exactly without the stores, without a price for a proposed row, or on drift of a live one; and a refused booking rejects the row and books nothing |
| `ApproveCauses.StepsBookExactlyAtFills` | crypto-trading-agent/src/multi_user_daemon.py:787-798 | a step adds a booking exactly when a command meets a willing market on a live row, and then that one |
| `ApproveCauses.BookingsAreExactlyTheFills` | crypto-trading-agent/src/multi_user_daemon.py:787-798 | over every run the log holds exactly what was so filled, with the session whose command it was |
| `ApproveCauses.EveryDecisionHasItsCause` | crypto-trading-agent/src/core/proposals.py:291-457 | what any step makes of a row still proposed, by its cause: filled, breached, refused, turned down while pending, or found lapsed |
| `ApproveCauses.RowsAppearExactlyAtOffers` | crypto-trading-agent/src/core/session_pipeline.py:149-255 | a row is added exactly when a scanning session proposes with none of its own pending |
| `ApproveCauses.EveryMoveHasItsCause` | crypto-trading-agent/src/core/session_manager.py:48-56 | what any step makes of the live session, by its cause: an offer, an approval heard, a trade found behind it, a refusal heard, a rejection, its end; no other session moves |
| `ApproveCauses.RunsLeaveNothingExecuting` | crypto-trading-agent/src/api/server.py:1681-1684 | over every run no session is left executing |
| `ApproveCauses.CommandsLeaveExactlyOnApproval` | crypto-trading-agent/src/api/server.py:1715-1750 | a command leaves exactly when a paused session's user approves what is pending, and names that row |
| `ApproveCauses.OtherMessagesMoveExactlyWhen` | crypto-trading-agent/src/multi_user_daemon.py:711-808 | every other step answers a command where it stands, takes a message off, or leaves them all alone |
| `ApproveCauses.AnApprovalCompletes` | crypto-trading-agent/src/api/server.py:1673-1765 | undisturbed, approving what is pending executes the row, adds one booking and ends the session as trade-opened |
| `ApproveProtocol.OneTradeBreaksExactlyAtAHazard` | crypto-trading-agent/src/multi_user_daemon.py:810-819 | with trades counted by the session whose approval booked them: a step leads from one trade a session to two, or to a scan behind one, exactly when it is one of five named hazards |
| `ApproveProtocol.StepKeepsOrder` | crypto-trading-agent/src/api/server.py:1673-1778 | a disciplined step keeps the order that rules the hazards out |
| `ApproveProtocol.DisciplinedRunsOpenOneTradeASession` | crypto-trading-agent/src/api/server.py:1673-1825 | over every disciplined run a session books at most one trade and never scans behind it |
| `ApproveProtocol.SweepRecoversExactlyWhen` | crypto-trading-agent/src/multi_user_daemon.py:824-854 | a sweep leaves a paused session as it is exactly while a row of the user is live; otherwise it ends it as trade-opened exactly when its own newest row was executed, and else resumes it, behind its own trade exactly at the hazard |
| `ApproveProtocol.StraysAppearExactlyWhen` | crypto-trading-agent/src/multi_user_daemon.py:812-814 | a step leaves a row live behind a session that is not paused exactly when it ends or resumes the paused session while a row it does not decide is live |
| `ApproveProtocol.SweptSessionsArePausedExactlyWhileLive` | crypto-trading-agent/src/multi_user_daemon.py:812-814 | after a sweep a paused session has a live row on every run, and on every run without such a step the session is paused exactly while a row is live |
| `ApproveProtocol.AStaleRefusalLeavesAStray` | crypto-trading-agent/src/api/server.py:1774-1778 | a concrete run: a refusal that arrives late resumes the scan under the next live row, and neither sweep nor approve changes that |
| `ApproveProtocol.OvertakenIsDisciplined` | crypto-trading-agent/src/api/server.py:1774-1778 | that run keeps the discipline under which trades stay single |
| `ApproveProtocol.EveryRepairClosesALostReply` | crypto-trading-agent/src/api/server.py:1720-1739 | in an orderly state a sweep, an approve and a reject all close such a session |
| `ApproveProtocol.DoubleDispatchBooksTwice` | crypto-trading-agent/src/api/server.py:1746-1778 | a concrete run: two approvals in flight, a lost reply and a stale refusal book two trades in one session |
| `ApproveProtocol.OrphanedRowResumesBehindATrade` | crypto-trading-agent/src/api/server.py:1781-1825 | a concrete run: a row orphaned by a meter makes a later reject resume a session behind its trade |
| `ApproveProtocol.ApprovingAgainBooksTheOrphan` | crypto-trading-agent/src/api/server.py:1715-1750 | a concrete run: after its own fill and a lost reply, approving again books the orphaned row too |
| `ApproveProtocol.TheSweepResumesBehindAHiddenTrade` | crypto-trading-agent/src/multi_user_daemon.py:834-852 | a concrete run: a session that booked an orphaned row is resumed by the sweep and books another |
| `StreamGate.StreamGateLoop` | crypto-trading-agent/src/multi_user_daemon.py:1173-1203 | the loop's profile, timer and calls equal the run function, dead branch included |
| `StreamGate.RaisesAreImmediate` | crypto-trading-agent/src/multi_user_daemon.py:1164-1165 | an equal or higher tier is applied at the first poll that asks for it, unless the call raises |
| `StreamGate.CallsGoOutExactlyWhen` | crypto-trading-agent/src/multi_user_daemon.py:1173-1203 | a profile is asked for exactly at an answered poll that wants another one, of no lower tier or closing a wait of the linger time, whether or not the call then goes through |
| `StreamGate.ExposureIsAlwaysPriced` | crypto-trading-agent/src/multi_user_daemon.py:1134-1153 | after any poll whose call goes through the tier in force covers the demand, and exposed symbols are streamed |
| `StreamGate.LowersExactlyAfterLinger` | crypto-trading-agent/src/multi_user_daemon.py:1156-1203 | over every run a poll lowers the tier exactly when it closes an unbroken wait of at least the linger time in which every answered poll asked for less |
| `StreamGate.FallsOnlyWhereLowered` | crypto-trading-agent/src/multi_user_daemon.py:1192-1200 | the tier in force falls exactly at a lowering poll whose call goes through |
| `StreamGate.LoweringsAreApart` | crypto-trading-agent/src/multi_user_daemon.py:1158-1163 | two lowering calls are at least the linger time apart |
| `StreamGate.PersistentDemandIsServed` | crypto-trading-agent/src/multi_user_daemon.py:1173-1203 | demand that persists for the linger time is in force |
| `Bracket.TwoScansAreOneWalk` | backtest-lab/study_s1_ab.py:68-87 | the two first-hit scans give the exit of a bar-by-bar walk, under either same-bar rule |
| `Bracket.RowsExitAtTheFirstLevelReached` | backtest-lab/study_s1_ab.py:55-90 | a row exits on the first bar after the entry bar that reaches a level, which one by the same-bar rule, or else at the 480th bar or the tape's last |
| `Bracket.NetAndFeesAddUpToTheGross` | backtest-lab/study_s1_ab.py:84-91 | under either study net and fees add up to the gross, one R lost at a stop behind the entry and the multiple won at the target, and the fees are each leg's rate on its price |
| `Bracket.TheTruthIsOneOfTwo` | backtest-lab/study_s1_ab.py:68-87 | whatever order the levels were really touched in, the exit bar is the same, and the price differs only when the first touching bar spans both |
| `Bracket.TheTruthIsBetweenTheRuns` | backtest-lab/study_s1_ab.py:42-45 | the true net R lies between the two rules' exactly when the stop loses to the target or no bar straddles, and always from one R up |
| `Bracket.ASmallTargetBehindAStopFlatters` | backtest-lab/study_s1_ab.py:42-45 | below one R, with the stop on the winning side, the pessimistic rule earns more: a concrete trade |
| `Bracket.BetterPriceBetterNet` | backtest-lab/study_s1_ab.py:84-90 | a better exit price is a better net R at every fee rate below one |
| `Bracket.RepricingKeepsTheOrder` | backtest-lab/study_s1_ab_v2.py:80-98 | on prices that are not negative, repricing keeps the pessimistic row at or below the optimistic one |
| `Bracket.RepricingAtTakerIsTheIdentity` | backtest-lab/study_s1_ab_v2.py:80-98 | repricing a resolved bracket at the taker rate on both legs returns its net R and fee R |
| `Confirmation.ConfirmEntry` | crypto-trading-agent/src/strategy/s1_signals.py:157-242 | the loop equals the scan the theorems are about |
| `Confirmation.EntersExactlyWhen` | crypto-trading-agent/src/strategy/s1_signals.py:157-242 | an entry exists exactly at the first flip after the first absorption inside the window, with no close beyond invalidation through it and a live market there |
| `Confirmation.ConfirmsExactlyTheEntry` | crypto-trading-agent/src/strategy/s1_signals.py:128-242 | the same in raw volumes and prices: taker surplus against the mean of the last sixty bars, the half of the bar it closed in, five-bar volume against its median, and the stop behind the worst price since the touch |
| `Confirmation.StopIsAsDescribedExactlyWhen` | crypto-trading-agent/src/strategy/s1_signals.py:164-170 | the stop stands behind the extreme through the absorbing bar exactly when no later bar through the entry goes beyond it |
| `Confirmation.TheStopCanMoveOn` | crypto-trading-agent/src/strategy/s1_signals.py:164-170 | a concrete tape on which it does not |
| `Confirmation.ConfirmedStopsLose` | crypto-trading-agent/src/strategy/s1_signals.py:229-240 | on well-formed bars the stop is strictly behind every bar from touch to entry, so the risk is positive |
| `Confirmation.ConfirmationSeesNoFuture` | crypto-trading-agent/src/strategy/s1_signals.py:157-242 | on a tape cut at any moment, exactly the whole tape's entry confirms if its bar had closed, and nothing otherwise |
| `BandStudy.RunSymbol` | backtest-lab/study_s1_ab.py:94-186 | the nested loops equal the run function for both studies; `BandEvents` says where its events come from |
| `BandEvents.VisitedHours` | backtest-lab/study_s1_ab.py:102 | a run visits the hours past the warm-up and short of the last |
| `BandEvents.EveryEventHasItsOwnSwing` | backtest-lab/study_s1_ab.py:102-148 | over every run each event is traced to the latest new swing at or before its hour: upright, long exactly when its low came before its high, the band its retracements from the later extreme, the arming close on the entry side, the touch through the edge and not closed beyond the invalidation; and no swing is traded twice |
| `BandEvents.HoursSettleExactly` | backtest-lab/study_s1_ab.py:122-142 | a live band waits exactly while no free bar of the next hour meets it, and the first that does consumes it, with an event or, closing beyond the invalidation, without one |
| `BandEvents.NoEventWithoutALiveBand` | backtest-lab/study_s1_ab.py:122-123 | without a live band an hour adds no event |
| `BandEvents.FreshSwingsAreLive` | backtest-lab/study_s1_ab.py:109-120 | a new upright swing has its band at once, live exactly with the close on the entry side |
| `BandEvents.RowsAreExactlyTheArmsBrackets` | backtest-lab/study_s1_ab.py:143-179 | the rows of an event are exactly the tradable brackets of the five arms at 1.5 and 2 R, each at its own bar, price and stop |
| `BandEvents.ArmsPayTheirStudysFees` | backtest-lab/study_s1_ab_v2.py:61-108 | each arm nets its gross less its study's rates on entry and exit |
| `BandEvents.BusyUntilTheLastExit` | backtest-lab/study_s1_ab.py:184-185 | the run is busy up to the last exit of the last event that traded, and no longer |
| `BandEvents.TheCutTapeIsEnough` | backtest-lab/study_s1_ab.py:147-148 | the eighty bars before and thirty-five after a touch confirm exactly what the whole tape does |
| `BandStudy.BandsLieInsideTheImpulse` | crypto-trading-agent/src/strategy/s1_signals.py:108-125 | a band exists exactly for an upright impulse, lies inside it with entry before invalidation as seen from the trade's side, and leaves the control stop beyond both |
| `BandStudy.ScanFindsTheFirstTouch` | backtest-lab/study_s1_ab.py:130-139 | an hour is touched at a bar exactly when that bar touches without closing beyond invalidation and no earlier one did either |
| `BandStudy.EveryTouchIsTradedExactlyWhen` | backtest-lab/study_s1_ab.py:147-186 | with positive prices a touch produces trades exactly when it is not on the tape's last bar |
| `BandStudy.EventsAreApart` | backtest-lab/study_s1_ab.py:184-186 | over every run whose hours are at least an hour apart, each event's last exit comes before the next one's touch |
| `BandStudy.TouchesFollowTheirHour` | backtest-lab/study_s1_ab.py:125-130 | a touch lies in the hour after the bar that armed the band closed |
| `BandStudy.EveryRunSeesTheSameEvents` | backtest-lab/study_s1_ab_v2.py:153-158 | same touches, confirmations, arms and exit bars under every rule and both fee models; and row by row pessimistic net R at most optimistic, under the first study always, under the second on positive prices |
| `BandStudy.RunsRaiseExactlyWhen` | backtest-lab/study_s1_ab.py:109-122 | a run raises exactly when its first swing is inverted |
| `BandStudy.AnInvertedFirstSwingRaises` | backtest-lab/study_s1_ab.py:109-122 | a concrete swing that raises |
| `VolGate.RealizedVolGateArrays` | backtest-lab/study_s1_ab_v2.py:110-133 | every entry of the three arrays is the statistic of its own window |
| `VolGate.ArraysGiveTheGate` | backtest-lab/study_s1_ab_v2.py:136-146 | lookup in those arrays is a gate decided by the bars before g, on tapes that reach the end of its hour |
| `VolGate.OpensExactlyBetweenTheQuartiles` | backtest-lab/study_s1_ab_v2.py:110-146 | open exactly when the bar's hour is complete, thirty days of hourly deviations lie before it, and the day up to the bar before deviates between their quartiles |
| `VolGate.GateSeesOnlyThePast` | backtest-lab/study_s1_ab_v2.py:110-146 | tapes that agree before g give the same gate for all statistics exactly when both or neither complete its hour, or g comes before bar 44,700 |
| `VolGate.ThePartialHourIsShut` | backtest-lab/study_s1_ab_v2.py:136-146 | two concrete tapes equal before g, one gate open and the other shut |
| `VolGate.ShutUntilMeasurable` | backtest-lab/study_s1_ab_v2.py:136-146 | with less history than that the gate is shut whatever the statistics are |

## Left out

- Fixed-width integers: timestamps are unbounded, so `saturating_sub` and 64-bit limits are not modelled.
- Floating point: prices and scores are reals; rounding, NaN and infinities are excluded by type.
- HTTP, JSON and string-to-number parsing (`venue.rs`): answers are typed rows, oldest first.
- Locking: each handler, round and sweep is one atomic step; the store's lock and per-symbol heap objects become one value map in `Ingest.Plane`, of which `FeatureStore.SymbolState` is one symbol's part.
- ApproveProtocol.StepKeepsSound: one tenant at a time, so the sweep's loop over sessions becomes its one live session; a handler that raises after it has begun to write is not modelled, and creating a proposal and pausing on it is one step.
- GapFreePolling.CleanRunsAreGapFree: assumes of each answer that the venue served the newest missed bars as of the round's own boundary; what happens otherwise is what UpToDateExactlyWhen and HandOff.ACommittedFailureIsNeverMadeUp say.
- Pools.GreedyUsesTheFewestGroups: for positive prices, as all traded prices are; the distance test divides by the anchor.
- FeatureStore.SpacedSamplesAnswerExactly: the poller's interval that keeps samples this far apart is an assumption.
- Indicators.CorrelationNeedsNoClamp: the square root is given as a number whose square is the product of the variances.
- Scoring.Score: the Gaussian hump is a function parameter, and regime, structure, correlation and the published context are not computed here.
- VolGate.RealizedVolGateArrays: the rolling deviation and quantiles are abstract functions of exactly the values in their window.
- BandStudy.RunSymbol: the latest hourly swing is an input of each hour; the rows' labels, timestamps and the summary tables are not produced.
- Confirmation.ConfirmEntry: bars are fully typed, so the branches for unreadable fields cannot occur.
- StreamGate.StreamGateLoop: demand is an input of each poll; scanning the engines for exposure is not modelled.
- Book-quality rows beyond their heartbeat stamp, symbol upper-casing and request pacing in the pollers.
- Swing bias, structure breaks, order blocks and the nearest-level selection: their rules are read directly off the swing and gap reports modelled here.
- Yang-Zhang, Hurst, variance ratio and p-values: they rest on logarithms, roots and an error-function approximation.
- Session clock metering, refunds, quota and cost caps; the switch guard, analysis pacing and rehydration in the daemon.
- Proposal sizing and the price thresholds inside re-validation: the model keeps only their outcomes.
