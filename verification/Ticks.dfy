/**
 What one tick of the kline poller achieves: which timeframes move, how far, and what their
 windows hold afterwards. Stated over the inputs, without the walk over the timeframes.
 */
module Ticks {
  import opened Wrappers
  import opened Bars
  import opened Ring
  import opened Grid
  import opened Feed
  import opened GapFreePolling

  /** The ban in force once the rounds of the due timeframes before position `i` are over. */
  function BanBefore(p: Poll, venue: Venue, now: int, inputs: TickInput, symbols: seq<string>, i: nat): int
    requires i <= |TIMEFRAMES| && Fits(inputs, symbols)
  {
    if i == 0 then p.bannedUntil
    else
      var before := BanBefore(p, venue, now, inputs, symbols, i - 1);
      if Due(p, TIMEFRAMES[i - 1], now) then BanAfterReplies(before, venue, inputs[TIMEFRAMES[i - 1]].replies) else before
  }

  /** The round at position `i` is stopped: a ban outlasts its replies. */
  predicate Stopped(p: Poll, venue: Venue, now: int, inputs: TickInput, symbols: seq<string>, i: nat)
    requires i < |TIMEFRAMES| && Fits(inputs, symbols)
  {
    Due(p, TIMEFRAMES[i], now) && BanBefore(p, venue, now, inputs, symbols, i + 1) > inputs[TIMEFRAMES[i]].clock
  }

  /** No round before position `i` was stopped. */
  predicate Reaches(p: Poll, venue: Venue, now: int, inputs: TickInput, symbols: seq<string>, i: nat)
    requires i <= |TIMEFRAMES| && Fits(inputs, symbols)
  {
    forall j | 0 <= j < i :: !Stopped(p, venue, now, inputs, symbols, j)
  }

  /** Where the cursor of a timeframe ends up. */
  predicate CursorMoves(p: Poll, q: Poll, venue: Venue, now: int, inputs: TickInput, symbols: seq<string>, i: nat)
    requires i < |TIMEFRAMES| && Fits(inputs, symbols)
  {
    var tf := TIMEFRAMES[i];
    && (tf in q.cursor <==> tf in p.cursor)
    && (tf in p.cursor ==>
          q.cursor[tf] == if Due(p, tf, now) && Reaches(p, venue, now, inputs, symbols, i + 1) then Boundary(tf, now) else p.cursor[tf])
  }

  /** The sane closed rows of the replies to one symbol, in the order they came. */
  function RowsFor(symbols: seq<string>, replies: seq<Reply>, s: string): seq<Candle>
    requires |replies| == |symbols|
  {
    if symbols == [] then []
    else
      var n := |symbols| - 1;
      RowsFor(symbols[..n], replies[..n], s)
      + if symbols[n] == s && replies[n].Rows? then SaneOnly(Complete(replies[n].rows)) else []
  }

  /** What the window of a symbol on a timeframe ends up holding. */
  predicate WindowMoves(p: Poll, q: Poll, venue: Venue, now: int, inputs: TickInput, symbols: seq<string>, i: nat, s: string)
    requires i < |TIMEFRAMES| && Fits(inputs, symbols)
  {
    var tf := TIMEFRAMES[i];
    Window(q.feed, (s, tf)) ==
      if Due(p, tf, now) && Reaches(p, venue, now, inputs, symbols, i)
      then PushAllBounded(Window(p.feed, (s, tf)), RowsFor(symbols, inputs[tf].replies, s)) else Window(p.feed, (s, tf))
  }

  lemma {:induction false} AnswersArePushed(f: Feed, symbols: seq<string>, tf: Timeframe, replies: seq<Reply>, s: string)
    requires |replies| == |symbols|
    ensures Window(AfterReplies(f, symbols, tf, replies), (s, tf)) == PushAllBounded(Window(f, (s, tf)), RowsFor(symbols, replies, s))
  {
    hide StoreRows, SaneOnly, Complete;
    if symbols != [] {
      var n := |symbols| - 1;
      AnswersArePushed(f, symbols[..n], tf, replies[..n], s);
      var before := RowsFor(symbols[..n], replies[..n], s);
      if replies[n].Rows? {
        StoredRowsArePushed(AfterReplies(f, symbols[..n], tf, replies[..n]), (symbols[n], tf), Complete(replies[n].rows));
      }
      if symbols[n] == s && replies[n].Rows? {
        PushAllSplits(Window(f, (s, tf)), before, SaneOnly(Complete(replies[n].rows)));
      } else {
        assert before + [] == before;
      }
    }
  }

  // ---------------------------------------------------------------- the walk, position by position

  lemma TimeframesDiffer()
    ensures |TIMEFRAMES| == 4 && forall i, j | 0 <= i < j < |TIMEFRAMES| :: TIMEFRAMES[i] != TIMEFRAMES[j]
    ensures forall tf: Timeframe :: tf in TIMEFRAMES
  {
    forall tf: Timeframe ensures tf in TIMEFRAMES {
      match tf
      case M5 => assert TIMEFRAMES[0] == tf;
      case M15 => assert TIMEFRAMES[1] == tf;
      case H1 => assert TIMEFRAMES[2] == tf;
      case H4 => assert TIMEFRAMES[3] == tf;
    }
  }

  /** The tick has come to position `i` without a stop: the timeframes before it are done, the others untouched. */
  ghost predicate Midway(p: Poll, q: Poll, venue: Venue, now: int, inputs: TickInput, symbols: seq<string>, i: nat)
    requires i <= |TIMEFRAMES| && Fits(inputs, symbols)
  {
    && Reaches(p, venue, now, inputs, symbols, i)
    && q.bannedUntil == BanBefore(p, venue, now, inputs, symbols, i)
    && (forall j | 0 <= j < i :: CursorMoves(p, q, venue, now, inputs, symbols, j))
    && (forall j | i <= j < |TIMEFRAMES| :: SameCursor(p, q, TIMEFRAMES[j]))
    && (forall j, s | 0 <= j < i :: WindowMoves(p, q, venue, now, inputs, symbols, j, s))
    && (forall j, s | i <= j < |TIMEFRAMES| :: Window(q.feed, (s, TIMEFRAMES[j])) == Window(p.feed, (s, TIMEFRAMES[j])))
  }

  predicate SameCursor(p: Poll, q: Poll, tf: Timeframe)
  {
    (tf in q.cursor <==> tf in p.cursor) && (tf in p.cursor ==> q.cursor[tf] == p.cursor[tf])
  }

  ghost predicate AllMoved(p: Poll, q: Poll, venue: Venue, now: int, inputs: TickInput, symbols: seq<string>)
    requires Fits(inputs, symbols)
  {
    && (forall j | 0 <= j < |TIMEFRAMES| :: CursorMoves(p, q, venue, now, inputs, symbols, j))
    && (forall j, s | 0 <= j < |TIMEFRAMES| :: WindowMoves(p, q, venue, now, inputs, symbols, j, s))
  }

  /** What a round does to its own timeframe and to the others. */
  lemma RoundTouchesOneTimeframe(q: Poll, venue: Venue, symbols: seq<string>, tf: Timeframe, now: int, input: RoundInput, other: Timeframe, s: string)
    requires |input.replies| == |symbols|
    ensures var r := Round(q, venue, symbols, tf, now, input);
      && (other != tf ==> SameCursor(q, r, other) && Window(r.feed, (s, other)) == Window(q.feed, (s, other)))
      && Window(r.feed, (s, tf)) == PushAllBounded(Window(q.feed, (s, tf)), RowsFor(symbols, input.replies, s))
  {
    AnswersArePushed(q.feed, symbols, tf, input.replies, s);
    RepliesTouchOneTimeframe(q.feed, symbols, tf, input.replies, (s, other));
    hide AfterReplies, RowsFor, PushAllBounded;
  }

  lemma NotDueMoves(p: Poll, q: Poll, venue: Venue, now: int, inputs: TickInput, symbols: seq<string>, i: nat)
    requires i < |TIMEFRAMES| && Fits(inputs, symbols) && Midway(p, q, venue, now, inputs, symbols, i) && !Due(q, TIMEFRAMES[i], now)
    ensures Midway(p, q, venue, now, inputs, symbols, i + 1)
  {
    assert SameCursor(p, q, TIMEFRAMES[i]);
    assert !Due(p, TIMEFRAMES[i], now);
    hide RowsFor, PushAllBounded, BanAfterReplies, Boundary;
  }

  /** Whether the round at position `i` commits depends on the inputs alone. */
  lemma CommitsUnlessStopped(p: Poll, q: Poll, venue: Venue, now: int, inputs: TickInput, symbols: seq<string>, i: nat)
    requires i < |TIMEFRAMES| && Fits(inputs, symbols) && Midway(p, q, venue, now, inputs, symbols, i) && Due(q, TIMEFRAMES[i], now)
    ensures Due(p, TIMEFRAMES[i], now)
    ensures Commits(q, venue, inputs[TIMEFRAMES[i]]) <==> !Stopped(p, venue, now, inputs, symbols, i)
    ensures BanAfterReplies(q.bannedUntil, venue, inputs[TIMEFRAMES[i]].replies) == BanBefore(p, venue, now, inputs, symbols, i + 1)
    ensures Reaches(p, venue, now, inputs, symbols, i + 1) <==> !Stopped(p, venue, now, inputs, symbols, i)
    ensures Stopped(p, venue, now, inputs, symbols, i) ==> forall j | i < j <= |TIMEFRAMES| :: !Reaches(p, venue, now, inputs, symbols, j)
  {
    assert SameCursor(p, q, TIMEFRAMES[i]);
    hide Boundary, BanAfterReplies, CursorMoves, WindowMoves;
  }

  lemma RoundMovesCursor(p: Poll, q: Poll, venue: Venue, now: int, inputs: TickInput, symbols: seq<string>, i: nat, j: nat)
    requires i < |TIMEFRAMES| && j < |TIMEFRAMES| && Fits(inputs, symbols)
    requires Midway(p, q, venue, now, inputs, symbols, i) && Due(q, TIMEFRAMES[i], now)
    ensures var r := Round(q, venue, symbols, TIMEFRAMES[i], now, inputs[TIMEFRAMES[i]]);
      && (j > i ==> SameCursor(p, r, TIMEFRAMES[j]))
      && (j <= i || Stopped(p, venue, now, inputs, symbols, i) ==> CursorMoves(p, r, venue, now, inputs, symbols, j))
  {
    CommitsUnlessStopped(p, q, venue, now, inputs, symbols, i);
    TimeframesDiffer();
    RoundTouchesOneTimeframe(q, venue, symbols, TIMEFRAMES[i], now, inputs[TIMEFRAMES[i]], TIMEFRAMES[j], "");
    if j < i { assert CursorMoves(p, q, venue, now, inputs, symbols, j); } else { assert SameCursor(p, q, TIMEFRAMES[j]); }
    hide BanAfterReplies, Boundary, AfterReplies, WindowMoves, Reaches, Stopped, Commits;
  }

  lemma RoundMovesWindow(p: Poll, q: Poll, venue: Venue, now: int, inputs: TickInput, symbols: seq<string>, i: nat, j: nat, s: string)
    requires i < |TIMEFRAMES| && j < |TIMEFRAMES| && Fits(inputs, symbols)
    requires Midway(p, q, venue, now, inputs, symbols, i) && Due(q, TIMEFRAMES[i], now)
    ensures var r := Round(q, venue, symbols, TIMEFRAMES[i], now, inputs[TIMEFRAMES[i]]);
      && (j > i ==> Window(r.feed, (s, TIMEFRAMES[j])) == Window(p.feed, (s, TIMEFRAMES[j])))
      && (j <= i || Stopped(p, venue, now, inputs, symbols, i) ==> WindowMoves(p, r, venue, now, inputs, symbols, j, s))
  {
    CommitsUnlessStopped(p, q, venue, now, inputs, symbols, i);
    TimeframesDiffer();
    RoundTouchesOneTimeframe(q, venue, symbols, TIMEFRAMES[i], now, inputs[TIMEFRAMES[i]], TIMEFRAMES[j], s);
    if j < i {
      assert WindowMoves(p, q, venue, now, inputs, symbols, j, s);
    } else {
      assert Window(q.feed, (s, TIMEFRAMES[j])) == Window(p.feed, (s, TIMEFRAMES[j]));
    }
    hide RowsFor, PushAllBounded, BanAfterReplies, Boundary, AfterReplies, Stopped, Commits, CursorMoves;
  }

  lemma RoundMoves(p: Poll, q: Poll, venue: Venue, now: int, inputs: TickInput, symbols: seq<string>, i: nat)
    requires i < |TIMEFRAMES| && Fits(inputs, symbols) && Midway(p, q, venue, now, inputs, symbols, i) && Due(q, TIMEFRAMES[i], now)
    ensures var tf := TIMEFRAMES[i];
      var r := Round(q, venue, symbols, tf, now, inputs[tf]);
      if Commits(q, venue, inputs[tf]) then Midway(p, r, venue, now, inputs, symbols, i + 1) else AllMoved(p, r, venue, now, inputs, symbols)
  {
    hide RowsFor, PushAllBounded, BanAfterReplies, Boundary, AfterReplies, CursorMoves, WindowMoves, SameCursor, Stopped, Reaches, BanBefore;
    CommitsUnlessStopped(p, q, venue, now, inputs, symbols, i);
    var r := Round(q, venue, symbols, TIMEFRAMES[i], now, inputs[TIMEFRAMES[i]]);
    var stopped := Stopped(p, venue, now, inputs, symbols, i);
    forall j | 0 <= j < |TIMEFRAMES|
      ensures j > i ==> SameCursor(p, r, TIMEFRAMES[j])
      ensures j <= i || stopped ==> CursorMoves(p, r, venue, now, inputs, symbols, j)
    {
      RoundMovesCursor(p, q, venue, now, inputs, symbols, i, j);
    }
    forall j, s | 0 <= j < |TIMEFRAMES|
      ensures j > i ==> Window(r.feed, (s, TIMEFRAMES[j])) == Window(p.feed, (s, TIMEFRAMES[j]))
      ensures j <= i || stopped ==> WindowMoves(p, r, venue, now, inputs, symbols, j, s)
    {
      RoundMovesWindow(p, q, venue, now, inputs, symbols, i, j, s);
    }
  }

  lemma {:induction false} WalkMoves(p: Poll, q: Poll, venue: Venue, now: int, inputs: TickInput, symbols: seq<string>, i: nat)
    requires i <= |TIMEFRAMES| && Fits(inputs, symbols) && Midway(p, q, venue, now, inputs, symbols, i)
    ensures AllMoved(p, Walk(q, venue, symbols, now, inputs, i), venue, now, inputs, symbols)
    decreases |TIMEFRAMES| - i
  {
    if i < |TIMEFRAMES| {
      var tf := TIMEFRAMES[i];
      if !Due(q, tf, now) {
        NotDueMoves(p, q, venue, now, inputs, symbols, i);
        hide Midway, AllMoved;
        WalkMoves(p, q, venue, now, inputs, symbols, i + 1);
      } else {
        RoundMoves(p, q, venue, now, inputs, symbols, i);
        hide Midway, AllMoved, Round;
        if Commits(q, venue, inputs[tf]) {
          WalkMoves(p, Round(q, venue, symbols, tf, now, inputs[tf]), venue, now, inputs, symbols, i + 1);
        }
      }
    }
  }

  // ---------------------------------------------------------------- what a tick achieves

  /**
   Outside a ban a tick moves the cursor of exactly the due timeframes up to the first stopped
   one to the newest settled boundary, and stores for exactly those, and for the stopped one,
   the sane closed rows each symbol was answered. Inside a ban it does nothing.
   */
  lemma ATickMovesExactly(p: Poll, venue: Venue, symbols: seq<string>, now: int, inputs: TickInput)
    requires Fits(inputs, symbols)
    ensures now < p.bannedUntil ==> Tick(p, venue, symbols, now, inputs) == p
    ensures p.bannedUntil <= now ==> AllMoved(p, Tick(p, venue, symbols, now, inputs), venue, now, inputs, symbols)
  {
    if p.bannedUntil <= now { WalkMoves(p, p, venue, now, inputs, symbols, 0); }
  }

  /** Every round of the tick commits. */
  predicate NoneStopped(p: Poll, venue: Venue, now: int, inputs: TickInput, symbols: seq<string>)
    requires Fits(inputs, symbols)
  {
    Reaches(p, venue, now, inputs, symbols, |TIMEFRAMES|)
  }

  lemma PositionOf(tf: Timeframe) returns (i: nat)
    ensures i < |TIMEFRAMES| && TIMEFRAMES[i] == tf
  {
    TimeframesDiffer();
    assert tf in TIMEFRAMES;
    i :| 0 <= i < |TIMEFRAMES| && TIMEFRAMES[i] == tf;
  }

  /** A tick in which no round is stopped brings every timeframe to its newest settled boundary. */
  lemma AnUnstoppedTickReachesEveryBoundary(p: Poll, venue: Venue, symbols: seq<string>, now: int, inputs: TickInput, tf: Timeframe)
    requires Fits(inputs, symbols) && p.bannedUntil <= now && tf in p.cursor
    requires NoneStopped(p, venue, now, inputs, symbols)
    ensures var q := Tick(p, venue, symbols, now, inputs);
      tf in q.cursor && q.cursor[tf] == Max(p.cursor[tf], Boundary(tf, now))
  {
    ATickMovesExactly(p, venue, symbols, now, inputs);
    var i := PositionOf(tf);
    assert CursorMoves(p, Tick(p, venue, symbols, now, inputs), venue, now, inputs, symbols, i);
    hide Boundary, Stopped;
  }

  /** What the venue answers for one due timeframe is as of the round's own boundary, at most 99 bars on. */
  predicate Served(p: Poll, now: int, inputs: TickInput, symbols: seq<string>, tf: Timeframe)
    requires Fits(inputs, symbols) && Due(p, tf, now)
  {
    && tf in inputs && Boundary(tf, now) - p.cursor[tf] <= MAX_MISSED * tf.Millis()
    && forall i | 0 <= i < |symbols| && inputs[tf].replies[i].Rows? ::
         Serves(inputs[tf].replies[i].rows, Missed(p, tf, now), Boundary(tf, now), tf.Millis())
  }

  /** Whatever stopped or failed besides, a symbol that was answered so has its window up to the boundary. */
  lemma AnsweredSymbolsReachTheBoundary(p: Poll, venue: Venue, symbols: seq<string>, now: int, inputs: TickInput, i: nat, s: string)
    requires i < |TIMEFRAMES| && Fits(inputs, symbols) && p.bannedUntil <= now && GapFree(p, symbols) && s in symbols
    requires Due(p, TIMEFRAMES[i], now) && Reaches(p, venue, now, inputs, symbols, i)
    requires Served(p, now, inputs, symbols, TIMEFRAMES[i]) && Answered(symbols, inputs[TIMEFRAMES[i]].replies, s)
    ensures var tf := TIMEFRAMES[i];
      var w := Window(Tick(p, venue, symbols, now, inputs).feed, (s, tf));
      w != [] && UpToDate(w, Boundary(tf, now), tf.Millis())
  {
    var tf := TIMEFRAMES[i];
    hide Walk, Boundary, RowsFor, PushAllBounded, AfterReplies, Serves, Missed, Reaches, Answered;
    ATickMovesExactly(p, venue, symbols, now, inputs);
    assert WindowMoves(p, Tick(p, venue, symbols, now, inputs), venue, now, inputs, symbols, i, s);
    MissedCountsBars(p, tf, now);
    AnswersArePushed(p.feed, symbols, tf, inputs[tf].replies, s);
    hide GapFree;
    assert UpToDate(Window(p.feed, (s, tf)), p.cursor[tf], tf.Millis()) by { WindowsAreUpToDate(p, symbols, tf, s); }
    hide UpToDate;
    CleanReplies(p.feed, symbols, tf, inputs[tf].replies, Missed(p, tf, now), p.cursor[tf], Boundary(tf, now), s);
  }

  lemma WindowsAreUpToDate(p: Poll, symbols: seq<string>, tf: Timeframe, s: string)
    requires GapFree(p, symbols) && tf in p.cursor && s in symbols
    ensures p.cursor[tf] % tf.Millis() == 0 && UpToDate(Window(p.feed, (s, tf)), p.cursor[tf], tf.Millis())
  {
    hide UpToDate;
  }

  /** A tick that finds the venue serving: every request of every due timeframe is answered so. */
  predicate FullyServed(p: Poll, now: int, inputs: TickInput, symbols: seq<string>)
    requires Fits(inputs, symbols)
  {
    forall tf | tf in TIMEFRAMES && Due(p, tf, now) ::
      && Served(p, now, inputs, symbols, tf)
      && now <= inputs[tf].clock
      && forall i | 0 <= i < |symbols| :: inputs[tf].replies[i].Rows?
  }

  lemma {:induction false} ServingBansNobody(p: Poll, venue: Venue, now: int, inputs: TickInput, symbols: seq<string>, i: nat)
    requires i <= |TIMEFRAMES| && Fits(inputs, symbols) && p.bannedUntil <= now && FullyServed(p, now, inputs, symbols)
    ensures BanBefore(p, venue, now, inputs, symbols, i) == p.bannedUntil
    ensures Reaches(p, venue, now, inputs, symbols, i)
  {
    hide Served, BanAfterReplies;
    if i > 0 {
      var tf := TIMEFRAMES[i - 1];
      assert tf in TIMEFRAMES;
      ServingBansNobody(p, venue, now, inputs, symbols, i - 1);
      if Due(p, tf, now) {
        WithoutALimitTheBanStands(p.bannedUntil, venue, inputs[tf].replies);
        assert now <= inputs[tf].clock;
      }
    }
  }

  /**
   Progress: from a gap-free state, one served tick outside a ban brings every window of every
   symbol on every timeframe up to the newest settled boundary, contiguous, and non-empty where
   it polled.
   */
  lemma AServedTickCatchesUp(p: Poll, venue: Venue, symbols: seq<string>, now: int, inputs: TickInput, tf: Timeframe, s: string)
    requires Fits(inputs, symbols) && GapFree(p, symbols) && p.bannedUntil <= now && FullyServed(p, now, inputs, symbols)
    requires tf in p.cursor && s in symbols
    ensures var q := Tick(p, venue, symbols, now, inputs);
      && tf in q.cursor && Boundary(tf, now) <= q.cursor[tf]
      && UpToDate(Window(q.feed, (s, tf)), Boundary(tf, now), tf.Millis())
      && (Due(p, tf, now) ==> Window(q.feed, (s, tf)) != [])
  {
    hide Boundary, Walk, Serves, Missed, Contiguous, GapFree, PushAllBounded, RowsFor, Reaches, Answered;
    var i := PositionOf(tf);
    ServingBansNobody(p, venue, now, inputs, symbols, |TIMEFRAMES|);
    ServingBansNobody(p, venue, now, inputs, symbols, i);
    AnUnstoppedTickReachesEveryBoundary(p, venue, symbols, now, inputs, tf);
    if Due(p, tf, now) {
      EveryoneAnswers(symbols, inputs[tf].replies, s);
      AnsweredSymbolsReachTheBoundary(p, venue, symbols, now, inputs, i, s);
    } else {
      ATickMovesExactly(p, venue, symbols, now, inputs);
      assert WindowMoves(p, Tick(p, venue, symbols, now, inputs), venue, now, inputs, symbols, i, s);
      WindowsAreUpToDate(p, symbols, tf, s);
    }
  }

  lemma EveryoneAnswers(symbols: seq<string>, replies: seq<Reply>, s: string)
    requires |replies| == |symbols| && s in symbols && forall i | 0 <= i < |symbols| :: replies[i].Rows?
    ensures Answered(symbols, replies, s)
  {
    var i :| 0 <= i < |symbols| && symbols[i] == s;
    assert replies[i].Rows?;
  }

  /** ...and so after any clean run, however long its bans and outages were. */
  lemma AnyCleanRunCatchesUp(p: Poll, venue: Venue, symbols: seq<string>, wakes: seq<Wake>, now: int, inputs: TickInput, tf: Timeframe, s: string)
    requires forall w | w in wakes :: WakeFits(w, symbols)
    requires GapFree(p, symbols) && CleanRun(p, venue, symbols, wakes) && Fits(inputs, symbols) && s in symbols
    requires var q := AfterWakes(p, venue, symbols, wakes);
      q.bannedUntil <= now && FullyServed(q, now, inputs, symbols) && tf in q.cursor
    ensures var q := AfterWakes(p, venue, symbols, wakes + [Klines(now, inputs)]);
      && tf in q.cursor && Boundary(tf, now) <= q.cursor[tf]
      && UpToDate(Window(q.feed, (s, tf)), Boundary(tf, now), tf.Millis())
  {
    CleanRunsAreGapFree(p, venue, symbols, wakes);
    hide GapFree, FullyServed, UpToDate, Boundary, Tick, CleanRun;
    AServedTickCatchesUp(AfterWakes(p, venue, symbols, wakes), venue, symbols, now, inputs, tf, s);
    var all := wakes + [Klines(now, inputs)];
    assert all[..|all| - 1] == wakes;
    assert AfterWakes(p, venue, symbols, all) == AfterWake(AfterWakes(p, venue, symbols, wakes), venue, symbols, Klines(now, inputs));
  }

  // ---------------------------------------------------------------- the newest event over a run

  /** The wake-up brings an event of the symbol without a bar: a quote, or a reading that is not negative. */
  predicate Quotes(w: Wake, s: string, ts: int)
  {
    match w
    case Klines(_, _) => false
    case Books(tops) => (s, ts) in tops
    case Interest(samples) => exists i :: 0 <= i < |samples| && samples[i].0 == s && samples[i].1 == ts && 0.0 <= samples[i].2
  }

  /** Some sane closed row answered to the symbol closes at `ts`. */
  predicate Closes(inputs: TickInput, symbols: seq<string>, s: string, ts: int)
    requires Fits(inputs, symbols)
  {
    exists j, c :: 0 <= j < |TIMEFRAMES| && c in RowsFor(symbols, inputs[TIMEFRAMES[j]].replies, s) && c.closeTime == ts
  }

  predicate Brings(w: Wake, symbols: seq<string>, s: string, ts: int)
    requires WakeFits(w, symbols)
  {
    Quotes(w, s, ts) || (w.Klines? && Closes(w.inputs, symbols, s, ts))
  }

  lemma {:induction false} ReadingsAreStamps(samples: seq<(string, int, real)>, s: string, ts: int)
    ensures (s, ts) in Stamps(samples) <==> Quotes(Interest(samples), s, ts)
  {
    if samples != [] {
      var n := |samples| - 1;
      var most := samples[..n];
      ReadingsAreStamps(most, s, ts);
      if i :| 0 <= i < |samples| && samples[i].0 == s && samples[i].1 == ts && 0.0 <= samples[i].2 {
        if i < n { assert most[i] == samples[i]; }
      }
      if i :| 0 <= i < n && most[i].0 == s && most[i].1 == ts && 0.0 <= most[i].2 { assert samples[i] == most[i]; }
    }
  }

  lemma {:induction false} StoringRaises(f: Feed, key: Key, rows: seq<Candle>, s: string)
    ensures var newest := LastEvent(StoreRows(f, key, rows), s);
      && LastEvent(f, s) <= newest
      && (newest == LastEvent(f, s) || (key.0 == s && exists c :: c in SaneOnly(rows) && c.closeTime == newest))
  {
    if rows != [] {
      var n := |rows| - 1;
      StoringRaises(f, key, rows[..n], s);
      hide PushBounded, IsSane;
      var before := LastEvent(StoreRows(f, key, rows[..n]), s);
      if c :| c in SaneOnly(rows[..n]) && c.closeTime == before { assert c in SaneOnly(rows); }
      if IsSane(rows[n]) { assert rows[n] in SaneOnly(rows); }
    }
  }

  lemma {:induction false} RepliesRaise(f: Feed, symbols: seq<string>, tf: Timeframe, replies: seq<Reply>, s: string)
    requires |replies| == |symbols|
    ensures var newest := LastEvent(AfterReplies(f, symbols, tf, replies), s);
      && LastEvent(f, s) <= newest
      && (newest == LastEvent(f, s) || exists c :: c in RowsFor(symbols, replies, s) && c.closeTime == newest)
  {
    hide StoreRows, SaneOnly, Complete;
    if symbols != [] {
      var n := |symbols| - 1;
      RepliesRaise(f, symbols[..n], tf, replies[..n], s);
      var g := AfterReplies(f, symbols[..n], tf, replies[..n]);
      if c :| c in RowsFor(symbols[..n], replies[..n], s) && c.closeTime == LastEvent(g, s) { assert c in RowsFor(symbols, replies, s); }
      if replies[n].Rows? {
        StoringRaises(g, (symbols[n], tf), Complete(replies[n].rows), s);
        if c :| symbols[n] == s && c in SaneOnly(Complete(replies[n].rows)) && c.closeTime == LastEvent(AfterReplies(f, symbols, tf, replies), s) {
          assert c in RowsFor(symbols, replies, s);
        }
      }
    }
  }

  lemma {:induction false} WalkRaises(p: Poll, venue: Venue, symbols: seq<string>, now: int, inputs: TickInput, i: nat, s: string)
    requires i <= |TIMEFRAMES| && Fits(inputs, symbols)
    ensures var newest := LastEvent(Walk(p, venue, symbols, now, inputs, i).feed, s);
      && LastEvent(p.feed, s) <= newest
      && (newest == LastEvent(p.feed, s) || Closes(inputs, symbols, s, newest))
    decreases |TIMEFRAMES| - i
  {
    hide RowsFor, AfterReplies, Commits, BanAfterReplies, Boundary;
    if i < |TIMEFRAMES| {
      var tf := TIMEFRAMES[i];
      if !Due(p, tf, now) {
        WalkRaises(p, venue, symbols, now, inputs, i + 1, s);
      } else {
        RepliesRaise(p.feed, symbols, tf, inputs[tf].replies, s);
        if Commits(p, venue, inputs[tf]) { WalkRaises(Round(p, venue, symbols, tf, now, inputs[tf]), venue, symbols, now, inputs, i + 1, s); }
      }
    }
  }

  lemma AWakeRaises(p: Poll, venue: Venue, symbols: seq<string>, w: Wake, s: string)
    requires WakeFits(w, symbols)
    ensures var newest := LastEvent(AfterWake(p, venue, symbols, w).feed, s);
      && LastEvent(p.feed, s) <= newest
      && (forall ts | Quotes(w, s, ts) :: ts <= newest)
      && (newest == LastEvent(p.feed, s) || Brings(w, symbols, s, newest))
  {
    match w
    case Klines(now, inputs) => WalkRaises(p, venue, symbols, now, inputs, 0, s);
    case Books(tops) => StampsRaiseTheNewest(p.feed, tops, s);
    case Interest(samples) =>
      StampsRaiseTheNewest(p.feed, Stamps(samples), s);
      forall ts ensures (s, ts) in Stamps(samples) <==> Quotes(w, s, ts) { ReadingsAreStamps(samples, s, ts); }
      hide Quotes, StampAll, Stamps;
  }

  /**
   Over every run a symbol's newest event never falls, is at least every quote and reading that
   came for it, and is one that came: a quote, a reading or a closed bar, or what it was before.
   */
  lemma {:induction false} TheNewestIsTheNewestThatCame(p: Poll, venue: Venue, symbols: seq<string>, wakes: seq<Wake>, s: string)
    requires forall w | w in wakes :: WakeFits(w, symbols)
    ensures var newest := LastEvent(AfterWakes(p, venue, symbols, wakes).feed, s);
      && LastEvent(p.feed, s) <= newest
      && (forall w, ts | w in wakes && Quotes(w, s, ts) :: ts <= newest)
      && (newest == LastEvent(p.feed, s) || exists w :: w in wakes && Brings(w, symbols, s, newest))
  {
    hide Quotes, Brings, AfterWake;
    if wakes != [] {
      var n := |wakes| - 1;
      TheNewestIsTheNewestThatCame(p, venue, symbols, wakes[..n], s);
      AWakeRaises(AfterWakes(p, venue, symbols, wakes[..n]), venue, symbols, wakes[n], s);
      assert wakes == wakes[..n] + [wakes[n]];
    }
  }
}
