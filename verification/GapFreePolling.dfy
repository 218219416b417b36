/**
 Gap-free polling over whole runs of the kline poller, the exact condition for one symbol
 in one committed round, and what a miss costs.
 */
module GapFreePolling {
  import opened Wrappers
  import opened Bars
  import opened Ring
  import opened Grid
  import opened Feed

  /** The window is a contiguous run of the grid and reaches the committed cursor. */
  predicate UpToDate(w: seq<Candle>, cursor: int, tfMs: int)
    requires 0 < tfMs
  {
    Contiguous(w, tfMs) && (w != [] ==> cursor <= Reach(w))
  }

  predicate GapFree(p: Poll, symbols: seq<string>)
  {
    forall tf | tf in p.cursor ::
      && p.cursor[tf] % tf.Millis() == 0
      && forall s | s in symbols :: UpToDate(Window(p.feed, (s, tf)), p.cursor[tf], tf.Millis())
  }

  /**
   A round the promise covers: at most 99 bars behind, every answer is the newest missed
   bars as of the round's own boundary, and no symbol goes unanswered unless the cursor stays.
   */
  predicate CleanRound(p: Poll, venue: Venue, tf: Timeframe, now: int, input: RoundInput)
    requires Due(p, tf, now)
  {
    && Boundary(tf, now) - p.cursor[tf] <= MAX_MISSED * tf.Millis()
    && (forall i | 0 <= i < |input.replies| && input.replies[i].Rows? ::
          Serves(input.replies[i].rows, Missed(p, tf, now), Boundary(tf, now), tf.Millis()))
    && (Commits(p, venue, input) ==> forall i | 0 <= i < |input.replies| :: input.replies[i].Rows?)
  }

  predicate CleanWalk(p: Poll, venue: Venue, symbols: seq<string>, now: int, inputs: TickInput, i: nat)
    requires i <= |TIMEFRAMES| && Fits(inputs, symbols)
    decreases |TIMEFRAMES| - i
  {
    i < |TIMEFRAMES| ==>
      var tf := TIMEFRAMES[i];
      if !Due(p, tf, now) then CleanWalk(p, venue, symbols, now, inputs, i + 1)
      else
        && CleanRound(p, venue, tf, now, inputs[tf])
        && (Commits(p, venue, inputs[tf]) ==>
              CleanWalk(Round(p, venue, symbols, tf, now, inputs[tf]), venue, symbols, now, inputs, i + 1))
  }

  /** On the grid the clamped division counts the missed bars exactly. */
  lemma MissedCountsBars(p: Poll, tf: Timeframe, now: int)
    requires Due(p, tf, now) && p.cursor[tf] % tf.Millis() == 0
    ensures Boundary(tf, now) % tf.Millis() == 0
    ensures Boundary(tf, now) - p.cursor[tf] <= 99 * tf.Millis() ==>
              Missed(p, tf, now) * tf.Millis() == Boundary(tf, now) - p.cursor[tf]
    ensures Boundary(tf, now) - p.cursor[tf] > 99 * tf.Millis() ==> Missed(p, tf, now) == 99
  {
    var tfMs := tf.Millis();
    TruncIsFloor(now - KLINE_SETTLE_MS, tfMs);
    var d := Boundary(tf, now) - p.cursor[tf];
    GridDistance(p.cursor[tf], Boundary(tf, now), tfMs);
    WholeBars(Boundary(tf, now), p.cursor[tf], tfMs);
    var bars := d / tfMs;
    assert bars * tfMs == d;
    assert bars <= 0 ==> bars * tfMs <= 0;
    assert bars > MAX_MISSED ==> bars * tfMs >= (MAX_MISSED + 1) * tfMs;
    assert bars <= MAX_MISSED ==> bars * tfMs <= MAX_MISSED * tfMs;
  }

  lemma WholeBars(a: int, b: int, tfMs: int)
    requires 0 < tfMs && a % tfMs == 0 && b % tfMs == 0
    ensures (a - b) / tfMs * tfMs == a - b
  {
    var k := a / tfMs - b / tfMs;
    assert a - b == k * tfMs;
    MultipleHasNoRemainder(k, tfMs);
  }

  lemma CleanPush(w: seq<Candle>, rows: seq<Candle>, n: nat, cursor: int, boundary: int, tfMs: int)
    requires 0 < tfMs && UpToDate(w, cursor, tfMs) && Serves(rows, n, boundary, tfMs)
    requires 0 < n <= MAX_MISSED && boundary - n * tfMs == cursor
    ensures var w' := PushAllBounded(w, rows[..n]);
      w' != [] && Contiguous(w', tfMs) && cursor <= Reach(w') && boundary <= Reach(w')
  {
    assert n * tfMs > 0;
    if w == [] {
      ServedRowsRunToTheBoundary(rows, n, boundary, tfMs);
      GridRowsFillEmpty(rows[..n], tfMs);
    } else {
      AnswerKeepsContiguityExactly(w, rows, n, boundary, tfMs);
    }
  }

  /** One answered symbol of a clean round reaches the round's boundary without a gap. */
  lemma CleanAnswer(f: Feed, key: Key, rows: seq<Candle>, n: nat, cursor: int, boundary: int)
    requires UpToDate(Window(f, key), cursor, key.1.Millis()) && Serves(rows, n, boundary, key.1.Millis())
    requires 0 < n <= MAX_MISSED && boundary - n * key.1.Millis() == cursor
    ensures var w := Window(AfterReply(f, key, Rows(rows)), key);
      w != [] && UpToDate(w, boundary, key.1.Millis()) && UpToDate(w, cursor, key.1.Millis())
  {
    hide Serves, Contiguous, StoreRows, PushAllBounded;
    AnsweredWindow(f, key, rows, n, boundary);
    CleanPush(Window(f, key), rows, n, cursor, boundary, key.1.Millis());
  }

  lemma {:induction false} RepliesTouchOneTimeframe(f: Feed, symbols: seq<string>, tf: Timeframe, replies: seq<Reply>, key: Key)
    requires |replies| == |symbols|
    ensures key.1 != tf || key.0 !in symbols ==> Window(AfterReplies(f, symbols, tf, replies), key) == Window(f, key)
  {
    if symbols != [] {
      var n := |symbols| - 1;
      RepliesTouchOneTimeframe(f, symbols[..n], tf, replies[..n], key);
      if replies[n].Rows? {
        StoredRowsArePushed(AfterReplies(f, symbols[..n], tf, replies[..n]), (symbols[n], tf), Complete(replies[n].rows));
      }
    }
  }

  /** Some reply to this symbol holds rows. */
  predicate Answered(symbols: seq<string>, replies: seq<Reply>, s: string)
    requires |replies| == |symbols|
  {
    exists i | 0 <= i < |symbols| :: symbols[i] == s && replies[i].Rows?
  }

  lemma AnsweredOneMore(symbols: seq<string>, replies: seq<Reply>, s: string)
    requires |replies| == |symbols| && symbols != []
    ensures var k := |symbols| - 1;
      Answered(symbols, replies, s) <==> Answered(symbols[..k], replies[..k], s) || (symbols[k] == s && replies[k].Rows?)
  {
    var k := |symbols| - 1;
    if Answered(symbols[..k], replies[..k], s) {
      var i :| 0 <= i < k && symbols[..k][i] == s && replies[..k][i].Rows?;
      assert symbols[i] == s && replies[i].Rows?;
    }
    if i :| 0 <= i < k && symbols[i] == s && replies[i].Rows? {
      assert symbols[..k][i] == s && replies[..k][i].Rows?;
    }
  }

  /** A whole clean round: every symbol stays up to date, and one that was answered reaches the boundary. */
  lemma {:induction false} CleanReplies(f: Feed, symbols: seq<string>, tf: Timeframe, replies: seq<Reply>,
                                        n: nat, cursor: int, boundary: int, s: string)
    requires |replies| == |symbols| && 0 < n <= MAX_MISSED && boundary - n * tf.Millis() == cursor
    requires forall i | 0 <= i < |replies| && replies[i].Rows? :: Serves(replies[i].rows, n, boundary, tf.Millis())
    requires UpToDate(Window(f, (s, tf)), cursor, tf.Millis())
    ensures var w := Window(AfterReplies(f, symbols, tf, replies), (s, tf));
      && UpToDate(w, cursor, tf.Millis())
      && (Answered(symbols, replies, s) ==> w != [] && UpToDate(w, boundary, tf.Millis()))
  {
    hide UpToDate, Serves, StoreRows, PushAllBounded, SaneOnly, Complete, Answered;
    if symbols == [] {
      NoneAnswered(replies, s);
    } else {
      var k := |symbols| - 1;
      AnsweredOneMore(symbols, replies, s);
      CleanReplies(f, symbols[..k], tf, replies[..k], n, cursor, boundary, s);
      var g := AfterReplies(f, symbols[..k], tf, replies[..k]);
      if replies[k].Rows? {
        StoredRowsArePushed(g, (symbols[k], tf), Complete(replies[k].rows));
        if symbols[k] == s {
          CleanAnswer(g, (s, tf), replies[k].rows, n, cursor, boundary);
        }
      }
    }
  }

  lemma NoneAnswered(replies: seq<Reply>, s: string)
    requires replies == []
    ensures !Answered([], replies, s)
  {
  }

  /** In a committed clean round every symbol is answered. */
  lemma CommittedMeansAnswered(p: Poll, venue: Venue, symbols: seq<string>, tf: Timeframe, now: int, input: RoundInput, s: string)
    requires |input.replies| == |symbols| && Due(p, tf, now) && s in symbols
    requires CleanRound(p, venue, tf, now, input) && Commits(p, venue, input)
    ensures Answered(symbols, input.replies, s)
  {
    var i :| 0 <= i < |symbols| && symbols[i] == s;
    assert input.replies[i].Rows?;
  }

  /** What a clean round does to one window. */
  lemma RoundKeepsWindow(p: Poll, venue: Venue, symbols: seq<string>, tf: Timeframe, now: int, input: RoundInput, key: Key)
    requires |input.replies| == |symbols| && GapFree(p, symbols) && Due(p, tf, now)
    requires CleanRound(p, venue, tf, now, input) && key.1 in p.cursor && key.0 in symbols
    ensures var q := Round(p, venue, symbols, tf, now, input);
      && UpToDate(Window(q.feed, key), q.cursor[key.1], key.1.Millis())
      && (key.1 == tf && Commits(p, venue, input) ==> Window(q.feed, key) != [])
  {
    MissedCountsBars(p, tf, now);
    if key.1 == tf {
      CleanReplies(p.feed, symbols, tf, input.replies, Missed(p, tf, now), p.cursor[tf], Boundary(tf, now), key.0);
      if Commits(p, venue, input) { CommittedMeansAnswered(p, venue, symbols, tf, now, input, key.0); }
    } else {
      RepliesTouchOneTimeframe(p.feed, symbols, tf, input.replies, key);
    }
    hide UpToDate, Serves, Missed, Boundary, Answered, AfterReplies, BanAfterReplies;
  }

  /** One clean round keeps every window gap-free; committed, it also leaves no symbol without bars. */
  lemma RoundKeepsGapFree(p: Poll, venue: Venue, symbols: seq<string>, tf: Timeframe, now: int, input: RoundInput)
    requires |input.replies| == |symbols| && GapFree(p, symbols) && Due(p, tf, now)
    requires CleanRound(p, venue, tf, now, input)
    ensures GapFree(Round(p, venue, symbols, tf, now, input), symbols)
    ensures Commits(p, venue, input) ==> forall s | s in symbols :: Window(Round(p, venue, symbols, tf, now, input).feed, (s, tf)) != []
  {
    var q := Round(p, venue, symbols, tf, now, input);
    MissedCountsBars(p, tf, now);
    forall other, s | other in q.cursor && s in symbols
      ensures UpToDate(Window(q.feed, (s, other)), q.cursor[other], other.Millis())
      ensures other == tf && Commits(p, venue, input) ==> Window(q.feed, (s, tf)) != []
    {
      RoundKeepsWindow(p, venue, symbols, tf, now, input, (s, other));
    }
    hide UpToDate, CleanRound, AfterReplies, BanAfterReplies, Missed, Boundary;
  }

  lemma {:induction false} WalkKeepsGapFree(p: Poll, venue: Venue, symbols: seq<string>, now: int, inputs: TickInput, i: nat)
    requires i <= |TIMEFRAMES| && Fits(inputs, symbols) && GapFree(p, symbols)
    requires CleanWalk(p, venue, symbols, now, inputs, i)
    ensures GapFree(Walk(p, venue, symbols, now, inputs, i), symbols)
    decreases |TIMEFRAMES| - i
  {
    hide GapFree, CleanRound, Round;
    if i < |TIMEFRAMES| {
      var tf := TIMEFRAMES[i];
      if !Due(p, tf, now) {
        WalkKeepsGapFree(p, venue, symbols, now, inputs, i + 1);
      } else {
        RoundKeepsGapFree(p, venue, symbols, tf, now, inputs[tf]);
        if Commits(p, venue, inputs[tf]) {
          WalkKeepsGapFree(Round(p, venue, symbols, tf, now, inputs[tf]), venue, symbols, now, inputs, i + 1);
        }
      }
    }
  }

  /** A tick spent inside a ban is clean whatever the inputs, and so is a wake-up of another poller. */
  predicate CleanWake(p: Poll, venue: Venue, symbols: seq<string>, w: Wake)
    requires WakeFits(w, symbols)
  {
    w.Klines? && p.bannedUntil <= w.now ==> CleanWalk(p, venue, symbols, w.now, w.inputs, 0)
  }

  /** Each wake-up of the run is clean in the state it meets. */
  predicate CleanRun(p: Poll, venue: Venue, symbols: seq<string>, wakes: seq<Wake>)
    requires forall w | w in wakes :: WakeFits(w, symbols)
  {
    wakes == [] ||
      (var n := |wakes| - 1;
       && CleanRun(p, venue, symbols, wakes[..n])
       && CleanWake(AfterWakes(p, venue, symbols, wakes[..n]), venue, symbols, wakes[n]))
  }

  lemma WakeKeepsGapFree(p: Poll, venue: Venue, symbols: seq<string>, w: Wake)
    requires WakeFits(w, symbols) && GapFree(p, symbols) && CleanWake(p, venue, symbols, w)
    ensures GapFree(AfterWake(p, venue, symbols, w), symbols)
  {
    match w
    case Klines(now, inputs) =>
      if p.bannedUntil <= now { WalkKeepsGapFree(p, venue, symbols, now, inputs, 0); }
    case Books(tops) => StampsTouchNoWindow(p.feed, tops);
    case Interest(samples) => StampsTouchNoWindow(p.feed, Stamps(samples));
  }

  /** Over every clean run, bans included, every window stays a gap-free run up to the cursor. */
  lemma {:induction false} CleanRunsAreGapFree(p: Poll, venue: Venue, symbols: seq<string>, wakes: seq<Wake>)
    requires forall w | w in wakes :: WakeFits(w, symbols)
    requires GapFree(p, symbols) && CleanRun(p, venue, symbols, wakes)
    ensures GapFree(AfterWakes(p, venue, symbols, wakes), symbols)
  {
    if wakes != [] {
      var n := |wakes| - 1;
      CleanRunsAreGapFree(p, venue, symbols, wakes[..n]);
      WakeKeepsGapFree(AfterWakes(p, venue, symbols, wakes[..n]), venue, symbols, wakes[n]);
    }
  }

  // ---------------------------------------------------------------- exactly when, and at what cost

  /** What the venue's newest closed bar was when it answered, if it answered with rows. */
  predicate Answers(reply: Reply, n: nat, served: Option<int>, tfMs: int)
    requires 0 < tfMs
  {
    if served.Some? then reply.Rows? && Serves(reply.rows, n, served.value, tfMs) else !reply.Rows?
  }

  /**
   A round that a ban stops leaves the symbols it was answered for ahead of the cursor: their
   windows already reach the boundary the next round will ask for again.
   */
  lemma ABannedRoundLeavesWindowsAhead(p: Poll, venue: Venue, symbols: seq<string>, tf: Timeframe, now: int, input: RoundInput, s: string)
    requires |input.replies| == |symbols| && GapFree(p, symbols) && Due(p, tf, now) && s in symbols
    requires CleanRound(p, venue, tf, now, input) && !Commits(p, venue, input) && Answered(symbols, input.replies, s)
    ensures var q := Round(p, venue, symbols, tf, now, input);
      var w := Window(q.feed, (s, tf));
      && q.cursor == p.cursor
      && w != [] && UpToDate(w, Boundary(tf, now), tf.Millis())
      && q.cursor[tf] < Reach(w)
  {
    MissedCountsBars(p, tf, now);
    hide Contiguous, Serves, Missed;
    CleanReplies(p.feed, symbols, tf, input.replies, Missed(p, tf, now), p.cursor[tf], Boundary(tf, now), s);
  }

  /**
   The exact condition for one symbol in a committed round, wherever its window ends. Not
   answered, it is up to date exactly when it was already there, as a round stopped by a ban
   leaves it. Answered, exactly when the rows reach back to its window, and rows or window
   reach the boundary.
   */
  lemma UpToDateExactlyWhen(p: Poll, key: Key, now: int, reply: Reply, served: Option<int>)
    requires Due(p, key.1, now) && p.cursor[key.1] % key.1.Millis() == 0
    requires Window(p.feed, key) != [] && Contiguous(Window(p.feed, key), key.1.Millis())
    requires Answers(reply, Missed(p, key.1, now), served, key.1.Millis())
    ensures var tf, n := key.1, Missed(p, key.1, now);
      var w, boundary := Window(p.feed, key), Boundary(tf, now);
      UpToDate(Window(AfterReply(p.feed, key, reply), key), boundary, tf.Millis()) <==>
        if served.None? then boundary <= Reach(w)
        else served.value - n * tf.Millis() <= Reach(w) && boundary <= Max(Reach(w), served.value)
  {
    var tfMs := key.1.Millis();
    var w, n := Window(p.feed, key), Missed(p, key.1, now);
    if served.Some? {
      AnsweredWindow(p.feed, key, reply.rows, n, served.value);
      AnswerKeepsContiguityExactly(w, reply.rows, n, served.value, tfMs);
    }
    hide Contiguous, Serves, StoreRows, PushAllBounded, Missed, Complete, Boundary;
  }

  /**
   For a window that ends at the cursor, as every committed round leaves it: up to date exactly
   when it was answered, no further bar had closed since the tick read the clock, and at most
   99 bars were missed.
   */
  lemma UpToDateFromTheCursorExactlyWhen(p: Poll, key: Key, now: int, reply: Reply, served: Option<int>)
    requires Due(p, key.1, now) && p.cursor[key.1] % key.1.Millis() == 0
    requires Window(p.feed, key) != [] && Contiguous(Window(p.feed, key), key.1.Millis())
    requires Reach(Window(p.feed, key)) == p.cursor[key.1]
    requires Answers(reply, Missed(p, key.1, now), served, key.1.Millis())
    ensures var tf := key.1;
      UpToDate(Window(AfterReply(p.feed, key, reply), key), Boundary(tf, now), tf.Millis()) <==>
        && served == Some(Boundary(tf, now))
        && Boundary(tf, now) - p.cursor[tf] <= MAX_MISSED * tf.Millis()
  {
    UpToDateExactlyWhen(p, key, now, reply, served);
    MissedCountsBars(p, key.1, now);
    hide UpToDate, Missed, Boundary, Serves, Contiguous;
    var tfMs := key.1.Millis();
    if served.Some? { ReachingBackExactly(p.cursor[key.1], Boundary(key.1, now), served.value, Missed(p, key.1, now) * tfMs, MAX_MISSED * tfMs); }
  }

  lemma ReachingBackExactly(cursor: int, boundary: int, served: int, asked: int, most: int)
    requires cursor < boundary
    requires boundary - cursor <= most ==> asked == boundary - cursor
    requires boundary - cursor > most ==> asked == most
    ensures served - asked <= cursor && boundary <= Max(cursor, served) <==> served == boundary && boundary - cursor <= most
  {
  }

  lemma AnsweredWindow(f: Feed, key: Key, rows: seq<Candle>, n: nat, boundary: int)
    requires Serves(rows, n, boundary, key.1.Millis())
    ensures Window(AfterReply(f, key, Rows(rows)), key) == PushAllBounded(Window(f, key), rows[..n])
  {
    assert Complete(rows) == rows[..n];
    assert SaneOnly(rows[..n]) == rows[..n];
    hide Serves, StoreRows, PushAllBounded;
    StoredRowsArePushed(f, key, Complete(rows));
  }

  /** The next clean answer after a committed miss starts one bar too late. */
  lemma AnswerAfterAMiss(w: seq<Candle>, cursor: int, boundary: int, rows: seq<Candle>, n: nat, tfMs: int)
    requires 0 < tfMs && w != [] && Contiguous(w, tfMs) && Reach(w) == cursor && cursor + tfMs <= boundary
    requires boundary % tfMs == 0 && 0 < n <= MAX_MISSED && Serves(rows, n, boundary + n * tfMs, tfMs)
    ensures var w' := PushAllBounded(w, rows[..n]);
      w' != [] && cursor + tfMs - 1 < Last(w').closeTime && !Holds(w', cursor + tfMs - 1)
  {
    var closed := rows[..n];
    ServedRowsRunToTheBoundary(rows, n, boundary + n * tfMs, tfMs);
    assert (n - 1) * tfMs == n * tfMs - tfMs;
    assert closed[0].closeTime == boundary + tfMs - 1;
    var w1 := PushBounded(w, closed[0]);
    OldestFirst(w, tfMs);
    assert !Holds(w1, cursor + tfMs - 1);
    AMissedBarIsNeverStored(w1, closed[1..], cursor + tfMs - 1);
    PushAllSplits(w, [closed[0]], closed[1..]);
    assert [closed[0]] + closed[1..] == closed;
    assert PushAllBounded(w, [closed[0]]) == w1 by { assert [closed[0]][..0] == []; }
  }

  /**
   A request that failed without a rate limit still lets the cursor move to `boundary`. The
   bar it missed is then lost for good: the next answer leaves a gap, and no answer after
   that, clean or not, puts the bar into the window.
   */
  lemma ACommittedFailureNeverHeals(w: seq<Candle>, cursor: int, boundary: int, rows: seq<Candle>, n: nat,
                                    later: seq<Candle>, tfMs: int)
    requires 0 < tfMs && w != [] && Contiguous(w, tfMs) && Reach(w) == cursor && cursor + tfMs <= boundary
    requires boundary % tfMs == 0 && 0 < n <= MAX_MISSED && Serves(rows, n, boundary + n * tfMs, tfMs)
    ensures var w' := PushAllBounded(w, rows[..n]);
      && !Contiguous(w', tfMs) && !Holds(w', cursor + tfMs - 1)
      && !Holds(PushAllBounded(w', later), cursor + tfMs - 1)
  {
    AnswerKeepsContiguityExactly(w, rows, n, boundary + n * tfMs, tfMs);
    AnswerAfterAMiss(w, cursor, boundary, rows, n, tfMs);
    AMissedBarIsNeverStored(PushAllBounded(w, rows[..n]), later, cursor + tfMs - 1);
  }

  lemma {:induction false} OldestFirst(w: seq<Candle>, tfMs: int)
    requires 0 < tfMs && w != [] && Contiguous(w, tfMs)
    ensures forall i | 0 <= i < |w| :: w[i].closeTime <= Last(w).closeTime
  {
    if |w| > 1 {
      var most := w[..|w| - 1];
      SplitContiguous(w, |w| - 1, tfMs);
      OldestFirst(most, tfMs);
      assert forall i | 0 <= i < |most| :: most[i] == w[i];
    }
  }

  // ---------------------------------------------------------------- which ban is sat out

  predicate IsLimit(venue: Venue, reply: Reply)
  {
    reply.Http? && IsRateLimit(venue, reply.status)
  }

  /** How long an error status asks the poller to wait. */
  function Asks(reply: Reply): int
    requires reply.Http?
  {
    BanAfter(reply.status, reply.expiry, reply.at)
  }

  /** The last rate limit among the replies. */
  predicate LastLimit(venue: Venue, replies: seq<Reply>, k: nat)
  {
    k < |replies| && IsLimit(venue, replies[k]) && forall j | k < j < |replies| :: !IsLimit(venue, replies[j])
  }

  lemma OneMoreReply(ban: int, venue: Venue, replies: seq<Reply>)
    requires replies != []
    ensures var n := |replies| - 1;
      BanAfterReplies(ban, venue, replies) == if IsLimit(venue, replies[n]) then Asks(replies[n]) else BanAfterReplies(ban, venue, replies[..n])
  {
  }

  lemma {:induction false} WithoutALimitTheBanStands(ban: int, venue: Venue, replies: seq<Reply>)
    requires forall i | 0 <= i < |replies| :: !IsLimit(venue, replies[i])
    ensures BanAfterReplies(ban, venue, replies) == ban
  {
    if replies != [] {
      OneMoreReply(ban, venue, replies);
      WithoutALimitTheBanStands(ban, venue, replies[..|replies| - 1]);
    }
  }

  lemma {:induction false} LastLimitDecides(ban: int, venue: Venue, replies: seq<Reply>, k: nat)
    requires LastLimit(venue, replies, k)
    ensures BanAfterReplies(ban, venue, replies) == Asks(replies[k])
  {
    var n := |replies| - 1;
    OneMoreReply(ban, venue, replies);
    if k < n {
      assert forall j | 0 <= j < n :: replies[..n][j] == replies[j];
      LastLimitDecides(ban, venue, replies[..n], k);
    }
  }

  /** Over every list of replies the last rate limit alone decides; without one the ban stands. */
  lemma TheLastRateLimitDecides(ban: int, venue: Venue, replies: seq<Reply>)
    ensures (forall i | 0 <= i < |replies| :: !IsLimit(venue, replies[i])) ==> BanAfterReplies(ban, venue, replies) == ban
    ensures forall k: nat | LastLimit(venue, replies, k) :: BanAfterReplies(ban, venue, replies) == Asks(replies[k])
  {
    hide BanAfterReplies, Asks;
    if forall i | 0 <= i < |replies| :: !IsLimit(venue, replies[i]) { WithoutALimitTheBanStands(ban, venue, replies); }
    forall k: nat | LastLimit(venue, replies, k) ensures BanAfterReplies(ban, venue, replies) == Asks(replies[k]) {
      LastLimitDecides(ban, venue, replies, k);
    }
  }

  lemma {:induction false} SomeLimitIsLast(venue: Venue, replies: seq<Reply>, i: nat) returns (k: nat)
    requires i < |replies| && IsLimit(venue, replies[i])
    ensures i <= k && LastLimit(venue, replies, k)
    decreases |replies| - i
  {
    if j :| i < j < |replies| && IsLimit(venue, replies[j]) {
      k := SomeLimitIsLast(venue, replies, j);
    } else {
      k := i;
    }
  }

  /**
   A round honours every ban reported in it exactly when no earlier rate limit asks for
   longer than the last one: otherwise the last cuts a longer ban short.
   */
  lemma EveryBanIsHonouredExactlyWhen(p: Poll, venue: Venue, symbols: seq<string>, tf: Timeframe, now: int, input: RoundInput)
    requires |input.replies| == |symbols|
    ensures var after, replies := Round(p, venue, symbols, tf, now, input).bannedUntil, input.replies;
      (forall i | 0 <= i < |replies| && IsLimit(venue, replies[i]) :: Asks(replies[i]) <= after) <==>
      (forall i, k: nat | 0 <= i < k && LastLimit(venue, replies, k) && IsLimit(venue, replies[i]) :: Asks(replies[i]) <= Asks(replies[k]))
  {
    var after, replies := Round(p, venue, symbols, tf, now, input).bannedUntil, input.replies;
    TheLastRateLimitDecides(p.bannedUntil, venue, replies);
    hide BanAfterReplies, Asks, IsLimit;
    if forall i, k: nat | 0 <= i < k && LastLimit(venue, replies, k) && IsLimit(venue, replies[i]) :: Asks(replies[i]) <= Asks(replies[k]) {
      forall i | 0 <= i < |replies| && IsLimit(venue, replies[i]) ensures Asks(replies[i]) <= after {
        var k := SomeLimitIsLast(venue, replies, i);
      }
    }
  }

  /** An expiry within the hour is asked for as reported; a later one is asked for up to the hour. */
  lemma ReportedExpiriesAreAsked(status: int, expiry: int, at: int)
    requires (status == 418 || status == 429) && at < expiry
    ensures Asks(Http(status, Some(expiry), at)) == Min(expiry, at + 3_600_000)
  {
  }

  /** So it happens: an hour's ban on one symbol, cut to a minute by the next symbol's reply. */
  lemma ALongerBanCutShort(ban: int, now: int)
    ensures BanAfterReplies(ban, Binance, [Http(418, Some(now + 3_600_000), now), Http(429, None, now)]) == now + 60_000
  {
    var replies := [Http(418, Some(now + 3_600_000), now), Http(429, None, now)];
    TheLastRateLimitDecides(ban, Binance, replies);
    assert LastLimit(Binance, replies, 1);
  }
}
