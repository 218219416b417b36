/**
 From bootstrap to polling: when the windows bootstrap left are a gap-free start for the
 poller, and what a committed miss costs over every run after it.
 */
module HandOff {
  import opened Wrappers
  import opened Bars
  import opened Ring
  import opened Grid
  import opened Feed
  import opened Bootstrap
  import opened GapFreePolling

  // ---------------------------------------------------------------- what bootstrap leaves

  lemma KeysAreAllPairs(symbols: seq<string>, key: Key)
    ensures key in Keys(symbols) <==> key.0 in symbols
  {
    if key.0 in symbols {
      var i :| 0 <= i < |symbols| && symbols[i] == key.0;
      var j := match key.1 case M5 => 0 case M15 => 1 case H1 => 2 case H4 => 3;
      assert TIMEFRAMES[j] == key.1;
      assert Keys(symbols)[i * 4 + j] == key;
    }
  }

  /** The closed rows a reply holds for a key, if it holds any. */
  function ClosedRows(replies: Replies, key: Key): seq<Candle>
  {
    var reply := ReplyFor(replies, key);
    if reply.Rows? then SaneOnly(Complete(reply.rows)) else []
  }

  lemma {:induction false} PushingStaysBounded(w: seq<Candle>, rows: seq<Candle>)
    requires |w| <= CAPACITY
    ensures |PushAllBounded(w, rows)| <= CAPACITY
  {
    if rows != [] { PushingStaysBounded(w, rows[..|rows| - 1]); }
  }

  /** What one answered key does to a window, and what seeing the key again would add: nothing. */
  lemma AnsweredKey(f: Feed, asked: Key, replies: Replies, key: Key)
    requires |Window(f, key)| <= CAPACITY && ReplyFor(replies, asked).Rows?
    ensures var g, rows := StoreRows(f, asked, Complete(ReplyFor(replies, asked).rows)), ClosedRows(replies, key);
      && |Window(g, key)| <= CAPACITY
      && Window(g, key) == (if key == asked then PushAllBounded(Window(f, key), rows) else Window(f, key))
      && (key == asked ==> PushAllBounded(Window(g, key), rows) == Window(g, key))
  {
    hide StoreRows, SaneOnly, Complete, PushAllBounded, Window;
    StoredRowsArePushed(f, asked, Complete(ReplyFor(replies, asked).rows));
    PushingStaysBounded(Window(f, key), ClosedRows(replies, key));
    RefetchIsIdempotentInTheWindow(Window(f, key), ClosedRows(replies, key));
  }

  lemma SkippedKey(w: seq<Candle>, replies: Replies, key: Key)
    requires !ReplyFor(replies, key).Rows?
    ensures PushAllBounded(w, ClosedRows(replies, key)) == w
  {
  }

  lemma {:induction false} LoadedWindow(f: Feed, venue: Venue, keys: seq<Key>, replies: Replies, loaded: nat, key: Key)
    requires LoadFrom(f, venue, keys, replies, loaded).1.Loaded? && |Window(f, key)| <= CAPACITY
    ensures Window(LoadFrom(f, venue, keys, replies, loaded).0, key)
      == if key in keys then PushAllBounded(Window(f, key), ClosedRows(replies, key)) else Window(f, key)
    decreases |keys|
  {
    hide StoreRows, SaneOnly, Complete, BanAfter, IsRateLimit, ClosedRows, PushAllBounded, Window;
    if keys != [] {
      var asked, rest := keys[0], keys[1..];
      assert key in keys <==> key == asked || key in rest;
      var reply := ReplyFor(replies, asked);
      if reply.Rows? {
        AnsweredKey(f, asked, replies, key);
        LoadedWindow(StoreRows(f, asked, Complete(reply.rows)), venue, rest, replies, loaded + |SaneOnly(Complete(reply.rows))|, key);
      } else {
        if key == asked { SkippedKey(Window(f, key), replies, key); }
        LoadedWindow(f, venue, rest, replies, loaded, key);
      }
    }
  }

  /** The first key that was answered with a rate limit. */
  predicate FirstLimited(venue: Venue, keys: seq<Key>, replies: Replies, k: nat)
  {
    k < |keys| && IsLimit(venue, ReplyFor(replies, keys[k])) && forall j | 0 <= j < k :: !IsLimit(venue, ReplyFor(replies, keys[j]))
  }

  predicate NoneLimited(venue: Venue, keys: seq<Key>, replies: Replies)
  {
    forall k | 0 <= k < |keys| :: !IsLimit(venue, ReplyFor(replies, keys[k]))
  }

  predicate AnyClosed(keys: seq<Key>, replies: Replies)
  {
    exists k | 0 <= k < |keys| :: ClosedRows(replies, keys[k]) != []
  }

  lemma ShiftedKeys(venue: Venue, keys: seq<Key>, replies: Replies)
    requires keys != []
    ensures NoneLimited(venue, keys, replies) <==> !IsLimit(venue, ReplyFor(replies, keys[0])) && NoneLimited(venue, keys[1..], replies)
    ensures AnyClosed(keys, replies) <==> ClosedRows(replies, keys[0]) != [] || AnyClosed(keys[1..], replies)
    ensures forall k: nat | 0 < k && FirstLimited(venue, keys, replies, k) :: FirstLimited(venue, keys[1..], replies, k - 1)
    ensures FirstLimited(venue, keys, replies, 0) <==> IsLimit(venue, ReplyFor(replies, keys[0]))
  {
    hide IsLimit, ClosedRows;
    var rest := keys[1..];
    assert forall k | 0 <= k < |rest| :: rest[k] == keys[k + 1];
    if k :| 1 <= k < |keys| && ClosedRows(replies, keys[k]) != [] { assert ClosedRows(replies, rest[k - 1]) != []; }
    if NoneLimited(venue, keys, replies) {
      forall k | 0 <= k < |rest| ensures !IsLimit(venue, ReplyFor(replies, rest[k])) { assert rest[k] == keys[k + 1]; }
    }
    if !IsLimit(venue, ReplyFor(replies, keys[0])) && NoneLimited(venue, rest, replies) {
      forall k | 0 <= k < |keys| ensures !IsLimit(venue, ReplyFor(replies, keys[k])) { if k > 0 { assert !IsLimit(venue, ReplyFor(replies, rest[k - 1])); } }
    }
    forall k: nat | 0 < k && FirstLimited(venue, keys, replies, k) ensures FirstLimited(venue, rest, replies, k - 1) {
      forall j | 0 <= j < k - 1 ensures !IsLimit(venue, ReplyFor(replies, rest[j])) { assert !IsLimit(venue, ReplyFor(replies, keys[j + 1])); }
    }
  }

  /**
   How one venue's attempt ends: banned by the first rate-limit answer, for as long as that one
   asks, and otherwise loaded, with something exactly when some answer held a sane closed bar.
   */
  lemma {:induction false} AttemptsEnd(f: Feed, venue: Venue, keys: seq<Key>, replies: Replies, loaded: nat)
    ensures var attempt := LoadFrom(f, venue, keys, replies, loaded).1;
      && (attempt.Loaded? <==> NoneLimited(venue, keys, replies))
      && (attempt.Loaded? ==> loaded <= attempt.bars && (loaded < attempt.bars <==> AnyClosed(keys, replies)))
      && (forall k: nat | FirstLimited(venue, keys, replies, k) :: attempt == Banned(Asks(ReplyFor(replies, keys[k]))))
    decreases |keys|
  {
    hide StoreRows, SaneOnly, Complete, BanAfter, IsRateLimit, NoneLimited, AnyClosed;
    if keys == [] {
      NoKeys(venue, replies);
    } else {
      ShiftedKeys(venue, keys, replies);
      var reply, rest := ReplyFor(replies, keys[0]), keys[1..];
      if reply.Rows? {
        AttemptsEnd(StoreRows(f, keys[0], Complete(reply.rows)), venue, rest, replies, loaded + |SaneOnly(Complete(reply.rows))|);
      } else if !IsLimit(venue, reply) {
        AttemptsEnd(f, venue, rest, replies, loaded);
      }
    }
  }

  lemma NoKeys(venue: Venue, replies: Replies)
    ensures NoneLimited(venue, [], replies) && !AnyClosed([], replies)
  {
  }

  /** Some request for a symbol was answered with a rate limit. */
  predicate Limited(symbols: seq<string>, input: BootstrapInput, v: Venue)
  {
    exists s, tf | s in symbols && tf in TIMEFRAMES :: IsLimit(v, ReplyFor(RepliesOf(input, v), (s, tf)))
  }

  lemma LimitedKeys(symbols: seq<string>, input: BootstrapInput, v: Venue)
    ensures NoneLimited(v, Keys(symbols), RepliesOf(input, v)) <==> !Limited(symbols, input, v)
  {
    hide IsLimit;
    var keys, replies := Keys(symbols), RepliesOf(input, v);
    forall k | 0 <= k < |keys| ensures keys[k].0 in symbols && keys[k].1 in TIMEFRAMES { assert keys[k] in keys; KeysAreAllPairs(symbols, keys[k]); }
    if s, tf :| s in symbols && tf in TIMEFRAMES && IsLimit(v, ReplyFor(replies, (s, tf))) {
      KeysAreAllPairs(symbols, (s, tf));
      var k :| 0 <= k < |keys| && keys[k] == (s, tf);
    }
    if k :| 0 <= k < |keys| && IsLimit(v, ReplyFor(replies, keys[k])) { assert keys[k] == (keys[k].0, keys[k].1); }
    hide Keys;
  }

  /**
   A venue serves exactly when it limits no request and answers some symbol with a sane closed
   bar; its windows then hold, for every symbol and timeframe, just what it answered there.
   */
  lemma VenuesServeExactlyWhen(symbols: seq<string>, input: BootstrapInput, v: Venue, key: Key)
    ensures Serving(symbols, input, v) <==> !Limited(symbols, input, v) && AnyClosed(Keys(symbols), RepliesOf(input, v))
    ensures Serving(symbols, input, v) ==>
      Window(Booted(symbols, input, v), key) == if key.0 in symbols then PushAllBounded([], ClosedRows(RepliesOf(input, v), key)) else []
  {
    AttemptsEnd(EMPTY, v, Keys(symbols), RepliesOf(input, v), 0);
    LimitedKeys(symbols, input, v);
    KeysAreAllPairs(symbols, key);
    assert Window(EMPTY, key) == [];
    if Serving(symbols, input, v) { LoadedWindow(EMPTY, v, Keys(symbols), RepliesOf(input, v), 0, key); }
    hide LoadFrom, Keys, Limited, NoneLimited, AnyClosed, ClosedRows, PushAllBounded, Window;
  }

  /** When nobody serves, the process waits for a venue exactly if one limited it. */
  lemma TheWaitIsALimit(symbols: seq<string>, input: BootstrapInput)
    ensures FirstBan(symbols, input, 0).Some? <==> exists v | v in FALLBACK_ORDER :: Limited(symbols, input, v)
    ensures Limited(symbols, input, FALLBACK_ORDER[0]) ==>
      var attempt := LoadFrom(EMPTY, FALLBACK_ORDER[0], Keys(symbols), RepliesOf(input, FALLBACK_ORDER[0]), 0).1;
      attempt.Banned? && FirstBan(symbols, input, 0) == Some(attempt.until)
  {
    forall v: Venue ensures LoadFrom(EMPTY, v, Keys(symbols), RepliesOf(input, v), 0).1.Banned? <==> Limited(symbols, input, v) {
      AttemptsEnd(EMPTY, v, Keys(symbols), RepliesOf(input, v), 0);
      LimitedKeys(symbols, input, v);
    }
    assert FALLBACK_ORDER[0] in FALLBACK_ORDER && FALLBACK_ORDER[1] in FALLBACK_ORDER;
    hide LoadFrom, Keys, Limited;
    assert FirstBan(symbols, input, 2).None?;
    assert FirstBan(symbols, input, 1).Some? <==> Limited(symbols, input, FALLBACK_ORDER[1]);
  }

  /** Each key was answered with the newest closed bars as of `served[key]`, or not with rows at all. */
  predicate ServedAt(replies: Replies, served: map<Key, int>, key: Key)
  {
    var reply := ReplyFor(replies, key);
    if key in served then
      reply.Rows? && |reply.rows| >= 2 && Serves(reply.rows, |reply.rows| - 1, served[key], key.1.Millis())
    else !reply.Rows?
  }

  lemma ServedWindow(replies: Replies, served: map<Key, int>, key: Key)
    requires ServedAt(replies, served, key)
    ensures var w := PushAllBounded([], ClosedRows(replies, key));
      && (w == [] <==> key !in served)
      && (key in served ==> Contiguous(w, key.1.Millis()) && Reach(w) == served[key])
  {
    if key in served {
      var rows := ReplyFor(replies, key).rows;
      var n := |rows| - 1;
      assert SaneOnly(rows[..n]) == rows[..n];
      ServedRowsRunToTheBoundary(rows, n, served[key], key.1.Millis());
      GridRowsFillEmpty(rows[..n], key.1.Millis());
    }
  }

  /** Where the poller starts once bootstrap has loaded from `venue`. */
  function Start(symbols: seq<string>, input: BootstrapInput, venue: Venue, clock: Timeframe -> int): Poll
  {
    Poll(Booted(symbols, input, venue), StartCursor(clock), 0)
  }

  lemma StartWindow(symbols: seq<string>, input: BootstrapInput, venue: Venue, clock: Timeframe -> int, served: map<Key, int>, key: Key)
    requires Serving(symbols, input, venue) && key.0 in symbols && ServedAt(RepliesOf(input, venue), served, key)
    ensures var p := Start(symbols, input, venue, clock);
      && key.1 in p.cursor && p.cursor[key.1] % key.1.Millis() == 0
      && (UpToDate(Window(p.feed, key), p.cursor[key.1], key.1.Millis())
          <==> (key in served ==> Boundary(key.1, clock(key.1)) <= served[key]))
  {
    KeysAreAllPairs(symbols, key);
    LoadedWindow(EMPTY, venue, Keys(symbols), RepliesOf(input, venue), 0, key);
    ServedWindow(RepliesOf(input, venue), served, key);
    BoundaryIsOnTheGrid(key.1, clock(key.1));
    hide LoadFrom, Contiguous, PushAllBounded, ClosedRows, Boundary;
  }

  lemma BoundaryIsOnTheGrid(tf: Timeframe, now: int)
    ensures Boundary(tf, now) % tf.Millis() == 0
  {
    TruncIsFloor(now - KLINE_SETTLE_MS, tf.Millis());
  }

  /**
   The hand-off, exactly: the poller starts gap-free if and only if no bar closed between a
   bootstrap answer and the poller's first reading of the clock for that timeframe. The
   cursor starts at that reading, whatever bootstrap stored, so such a bar is never asked for.
   */
  lemma HandOffIsGapFreeExactlyWhen(symbols: seq<string>, input: BootstrapInput, venue: Venue, clock: Timeframe -> int, served: map<Key, int>)
    requires Serving(symbols, input, venue)
    requires forall key: Key | key.0 in symbols :: ServedAt(RepliesOf(input, venue), served, key)
    ensures GapFree(Start(symbols, input, venue, clock), symbols)
      <==> forall key | key in served && key.0 in symbols :: Boundary(key.1, clock(key.1)) <= served[key]
  {
    var p := Start(symbols, input, venue, clock);
    forall key: Key | key.0 in symbols
      ensures key.1 in p.cursor && p.cursor[key.1] % key.1.Millis() == 0
      ensures UpToDate(Window(p.feed, key), p.cursor[key.1], key.1.Millis())
          <==> (key in served ==> Boundary(key.1, clock(key.1)) <= served[key])
    {
      StartWindow(symbols, input, venue, clock, served, key);
    }
    forall tf | tf in p.cursor ensures p.cursor[tf] % tf.Millis() == 0 { BoundaryIsOnTheGrid(tf, clock(tf)); }
    hide UpToDate, ServedAt, Booted, Boundary;
    if GapFree(p, symbols) {
      forall key | key in served && key.0 in symbols ensures Boundary(key.1, clock(key.1)) <= served[key] {
        assert UpToDate(Window(p.feed, (key.0, key.1)), p.cursor[key.1], key.1.Millis());
      }
    }
    if forall key | key in served && key.0 in symbols :: Boundary(key.1, clock(key.1)) <= served[key] {
      forall tf, s | tf in p.cursor && s in symbols ensures UpToDate(Window(p.feed, (s, tf)), p.cursor[tf], tf.Millis()) {
        var key := (s, tf);
        assert key.0 in symbols;
      }
    }
  }

  // One symbol, answered for five minutes at the close of a bar and polled from after the next.

  const FIRST_BAR := Candle(1.0, 1.0, 1.0, 1.0, 1.0, 299_999)
  const FORMING := Candle(1.0, 1.0, 1.0, 1.0, 1.0, 599_999)
  const EARLY_ANSWER: BootstrapInput := map[Binance := map[("BTC", M5) := Rows([FIRST_BAR, FORMING])]]

  lemma {:induction false} FailedKeysAreSkipped(f: Feed, venue: Venue, keys: seq<Key>, replies: Replies, loaded: nat)
    requires forall key | key in keys :: ReplyFor(replies, key).Failed?
    ensures LoadFrom(f, venue, keys, replies, loaded) == (f, Loaded(loaded))
    decreases |keys|
  {
    if keys != [] { FailedKeysAreSkipped(f, venue, keys[1..], replies, loaded); }
  }

  lemma OneBarIsLoaded()
    ensures Serving(["BTC"], EARLY_ANSWER, Binance)
  {
    var replies := RepliesOf(EARLY_ANSWER, Binance);
    var keys := Keys(["BTC"]);
    assert keys[0] == ("BTC", M5) && keys[0..] == keys;
    assert forall key | key in keys[1..] :: key.1 != M5;
    assert forall key: Key | key.1 != M5 :: ReplyFor(replies, key).Failed?;
    assert ReplyFor(replies, keys[0]) == Rows([FIRST_BAR, FORMING]);
    OneClosedRow();
    hide StoreRows, SaneOnly, Complete, Keys;
    LoadNext(EMPTY, Binance, keys, 0, replies, 0);
    FailedKeysAreSkipped(StoreRows(EMPTY, keys[0], [FIRST_BAR]), Binance, keys[1..], replies, 1);
    hide LoadFrom;
  }

  lemma OneClosedRow()
    ensures Complete([FIRST_BAR, FORMING]) == [FIRST_BAR] && SaneOnly([FIRST_BAR]) == [FIRST_BAR]
  {
    assert [FIRST_BAR][..0] == [];
  }

  lemma OneBarIsServed(key: Key)
    requires key.0 == "BTC"
    ensures ServedAt(RepliesOf(EARLY_ANSWER, Binance), map[("BTC", M5) := 300_000], key)
  {
    if key.1 == M5 { assert Serves([FIRST_BAR, FORMING], 1, 300_000, M5.Millis()); }
  }

  /** A bar that closes in between is lost: the poller does not start gap-free. */
  lemma ABarClosesInTheHandOff()
    ensures !GapFree(Start(["BTC"], EARLY_ANSWER, Binance, _ => 603_000), ["BTC"])
  {
    var served := map[("BTC", M5) := 300_000];
    OneBarIsLoaded();
    forall key: Key | key.0 in ["BTC"] ensures ServedAt(RepliesOf(EARLY_ANSWER, Binance), served, key) { OneBarIsServed(key); }
    hide GapFree, Serving, ServedAt;
    HandOffIsGapFreeExactlyWhen(["BTC"], EARLY_ANSWER, Binance, _ => 603_000, served);
    assert ("BTC", M5) in served && Boundary(M5, 603_000) == 600_000;
  }

  /** The life of the process, from bootstrap on: a clean hand-off and clean wake-ups keep every window gap-free. */
  lemma ProcessesAreGapFree(symbols: seq<string>, input: BootstrapInput, venue: Venue, clock: Timeframe -> int, served: map<Key, int>, wakes: seq<Wake>)
    requires Serving(symbols, input, venue)
    requires forall key: Key | key.0 in symbols :: ServedAt(RepliesOf(input, venue), served, key)
    requires forall key | key in served && key.0 in symbols :: Boundary(key.1, clock(key.1)) <= served[key]
    requires forall w | w in wakes :: WakeFits(w, symbols)
    requires CleanRun(Start(symbols, input, venue, clock), venue, symbols, wakes)
    ensures GapFree(AfterWakes(Start(symbols, input, venue, clock), venue, symbols, wakes), symbols)
  {
    HandOffIsGapFreeExactlyWhen(symbols, input, venue, clock, served);
    CleanRunsAreGapFree(Start(symbols, input, venue, clock), venue, symbols, wakes);
  }

  // ---------------------------------------------------------------- what a committed miss costs

  /** No closed row of the answer is older than what was asked for: bars from the cursor on. */
  predicate NothingOlder(reply: Reply, cursor: int)
  {
    reply.Rows? ==> forall c | c in Complete(reply.rows) :: cursor <= c.closeTime
  }

  predicate AskedWalk(p: Poll, venue: Venue, symbols: seq<string>, now: int, inputs: TickInput, i: nat)
    requires i <= |TIMEFRAMES| && Fits(inputs, symbols)
    decreases |TIMEFRAMES| - i
  {
    i < |TIMEFRAMES| ==>
      var tf := TIMEFRAMES[i];
      if !Due(p, tf, now) then AskedWalk(p, venue, symbols, now, inputs, i + 1)
      else
        && (forall k | 0 <= k < |inputs[tf].replies| :: NothingOlder(inputs[tf].replies[k], p.cursor[tf]))
        && (Commits(p, venue, inputs[tf]) ==>
              AskedWalk(Round(p, venue, symbols, tf, now, inputs[tf]), venue, symbols, now, inputs, i + 1))
  }

  /** Every answer of the run holds only what was asked for. */
  predicate AskedRun(p: Poll, venue: Venue, symbols: seq<string>, wakes: seq<Wake>)
    requires forall w | w in wakes :: WakeFits(w, symbols)
  {
    wakes == [] ||
      (var n := |wakes| - 1;
       var q := AfterWakes(p, venue, symbols, wakes[..n]);
       && AskedRun(p, venue, symbols, wakes[..n])
       && WakeFits(wakes[n], symbols)
       && (wakes[n].Klines? && q.bannedUntil <= wakes[n].now ==> AskedWalk(q, venue, symbols, wakes[n].now, wakes[n].inputs, 0)))
  }

  /** A venue that serves the missed bars as of any boundary at or past the round's own answers just that. */
  lemma ServedAnswersAreNotOlder(p: Poll, tf: Timeframe, now: int, rows: seq<Candle>, served: int)
    requires Due(p, tf, now) && p.cursor[tf] % tf.Millis() == 0
    requires Serves(rows, Missed(p, tf, now), served, tf.Millis()) && Boundary(tf, now) <= served
    ensures NothingOlder(Rows(rows), p.cursor[tf])
  {
    var tfMs, n := tf.Millis(), Missed(p, tf, now);
    MissedCountsBars(p, tf, now);
    assert n * tfMs <= Boundary(tf, now) - p.cursor[tf];
    forall i | 0 <= i < n ensures p.cursor[tf] <= rows[i].closeTime {
      assert (n - 1 - i) * tfMs == n * tfMs - (1 + i) * tfMs;
      NonNegativeProduct(i, tfMs);
      assert (1 + i) * tfMs == tfMs + i * tfMs;
    }
  }

  lemma {:induction false} OthersDoNotStore(w: seq<Candle>, rows: seq<Candle>, t: int)
    requires !Holds(w, t) && forall c | c in rows :: c.closeTime != t
    ensures !Holds(PushAllBounded(w, rows), t)
  {
    if rows != [] {
      var n := |rows| - 1;
      assert rows[n] in rows;
      OthersDoNotStore(w, rows[..n], t);
      var before := PushAllBounded(w, rows[..n]);
      var after := PushBounded(before, rows[n]);
      forall i | 0 <= i < |after| ensures after[i].closeTime != t {
        assert after[i] == rows[n] || after[i] in before;
      }
    }
  }

  /** The bar that closes at `t` is not in the window, and the poller has moved past it. */
  predicate Missing(p: Poll, key: Key, t: int)
  {
    key.1 in p.cursor && t < p.cursor[key.1] && !Holds(Window(p.feed, key), t)
  }

  lemma {:induction false} RepliesStoreOthers(f: Feed, symbols: seq<string>, tf: Timeframe, replies: seq<Reply>, key: Key, t: int)
    requires |replies| == |symbols| && !Holds(Window(f, key), t)
    requires key.1 == tf ==> forall i | 0 <= i < |replies| && symbols[i] == key.0 :: NothingOlder(replies[i], t + 1)
    ensures !Holds(Window(AfterReplies(f, symbols, tf, replies), key), t)
  {
    hide Holds, StoreRows, PushAllBounded, Complete, SaneOnly;
    if symbols != [] {
      var n := |symbols| - 1;
      RepliesStoreOthers(f, symbols[..n], tf, replies[..n], key, t);
      if replies[n].Rows? {
        var g := AfterReplies(f, symbols[..n], tf, replies[..n]);
        StoredRowsArePushed(g, (symbols[n], tf), Complete(replies[n].rows));
        if (symbols[n], tf) == key {
          OthersDoNotStore(Window(g, key), SaneOnly(Complete(replies[n].rows)), t);
        }
      }
    }
  }

  lemma RoundKeepsMissing(p: Poll, venue: Venue, symbols: seq<string>, tf: Timeframe, now: int, input: RoundInput, key: Key, t: int)
    requires |input.replies| == |symbols| && Due(p, tf, now) && Missing(p, key, t)
    requires forall k | 0 <= k < |input.replies| :: NothingOlder(input.replies[k], p.cursor[tf])
    ensures Missing(Round(p, venue, symbols, tf, now, input), key, t)
  {
    if key.1 == tf {
      forall i | 0 <= i < |input.replies| ensures NothingOlder(input.replies[i], t + 1) {
        assert NothingOlder(input.replies[i], p.cursor[tf]);
      }
    }
    hide NothingOlder, Holds;
    RepliesStoreOthers(p.feed, symbols, tf, input.replies, key, t);
  }

  lemma {:induction false} WalkKeepsMissing(p: Poll, venue: Venue, symbols: seq<string>, now: int, inputs: TickInput, i: nat, key: Key, t: int)
    requires i <= |TIMEFRAMES| && Fits(inputs, symbols) && Missing(p, key, t)
    requires AskedWalk(p, venue, symbols, now, inputs, i)
    ensures Missing(Walk(p, venue, symbols, now, inputs, i), key, t)
    decreases |TIMEFRAMES| - i
  {
    hide Missing, NothingOlder, Round;
    if i < |TIMEFRAMES| {
      var tf := TIMEFRAMES[i];
      if !Due(p, tf, now) {
        WalkKeepsMissing(p, venue, symbols, now, inputs, i + 1, key, t);
      } else {
        RoundKeepsMissing(p, venue, symbols, tf, now, inputs[tf], key, t);
        if Commits(p, venue, inputs[tf]) {
          WalkKeepsMissing(Round(p, venue, symbols, tf, now, inputs[tf]), venue, symbols, now, inputs, i + 1, key, t);
        }
      }
    }
  }

  lemma {:induction false} RunKeepsMissing(p: Poll, venue: Venue, symbols: seq<string>, wakes: seq<Wake>, key: Key, t: int)
    requires forall w | w in wakes :: WakeFits(w, symbols)
    requires Missing(p, key, t) && AskedRun(p, venue, symbols, wakes)
    ensures Missing(AfterWakes(p, venue, symbols, wakes), key, t)
  {
    if wakes != [] {
      var n := |wakes| - 1;
      RunKeepsMissing(p, venue, symbols, wakes[..n], key, t);
      var q := AfterWakes(p, venue, symbols, wakes[..n]);
      assert WakeFits(wakes[n], symbols);
      match wakes[n]
      case Klines(now, inputs) =>
        if q.bannedUntil <= now { WalkKeepsMissing(q, venue, symbols, now, inputs, 0, key, t); }
      case Books(tops) => StampsTouchNoWindow(q.feed, tops);
      case Interest(samples) => StampsTouchNoWindow(q.feed, Stamps(samples));
    }
  }

  /**
   A request that failed without stopping the round still lets the cursor pass the bars it
   missed. Over every run after it, bans included, in which the venue answers what it is
   asked, none of those bars ever enters the symbol's window.
   */
  lemma ACommittedFailureIsNeverMadeUp(p: Poll, venue: Venue, symbols: seq<string>, tf: Timeframe, now: int, input: RoundInput,
                                       s: string, t: int, wakes: seq<Wake>)
    requires |input.replies| == |symbols| && Due(p, tf, now) && Commits(p, venue, input)
    requires forall i | 0 <= i < |symbols| && symbols[i] == s :: !input.replies[i].Rows?
    requires p.cursor[tf] <= t < Boundary(tf, now) && !Holds(Window(p.feed, (s, tf)), t)
    requires forall w | w in wakes :: WakeFits(w, symbols)
    requires AskedRun(Round(p, venue, symbols, tf, now, input), venue, symbols, wakes)
    ensures !Holds(Window(AfterWakes(Round(p, venue, symbols, tf, now, input), venue, symbols, wakes).feed, (s, tf)), t)
  {
    RepliesStoreOthers(p.feed, symbols, tf, input.replies, (s, tf), t);
    hide Holds;
    RunKeepsMissing(Round(p, venue, symbols, tf, now, input), venue, symbols, wakes, (s, tf), t);
  }

  // ---------------------------------------------------------------- once a later bar is stored

  /** The bar is missing behind a newer one. */
  predicate Passed(w: seq<Candle>, t: int)
  {
    w != [] && t < Last(w).closeTime && !Holds(w, t)
  }

  lemma {:induction false} RepliesKeepPassed(f: Feed, symbols: seq<string>, tf: Timeframe, replies: seq<Reply>, key: Key, t: int)
    requires |replies| == |symbols| && Passed(Window(f, key), t)
    ensures Passed(Window(AfterReplies(f, symbols, tf, replies), key), t)
  {
    hide Holds, StoreRows, PushAllBounded, Complete, SaneOnly;
    if symbols != [] {
      var n := |symbols| - 1;
      RepliesKeepPassed(f, symbols[..n], tf, replies[..n], key, t);
      if replies[n].Rows? {
        var g := AfterReplies(f, symbols[..n], tf, replies[..n]);
        StoredRowsArePushed(g, (symbols[n], tf), Complete(replies[n].rows));
        if (symbols[n], tf) == key {
          AMissedBarIsNeverStored(Window(g, key), SaneOnly(Complete(replies[n].rows)), t);
        }
      }
    }
  }

  lemma {:induction false} WalkKeepsPassed(p: Poll, venue: Venue, symbols: seq<string>, now: int, inputs: TickInput, i: nat, key: Key, t: int)
    requires i <= |TIMEFRAMES| && Fits(inputs, symbols) && Passed(Window(p.feed, key), t)
    ensures Passed(Window(Walk(p, venue, symbols, now, inputs, i).feed, key), t)
    decreases |TIMEFRAMES| - i
  {
    hide Passed;
    if i < |TIMEFRAMES| {
      var tf := TIMEFRAMES[i];
      if !Due(p, tf, now) {
        WalkKeepsPassed(p, venue, symbols, now, inputs, i + 1, key, t);
      } else {
        RepliesKeepPassed(p.feed, symbols, tf, inputs[tf].replies, key, t);
        if Commits(p, venue, inputs[tf]) {
          WalkKeepsPassed(Round(p, venue, symbols, tf, now, inputs[tf]), venue, symbols, now, inputs, i + 1, key, t);
        }
      }
    }
  }

  /** Behind a newer bar it stays missing over every run, whatever the venue answers. */
  lemma {:induction false} APassedBarIsLostForGood(p: Poll, venue: Venue, symbols: seq<string>, wakes: seq<Wake>, key: Key, t: int)
    requires forall w | w in wakes :: WakeFits(w, symbols)
    requires Passed(Window(p.feed, key), t)
    ensures Passed(Window(AfterWakes(p, venue, symbols, wakes).feed, key), t)
  {
    if wakes != [] {
      var n := |wakes| - 1;
      APassedBarIsLostForGood(p, venue, symbols, wakes[..n], key, t);
      var q := AfterWakes(p, venue, symbols, wakes[..n]);
      assert WakeFits(wakes[n], symbols);
      match wakes[n]
      case Klines(now, inputs) => WalkKeepsPassed(q, venue, symbols, now, inputs, 0, key, t);
      case Books(tops) => StampsTouchNoWindow(q.feed, tops);
      case Interest(samples) => StampsTouchNoWindow(q.feed, Stamps(samples));
    }
  }
}
