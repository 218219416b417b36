/**
 Freshness is truthful: what the pollers store never claims an event that has not happened,
 because the row still forming is dropped before anything is pushed. And every bar a window
 shows was served by the venue the log names.
 */
module Freshness {
  import opened Bars
  import opened Ring
  import opened Grid
  import opened Feed
  import opened Bootstrap
  import opened GapFreePolling
  import FeatureStore

  /** No symbol claims an event after `now`. */
  predicate NothingAhead(f: Feed, now: int)
  {
    forall s | s in f.lastEvents :: f.lastEvents[s] <= now
  }

  /** All rows but the last had closed by `now`: at most one bar of an answer is still forming. */
  predicate Honest(reply: Reply, now: int)
  {
    reply.Rows? ==> forall c | c in Complete(reply.rows) :: c.closeTime <= now
  }

  /** What a venue serves mid-bar is honest. */
  lemma ServedRowsAreHonest(rows: seq<Candle>, n: nat, boundary: int, tfMs: int, now: int)
    requires 0 < tfMs && Serves(rows, n, boundary, tfMs) && boundary <= now
    ensures Honest(Rows(rows), now)
  {
    ServedRowsHaveClosed(rows, n, boundary, tfMs);
  }

  /** So every reply of a clean round is honest from the boundary it serves on. */
  lemma CleanRoundsAreHonest(p: Poll, venue: Venue, tf: Timeframe, at: int, input: RoundInput, now: int)
    requires Due(p, tf, at) && CleanRound(p, venue, tf, at, input) && Boundary(tf, at) <= now
    ensures forall k | 0 <= k < |input.replies| :: Honest(input.replies[k], now)
  {
    forall k | 0 <= k < |input.replies| ensures Honest(input.replies[k], now) {
      if input.replies[k].Rows? {
        ServedRowsAreHonest(input.replies[k].rows, Missed(p, tf, at), Boundary(tf, at), tf.Millis(), now);
      }
    }
  }

  lemma {:induction false} StoringKeepsNothingAhead(f: Feed, key: Key, rows: seq<Candle>, now: int)
    requires NothingAhead(f, now) && 0 <= now && forall c | c in rows :: c.closeTime <= now
    ensures NothingAhead(StoreRows(f, key, rows), now)
  {
    if rows != [] {
      assert rows[|rows| - 1] in rows;
      StoringKeepsNothingAhead(f, key, rows[..|rows| - 1], now);
    }
  }

  lemma {:induction false} RepliesKeepNothingAhead(f: Feed, symbols: seq<string>, tf: Timeframe, replies: seq<Reply>, now: int)
    requires |replies| == |symbols| && NothingAhead(f, now) && 0 <= now
    requires forall i | 0 <= i < |replies| :: Honest(replies[i], now)
    ensures NothingAhead(AfterReplies(f, symbols, tf, replies), now)
  {
    if symbols != [] {
      var n := |symbols| - 1;
      RepliesKeepNothingAhead(f, symbols[..n], tf, replies[..n], now);
      if replies[n].Rows? {
        StoringKeepsNothingAhead(AfterReplies(f, symbols[..n], tf, replies[..n]), (symbols[n], tf), Complete(replies[n].rows), now);
      }
    }
  }

  lemma {:induction false} WalkKeepsNothingAhead(p: Poll, venue: Venue, symbols: seq<string>, at: int, inputs: TickInput, i: nat, now: int)
    requires i <= |TIMEFRAMES| && Fits(inputs, symbols) && NothingAhead(p.feed, now) && 0 <= now
    requires forall tf, k | tf in TIMEFRAMES && 0 <= k < |inputs[tf].replies| :: Honest(inputs[tf].replies[k], now)
    ensures NothingAhead(Walk(p, venue, symbols, at, inputs, i).feed, now)
    decreases |TIMEFRAMES| - i
  {
    if i < |TIMEFRAMES| {
      var tf := TIMEFRAMES[i];
      if !Due(p, tf, at) {
        WalkKeepsNothingAhead(p, venue, symbols, at, inputs, i + 1, now);
      } else {
        RepliesKeepNothingAhead(p.feed, symbols, tf, inputs[tf].replies, now);
        if Commits(p, venue, inputs[tf]) {
          WalkKeepsNothingAhead(Round(p, venue, symbols, tf, at, inputs[tf]), venue, symbols, at, inputs, i + 1, now);
        }
      }
    }
  }

  /** Everything a wake-up brings had happened when it came: closed bars, quotes and readings. */
  predicate HonestWake(w: Wake, symbols: seq<string>, now: int)
    requires WakeFits(w, symbols)
  {
    match w
    case Klines(_, inputs) => forall tf, k | tf in TIMEFRAMES && 0 <= k < |inputs[tf].replies| :: Honest(inputs[tf].replies[k], now)
    case Books(tops) => forall t | t in tops :: t.1 <= now
    case Interest(samples) => forall t | t in Stamps(samples) :: t.1 <= now
  }

  lemma {:induction false} StampsKeepNothingAhead(f: Feed, stamps: seq<(string, int)>, now: int)
    requires NothingAhead(f, now) && 0 <= now && forall t | t in stamps :: t.1 <= now
    ensures NothingAhead(StampAll(f, stamps), now)
  {
    if stamps != [] {
      assert stamps[|stamps| - 1] in stamps;
      StampsKeepNothingAhead(f, stamps[..|stamps| - 1], now);
    }
  }

  lemma WakeKeepsNothingAhead(p: Poll, venue: Venue, symbols: seq<string>, w: Wake, now: int)
    requires NothingAhead(p.feed, now) && 0 <= now && WakeFits(w, symbols) && HonestWake(w, symbols, now)
    ensures NothingAhead(AfterWake(p, venue, symbols, w).feed, now)
  {
    match w
    case Klines(at, inputs) => WalkKeepsNothingAhead(p, venue, symbols, at, inputs, 0, now);
    case Books(tops) => StampsKeepNothingAhead(p.feed, tops, now);
    case Interest(samples) => StampsKeepNothingAhead(p.feed, Stamps(samples), now);
  }

  /** Over every run of klines, quotes and readings that had happened by `now`, no event is stamped ahead of it. */
  lemma {:induction false} RunsKeepNothingAhead(p: Poll, venue: Venue, symbols: seq<string>, wakes: seq<Wake>, now: int)
    requires NothingAhead(p.feed, now) && 0 <= now
    requires forall w | w in wakes :: WakeFits(w, symbols) && HonestWake(w, symbols, now)
    ensures NothingAhead(AfterWakes(p, venue, symbols, wakes).feed, now)
  {
    if wakes != [] {
      var n := |wakes| - 1;
      RunsKeepNothingAhead(p, venue, symbols, wakes[..n], now);
      assert wakes[n] in wakes;
      WakeKeepsNothingAhead(AfterWakes(p, venue, symbols, wakes[..n]), venue, symbols, wakes[n], now);
    }
  }

  /** ...from bootstrap on: the whole life of the process, as `Plane.Operate` runs it. */
  lemma TheProcessKeepsNothingAhead(symbols: seq<string>, input: BootstrapInput, venue: Venue, clock: Timeframe -> int, wakes: seq<Wake>, now: int)
    requires 0 <= now
    requires forall key | key in RepliesOf(input, venue) :: Honest(RepliesOf(input, venue)[key], now)
    requires forall w | w in wakes :: WakeFits(w, symbols) && HonestWake(w, symbols, now)
    ensures NothingAhead(AfterWakes(Poll(Booted(symbols, input, venue), StartCursor(clock), 0), venue, symbols, wakes).feed, now)
  {
    BootstrapKeepsNothingAhead(EMPTY, venue, Keys(symbols), RepliesOf(input, venue), 0, now);
    RunsKeepNothingAhead(Poll(Booted(symbols, input, venue), StartCursor(clock), 0), venue, symbols, wakes, now);
  }

  lemma {:induction false} BootstrapKeepsNothingAhead(f: Feed, venue: Venue, keys: seq<Key>, replies: Replies, loaded: nat, now: int)
    requires NothingAhead(f, now) && 0 <= now
    requires forall key | key in replies :: Honest(replies[key], now)
    ensures NothingAhead(LoadFrom(f, venue, keys, replies, loaded).0, now)
    decreases |keys|
  {
    if keys != [] {
      match ReplyFor(replies, keys[0])
      case Rows(rows) =>
        StoringKeepsNothingAhead(f, keys[0], Complete(rows), now);
        BootstrapKeepsNothingAhead(StoreRows(f, keys[0], Complete(rows)), venue, keys[1..], replies,
                                   loaded + |SaneOnly(Complete(rows))|, now);
      case Http(status, _, _) =>
        if !IsRateLimit(venue, status) { BootstrapKeepsNothingAhead(f, venue, keys[1..], replies, loaded, now); }
      case Failed => BootstrapKeepsNothingAhead(f, venue, keys[1..], replies, loaded, now);
    }
  }

  /**
   Why the last row must go: had a served answer been stored whole, its forming bar would
   set the symbol's newest event ahead of the clock, and a feed that then dies would read
   fresh at every moment until the budget after that bar's close.
   */
  lemma StoringTheFormingRowHidesADeadFeed(f: Feed, key: Key, rows: seq<Candle>, n: nat, boundary: int, now: int, maxAge: nat)
    requires Serves(rows, n, boundary, key.1.Millis()) && IsSane(rows[n])
    requires Window(f, key) == [] || Reach(Window(f, key)) <= boundary
    requires boundary <= now < boundary + key.1.Millis() - 1
    ensures var g := StoreRows(f, key, rows);
      && now < LastEvent(g, key.0)
      && forall later | later <= boundary + key.1.Millis() - 1 + maxAge ::
           !FeatureStore.IsStale(later, LastEvent(g, key.0), maxAge)
  {
    assert |rows| == n + 1;
    hide Serves, StoreRows, PushAllBounded, SaneOnly;
    ServedRowsHaveClosed(rows, n, boundary, key.1.Millis());
    StoredRowsArePushed(f, key, rows[..n]);
    PushesStayBelow(Window(f, key), SaneOnly(rows[..n]), boundary);
    LastRowIsStored(f, key, rows, n);
  }

  lemma LastRowIsStored(f: Feed, key: Key, rows: seq<Candle>, n: nat)
    requires |rows| == n + 1 && IsSane(rows[n])
    requires var w := Window(StoreRows(f, key, rows[..n]), key); w == [] || Last(w).closeTime <= rows[n].closeTime
    ensures rows[n].closeTime <= LastEvent(StoreRows(f, key, rows), key.0)
  {
  }

  lemma {:induction false} PushesStayBelow(w: seq<Candle>, rows: seq<Candle>, boundary: int)
    requires w == [] || Reach(w) <= boundary
    requires forall c | c in rows :: c.closeTime < boundary
    ensures PushAllBounded(w, rows) == [] || Reach(PushAllBounded(w, rows)) <= boundary
  {
    if rows != [] {
      assert rows[|rows| - 1] in rows;
      PushesStayBelow(w, rows[..|rows| - 1], boundary);
    }
  }

  // ---------------------------------------------------------------- what the log says

  /** A symbol's newest event covers its windows: no stored bar is newer. */
  predicate Covers(f: Feed, symbol: string)
  {
    forall tf | (symbol, tf) in f.windows && f.windows[(symbol, tf)] != [] ::
      Last(f.windows[(symbol, tf)]).closeTime <= LastEvent(f, symbol)
  }

  /** The newest event of a symbol is the maximum of everything logged for it. */
  lemma {:induction false} LastEventIsTheNewestLogged(log: seq<Entry>, symbol: string)
    ensures LastEvent(Replay(log), symbol) == FeatureStore.NewestEvent(EventsOf(log, symbol))
    ensures Covers(Replay(log), symbol)
  {
    if log != [] {
      var n := |log| - 1;
      LastEventIsTheNewestLogged(log[..n], symbol);
      var f, events := Replay(log[..n]), EventsOf(log[..n], symbol);
      match log[n]
      case Bar(_, key, c) =>
        FeatureStore.OneMoreEvent(events, c.closeTime);
        StoringCovers(f, key, c, symbol);
        assert events + [] == events;
      case Stamp(s, ts) =>
        FeatureStore.OneMoreEvent(events, ts);
        assert events + [] == events;
    }
  }

  lemma StoringCovers(f: Feed, key: Key, c: Candle, symbol: string)
    requires Covers(f, symbol)
    ensures Covers(StoreBar(f, key, c), symbol)
    ensures LastEvent(StoreBar(f, key, c), symbol) == if key.0 == symbol then Max(LastEvent(f, symbol), c.closeTime) else LastEvent(f, symbol)
  {
    var w := Window(f, key);
    assert PushBounded(w, c) != [];
    if key.0 == symbol && key in f.windows && w != [] {
      assert Last(f.windows[(symbol, key.1)]).closeTime <= LastEvent(f, symbol);
    }
  }

  /** Everything logged for the symbol had happened by `now`. */
  predicate Happened(log: seq<Entry>, symbol: string, now: int)
  {
    forall e | e in EventsOf(log, symbol) :: e <= now
  }

  /** Nothing logged for the symbol is young enough. */
  predicate OverAge(log: seq<Entry>, symbol: string, now: int, maxAge: nat)
  {
    forall e | e in EventsOf(log, symbol) :: now - e > maxAge
  }

  /** A symbol's newest event is not ahead of the clock exactly when everything logged for it had happened. */
  lemma NotAheadExactlyWhen(log: seq<Entry>, symbol: string, now: int)
    requires 0 <= now
    ensures LastEvent(Replay(log), symbol) <= now <==> Happened(log, symbol, now)
  {
    LastEventIsTheNewestLogged(log, symbol);
  }

  /** Nothing is ahead of the clock exactly when everything logged had happened. */
  lemma NothingAheadExactlyWhen(log: seq<Entry>, now: int)
    requires 0 <= now
    ensures NothingAhead(Replay(log), now) <==> forall s :: Happened(log, s, now)
  {
    hide Happened;
    var f := Replay(log);
    forall s ensures LastEvent(f, s) <= now <==> Happened(log, s, now) { NotAheadExactlyWhen(log, s, now); }
    assert forall s | s in f.lastEvents :: f.lastEvents[s] == LastEvent(f, s);
  }

  /** And a symbol reads stale exactly when everything logged for it is over age. */
  lemma StaleExactlyWhenOverAge(log: seq<Entry>, symbol: string, now: int, maxAge: nat)
    requires maxAge < now
    ensures FeatureStore.IsStale(now, LastEvent(Replay(log), symbol), maxAge) <==> OverAge(log, symbol, now, maxAge)
  {
    LastEventIsTheNewestLogged(log, symbol);
    FeatureStore.StaleMeansNothingYoungEnough(EventsOf(log, symbol), now, maxAge);
  }

  // ---------------------------------------------------------------- polling bars and the heartbeat

  lemma {:induction false} RowsRaiseTheHeartbeat(f: Feed, key: Key, rows: seq<Candle>, symbol: string)
    requires Covers(f, symbol)
    ensures var g := StoreRows(f, key, rows);
      && Covers(g, symbol)
      && LastEvent(f, symbol) <= LastEvent(g, symbol)
      && (LastEvent(g, symbol) == LastEvent(f, symbol)
          <==> key.0 != symbol || forall c | c in rows && IsSane(c) :: c.closeTime <= LastEvent(f, symbol))
  {
    if rows != [] {
      var n := |rows| - 1;
      RowsRaiseTheHeartbeat(f, key, rows[..n], symbol);
      assert rows == rows[..n] + [rows[n]];
      if IsSane(rows[n]) { StoringCovers(StoreRows(f, key, rows[..n]), key, rows[n], symbol); }
      hide Covers, StoreBar, IsSane;
    }
  }

  /** No row the reply would store is newer than `t`. */
  predicate NothingNewer(reply: Reply, t: int)
  {
    reply.Rows? ==> forall c | c in Complete(reply.rows) && IsSane(c) :: c.closeTime <= t
  }

  lemma {:induction false} RepliesRaiseTheHeartbeat(f: Feed, symbols: seq<string>, tf: Timeframe, replies: seq<Reply>, symbol: string)
    requires |replies| == |symbols| && Covers(f, symbol)
    ensures var g := AfterReplies(f, symbols, tf, replies);
      && Covers(g, symbol)
      && LastEvent(f, symbol) <= LastEvent(g, symbol)
      && (LastEvent(g, symbol) == LastEvent(f, symbol)
          <==> forall i | 0 <= i < |symbols| && symbols[i] == symbol :: NothingNewer(replies[i], LastEvent(f, symbol)))
  {
    if symbols != [] {
      var n := |symbols| - 1;
      RepliesRaiseTheHeartbeat(f, symbols[..n], tf, replies[..n], symbol);
      var g := AfterReplies(f, symbols[..n], tf, replies[..n]);
      if replies[n].Rows? { RowsRaiseTheHeartbeat(g, (symbols[n], tf), Complete(replies[n].rows), symbol); }
      hide Covers, StoreRows, Complete, IsSane;
    }
  }

  /**
   Polling closed bars does advance a symbol's newest event: in every state a log can leave, a
   round keeps it as it was exactly when no row it would store for the symbol is newer.
   */
  lemma ARoundKeepsTheHeartbeatExactlyWhen(log: seq<Entry>, p: Poll, venue: Venue, symbols: seq<string>, tf: Timeframe, now: int, input: RoundInput, symbol: string)
    requires p.feed == Replay(log) && |input.replies| == |symbols|
    ensures LastEvent(Round(p, venue, symbols, tf, now, input).feed, symbol) == LastEvent(p.feed, symbol)
      <==> forall i | 0 <= i < |symbols| && symbols[i] == symbol :: NothingNewer(input.replies[i], LastEvent(p.feed, symbol))
  {
    LastEventIsTheNewestLogged(log, symbol);
    RepliesRaiseTheHeartbeat(p.feed, symbols, tf, input.replies, symbol);
  }

  // ---------------------------------------------------------------- provenance

  /** Every bar a window shows was written by a logged answer; with one venue in the log, by that venue. */
  lemma {:induction false} EveryStoredBarWasServed(log: seq<Entry>, key: Key, c: Candle)
    requires c in Window(Replay(log), key)
    ensures exists i | 0 <= i < |log| :: log[i].Bar? && log[i].key == key && log[i].candle == c
  {
    var n := |log| - 1;
    var f := Replay(log[..n]);
    if c in Window(f, key) {
      EveryStoredBarWasServed(log[..n], key, c);
      var i :| 0 <= i < n && log[..n][i].Bar? && log[..n][i].key == key && log[..n][i].candle == c;
      assert log[i] == log[..n][i];
    } else {
      assert log[n].Bar? && log[n].key == key;
      var w, w' := Window(f, key), Window(Replay(log), key);
      var j :| 0 <= j < |w'| && w'[j] == c;
      assert w'[j] in w || w'[j] == log[n].candle;
    }
  }

  /** One bar for one symbol, polled into an empty store, becomes its newest event. */
  lemma APolledBarIsAHeartbeat()
    ensures var bar, forming := Candle(1.0, 1.0, 1.0, 1.0, 1.0, 299_999), Candle(1.0, 1.0, 1.0, 1.0, 1.0, 599_999);
      var p := Poll(EMPTY, map[M5 := 0], 0);
      var q := Round(p, Binance, ["BTC"], M5, 303_000, RoundInput([Rows([bar, forming])], 303_001));
      LastEvent(p.feed, "BTC") == 0 && LastEvent(q.feed, "BTC") == 299_999
  {
    var bar, forming := Candle(1.0, 1.0, 1.0, 1.0, 1.0, 299_999), Candle(1.0, 1.0, 1.0, 1.0, 1.0, 599_999);
    assert [bar, forming][..1] == [bar] && [bar][..0] == [];
    assert StoreRows(EMPTY, ("BTC", M5), [bar]) == StoreBar(EMPTY, ("BTC", M5), bar);
    assert ["BTC"][..0] == [] && [Rows([bar, forming])][..0] == [];
    assert AfterReplies(EMPTY, [], M5, []) == EMPTY;
  }
}
