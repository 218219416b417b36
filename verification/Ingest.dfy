/**
 The ingest loops over the shared store: bootstrap with venue fallback, the retry loop that
 chooses the process's venue, and the boundary-driven kline poller that stays on it.
 */
module Ingest {
  import opened Wrappers
  import opened Bars
  import opened Feed
  import opened Bootstrap
  import FeatureStore
  import Freshness

  class Plane {
    const symbols: seq<string>
    var feed: Feed
    var cursor: map<Timeframe, int>
    var bannedUntil: int

    ghost var log: seq<Entry>   // every accepted write since the last clear

    ghost predicate Valid()
      reads this
    {
      && feed == Replay(log)
      && (forall key | key in feed.windows :: key.0 in symbols)
      && (forall s | s in feed.lastEvents :: s in symbols)
    }

    function State(): Poll
      reads this
    {
      Poll(feed, cursor, bannedUntil)
    }

    constructor (symbols: seq<string>)
      ensures Valid() && this.symbols == symbols && feed == EMPTY && log == []
    {
      this.symbols := symbols;
      feed, log := EMPTY, [];
      cursor, bannedUntil := map[], 0;
    }

    /** Drop every symbol's candles and freshness before a venue is tried. */
    method ClearAll()
      requires Valid()
      modifies this
      ensures Valid() && feed == EMPTY && log == []
      ensures cursor == old(cursor) && bannedUntil == old(bannedUntil)
    {
      for i := 0 to |symbols|
        invariant forall key | key in feed.windows :: key.0 in symbols && key.0 !in symbols[..i]
        invariant forall s | s in feed.lastEvents :: s in symbols && s !in symbols[..i]
        invariant cursor == old(cursor) && bannedUntil == old(bannedUntil)
      {
        var gone := symbols[i];
        feed := Feed(map key | key in feed.windows && key.0 != gone :: feed.windows[key], feed.lastEvents - {gone});
      }
      assert symbols[..|symbols|] == symbols;
      assert feed.windows == map[] && feed.lastEvents == map[];
      log := [];
    }

    /** Store the sane rows of one answer, in order; returns how many there were. */
    method StoreAnswer(venue: Venue, key: Key, rows: seq<Candle>) returns (stored: nat)
      requires Valid() && key.0 in symbols
      modifies this
      ensures Valid()
      ensures feed == StoreRows(old(feed), key, rows) && stored == |SaneOnly(rows)|
      ensures log == old(log) + Written(venue, key, SaneOnly(rows))
      ensures OneVenue(old(log), venue) ==> OneVenue(log, venue)
      ensures cursor == old(cursor) && bannedUntil == old(bannedUntil)
    {
      hide Replay, StoreRows, StoreBar, SaneOnly, IsSane, OneVenue, Written;
      stored := 0;
      NothingWritten(feed, venue, key);
      for i := 0 to |rows|
        invariant Valid()
        invariant feed == StoreRows(old(feed), key, rows[..i]) && stored == |SaneOnly(rows[..i])|
        invariant log == old(log) + Written(venue, key, SaneOnly(rows[..i]))
        invariant cursor == old(cursor) && bannedUntil == old(bannedUntil)
      {
        NextWritten(old(feed), old(log), venue, key, rows, i);
        if IsSane(rows[i]) {
          StoreOne(venue, key, rows[i]);
          stored := stored + 1;
        }
      }
      assert rows[..|rows|] == rows;
      WritingKeepsTheVenue(old(log), venue, key, SaneOnly(rows));
    }

    /** `push_candle`, logged. */
    method StoreOne(venue: Venue, key: Key, c: Candle)
      requires Valid() && key.0 in symbols
      modifies this`feed, this`log
      ensures Valid() && feed == StoreBar(old(feed), key, c) && log == old(log) + [Bar(venue, key, c)]
    {
      assert (log + [Bar(venue, key, c)])[..|log|] == log;
      feed, log := StoreBar(feed, key, c), log + [Bar(venue, key, c)];
    }

    /** One venue's attempt into a cleared store. */
    method BootstrapFrom(venue: Venue, replies: Replies) returns (attempt: Attempt)
      requires Valid() && OneVenue(log, venue)
      modifies this
      ensures Valid() && OneVenue(log, venue)
      ensures (feed, attempt) == LoadFrom(old(feed), venue, Keys(symbols), replies, 0)
      ensures cursor == old(cursor) && bannedUntil == old(bannedUntil)
    {
      hide LoadFrom, Replay, StoreRows, SaneOnly, Complete, BanAfter;
      var loaded := 0;
      ghost var keys := Keys(symbols);
      LoadDone(feed, venue, keys, replies, loaded);
      for i := 0 to |symbols|
        invariant Valid() && OneVenue(log, venue)
        invariant LoadFrom(feed, venue, keys[i * 4..], replies, loaded) == LoadFrom(old(feed), venue, keys, replies, 0)
        invariant cursor == old(cursor) && bannedUntil == old(bannedUntil)
      {
        for j := 0 to |TIMEFRAMES|
          invariant Valid() && OneVenue(log, venue)
          invariant LoadFrom(feed, venue, keys[i * 4 + j..], replies, loaded) == LoadFrom(old(feed), venue, keys, replies, 0)
          invariant cursor == old(cursor) && bannedUntil == old(bannedUntil)
        {
          var key := (symbols[i], TIMEFRAMES[j]);
          assert keys[i * 4 + j] == key;
          LoadNext(feed, venue, keys, i * 4 + j, replies, loaded);
          match ReplyFor(replies, key)
          case Rows(rows) =>
            var stored := StoreAnswer(venue, key, Complete(rows));
            loaded := loaded + stored;
          case Http(status, expiry, at) =>
            if IsRateLimit(venue, status) {
              return Banned(BanAfter(status, expiry, at));
            }
          case Failed =>
        }
      }
      LoadDone(feed, venue, keys, replies, loaded);
      attempt := Loaded(loaded);
    }

    /** `bootstrap_history`: each venue starts from a cleared store; the first that loads a bar wins. */
    method BootstrapHistory(input: BootstrapInput)
      returns (loaded: nat, firstBan: Option<int>, venue: Option<Venue>)
      requires Valid()
      modifies this
      ensures Valid()
      ensures venue == Chosen(symbols, input) && (loaded > 0 <==> venue.Some?)
      ensures firstBan == if venue.Some? then None else FirstBan(symbols, input, 0)
      ensures venue.Some? ==> OneVenue(log, venue.value) && feed == Booted(symbols, input, venue.value)
      ensures exists v :: OneVenue(log, v)
      ensures cursor == old(cursor) && bannedUntil == old(bannedUntil)
    {
      hide LoadFrom, Replay, OneVenue;
      firstBan := None;
      for i := 0 to |FALLBACK_ORDER|
        invariant Valid()
        invariant forall j | 0 <= j < i :: !Serving(symbols, input, FALLBACK_ORDER[j])
        invariant FirstBan(symbols, input, 0) == if firstBan.Some? then firstBan else FirstBan(symbols, input, i)
        invariant i > 0 ==> OneVenue(log, FALLBACK_ORDER[i - 1])
        invariant cursor == old(cursor) && bannedUntil == old(bannedUntil)
      {
        var v := FALLBACK_ORDER[i];
        ClearAll();
        EmptyLog(v);
        var attempt := BootstrapFrom(v, RepliesOf(input, v));
        match attempt
        case Loaded(n) =>
          if n > 0 {
            return n, None, Some(v);
          }
        case Banned(until) =>
          firstBan := if firstBan.None? then Some(until) else firstBan;
      }
      return 0, firstBan, None;
    }

    /** The process retries until a venue has loaded something; that venue owns its history. */
    method ChooseVenue(attempts: seq<BootstrapInput>) returns (venue: Option<Venue>)
      requires Valid()
      modifies this
      ensures Valid()
      ensures var first := FirstServed(symbols, attempts);
        if first.None? then venue.None?
        else venue == Chosen(symbols, attempts[first.value])
             && OneVenue(log, venue.value) && feed == Booted(symbols, attempts[first.value], venue.value)
    {
      hide LoadFrom, Chosen, OneVenue, Booted;
      for i := 0 to |attempts|
        invariant Valid()
        invariant forall j | 0 <= j < i :: Chosen(symbols, attempts[j]).None?
      {
        var loaded, ban, v := BootstrapHistory(attempts[i]);
        if loaded > 0 {
          return v;
        }
      }
      return None;
    }

    // -------------------------------------------------------------- the kline poller

    /** The first fetch of each timeframe happens at its next boundary. */
    method StartPolling(clock: Timeframe -> int)
      requires Valid()
      modifies this
      ensures Valid() && feed == old(feed) && log == old(log)
      ensures cursor == StartCursor(clock) && bannedUntil == 0
    {
      cursor, bannedUntil := map[], 0;
      for i := 0 to |TIMEFRAMES|
        invariant Valid() && feed == old(feed) && log == old(log) && bannedUntil == 0
        invariant cursor.Keys == set j | 0 <= j < i :: TIMEFRAMES[j]
        invariant forall tf | tf in cursor :: cursor[tf] == Boundary(tf, clock(tf))
      {
        var tf := TIMEFRAMES[i];
        cursor := cursor[tf := Boundary(tf, clock(tf))];
      }
    }

    /** One due timeframe: every symbol is asked, even after one of them reported a ban. */
    method PollTimeframe(venue: Venue, tf: Timeframe, now: int, input: RoundInput) returns (banned: bool)
      requires Valid() && |input.replies| == |symbols| && Due(State(), tf, now)
      modifies this
      ensures Valid()
      ensures State() == Round(old(State()), venue, symbols, tf, now, input)
      ensures banned <==> !Commits(old(State()), venue, input)
      ensures OneVenue(old(log), venue) ==> OneVenue(log, venue)
    {
      hide Replay, OneVenue, StoreRows, SaneOnly, Complete, BanAfter, IsRateLimit, Boundary, AfterReplies, BanAfterReplies, Written;
      NoReplies(feed, tf, bannedUntil, venue);
      for i := 0 to |symbols|
        invariant Valid()
        invariant feed == AfterReplies(old(feed), symbols[..i], tf, input.replies[..i])
        invariant bannedUntil == BanAfterReplies(old(bannedUntil), venue, input.replies[..i])
        invariant OneVenue(old(log), venue) ==> OneVenue(log, venue)
        invariant cursor == old(cursor)
      {
        OneMoreReply(old(feed), symbols, tf, input.replies, old(bannedUntil), venue, i);
        match input.replies[i]
        case Rows(rows) =>
          var _ := StoreAnswer(venue, (symbols[i], tf), Complete(rows));
        case Http(status, expiry, at) =>
          if IsRateLimit(venue, status) {
            bannedUntil := BanAfter(status, expiry, at);
          }
        case Failed =>
      }
      assert symbols[..|symbols|] == symbols && input.replies[..|symbols|] == input.replies;
      banned := input.clock < bannedUntil;
      if !banned {
        cursor := cursor[tf := Boundary(tf, now)];
      }
    }

    /** One wake-up of the poller. */
    method PollOnce(venue: Venue, now: int, inputs: TickInput)
      requires Valid() && Fits(inputs, symbols)
      modifies this
      ensures Valid()
      ensures State() == Tick(old(State()), venue, symbols, now, inputs)
      ensures OneVenue(old(log), venue) ==> OneVenue(log, venue)
    {
      if now < bannedUntil {
        return;
      }
      for i := 0 to |TIMEFRAMES|
        invariant Valid()
        invariant Walk(State(), venue, symbols, now, inputs, i) == Walk(old(State()), venue, symbols, now, inputs, 0)
        invariant OneVenue(old(log), venue) ==> OneVenue(log, venue)
      {
        var tf := TIMEFRAMES[i];
        if Due(State(), tf, now) {
          var banned := PollTimeframe(venue, tf, now, inputs[tf]);
          if banned {
            return;
          }
        }
      }
    }

    /** The book poller's heartbeat, or the open-interest poller's readings: one stamp each. */
    method StampEvents(stamps: seq<(string, int)>)
      requires Valid() && forall t | t in stamps :: t.0 in symbols
      modifies this
      ensures Valid() && feed == StampAll(old(feed), stamps)
      ensures forall v | OneVenue(old(log), v) :: OneVenue(log, v)
      ensures cursor == old(cursor) && bannedUntil == old(bannedUntil)
    {
      for i := 0 to |stamps|
        invariant Valid() && feed == StampAll(old(feed), stamps[..i])
        invariant forall v | OneVenue(old(log), v) :: OneVenue(log, v)
        invariant cursor == old(cursor) && bannedUntil == old(bannedUntil)
      {
        assert stamps[..i + 1][..i] == stamps[..i];
        feed := StampEvent(feed, stamps[i].0, stamps[i].1);
        assert (log + [Stamp(stamps[i].0, stamps[i].1)])[..|log|] == log;
        log := log + [Stamp(stamps[i].0, stamps[i].1)];
      }
      assert stamps[..|stamps|] == stamps;
    }

    /** One wake-up of whichever poller. */
    method HandleWake(venue: Venue, w: Wake)
      requires Valid() && WakeFits(w, symbols) && SymbolsKnown(w, symbols)
      modifies this
      ensures Valid() && State() == AfterWake(old(State()), venue, symbols, w)
      ensures OneVenue(old(log), venue) ==> OneVenue(log, venue)
    {
      hide Replay, OneVenue, Tick;
      match w
      case Klines(now, inputs) => PollOnce(venue, now, inputs);
      case Books(tops) => StampEvents(tops);
      case Interest(samples) =>
        StampsAreSamples(samples);
        StampEvents(Stamps(samples));
    }

    /**
     The life of the process: retry until a venue serves, then poll and stamp with that
     venue for good. Whatever the replies, every stored bar came from the venue returned,
     the state is the one the run functions give, and a symbol reads stale exactly when
     everything logged for it is over age.
     */
    method Operate(attempts: seq<BootstrapInput>, clock: Timeframe -> int, wakes: seq<Wake>) returns (venue: Option<Venue>)
      requires Valid()
      requires forall w | w in wakes :: WakeFits(w, symbols) && SymbolsKnown(w, symbols)
      modifies this
      ensures Valid()
      ensures var first := FirstServed(symbols, attempts);
        if first.None? then venue.None?
        else venue == Chosen(symbols, attempts[first.value]) && OneVenue(log, venue.value)
             && State() == AfterWakes(Poll(Booted(symbols, attempts[first.value], venue.value), StartCursor(clock), 0),
                                      venue.value, symbols, wakes)
      ensures forall s, now, maxAge: nat | maxAge < now ::
        FeatureStore.IsStale(now, LastEvent(feed, s), maxAge) <==> Freshness.OverAge(log, s, now, maxAge)
    {
      hide Replay, OneVenue, Booted, Chosen, Tick, AfterWake, FeatureStore.IsStale, Freshness.OverAge;
      venue := ChooseVenue(attempts);
      if venue.Some? {
        StartPolling(clock);
        ghost var start := State();
        for i := 0 to |wakes|
          invariant Valid() && OneVenue(log, venue.value)
          invariant State() == AfterWakes(start, venue.value, symbols, wakes[..i])
        {
          assert wakes[i] in wakes && wakes[..i + 1][..i] == wakes[..i];
          HandleWake(venue.value, wakes[i]);
        }
        assert wakes[..|wakes|] == wakes;
      }
      forall s, now, maxAge: nat | maxAge < now
        ensures FeatureStore.IsStale(now, LastEvent(feed, s), maxAge) <==> Freshness.OverAge(log, s, now, maxAge)
      {
        Freshness.StaleExactlyWhenOverAge(log, s, now, maxAge);
      }
    }
  }

  lemma NoReplies(f: Feed, tf: Timeframe, ban: int, venue: Venue)
    ensures AfterReplies(f, [], tf, []) == f && BanAfterReplies(ban, venue, []) == ban
  {
  }

  lemma OneMoreReply(f: Feed, symbols: seq<string>, tf: Timeframe, replies: seq<Reply>, ban: int, venue: Venue, i: nat)
    requires i < |symbols| == |replies|
    ensures AfterReplies(f, symbols[..i + 1], tf, replies[..i + 1]) == AfterReply(AfterReplies(f, symbols[..i], tf, replies[..i]), (symbols[i], tf), replies[i])
    ensures BanAfterReplies(ban, venue, replies[..i + 1]) == BanAfterReply(BanAfterReplies(ban, venue, replies[..i]), venue, replies[i])
  {
    assert symbols[..i + 1][..i] == symbols[..i] && replies[..i + 1][..i] == replies[..i];
    hide AfterReply, BanAfterReply;
  }

  lemma NothingWritten(f: Feed, venue: Venue, key: Key)
    ensures StoreRows(f, key, []) == f && SaneOnly([]) == [] && Written(venue, key, []) == []
  {
  }

  lemma NextWritten(f: Feed, log: seq<Entry>, venue: Venue, key: Key, rows: seq<Candle>, i: nat)
    requires i < |rows|
    ensures StoreRows(f, key, rows[..i + 1]) == if IsSane(rows[i]) then StoreBar(StoreRows(f, key, rows[..i]), key, rows[i]) else StoreRows(f, key, rows[..i])
    ensures SaneOnly(rows[..i + 1]) == if IsSane(rows[i]) then SaneOnly(rows[..i]) + [rows[i]] else SaneOnly(rows[..i])
    ensures var before := log + Written(venue, key, SaneOnly(rows[..i]));
      log + Written(venue, key, SaneOnly(rows[..i + 1])) == if IsSane(rows[i]) then before + [Bar(venue, key, rows[i])] else before
    ensures rows[..0] == []
  {
    assert rows[..i + 1][..i] == rows[..i];
    hide StoreBar, IsSane;
    var sane := SaneOnly(rows[..i]);
    assert Written(venue, key, sane + [rows[i]]) == Written(venue, key, sane) + [Bar(venue, key, rows[i])];
  }

  lemma WritingKeepsTheVenue(log: seq<Entry>, venue: Venue, key: Key, rows: seq<Candle>)
    ensures OneVenue(log, venue) ==> OneVenue(log + Written(venue, key, rows), venue)
  {
  }

  predicate SymbolsKnown(w: Wake, symbols: seq<string>)
  {
    && (w.Books? ==> forall t | t in w.tops :: t.0 in symbols)
    && (w.Interest? ==> forall t | t in w.samples :: t.0 in symbols)
  }

  lemma {:induction false} StampsAreSamples(samples: seq<(string, int, real)>)
    ensures forall t | t in Stamps(samples) :: exists x | x in samples :: x.0 == t.0
  {
    if samples != [] {
      var most := samples[..|samples| - 1];
      StampsAreSamples(most);
      assert forall x | x in most :: x in samples;
    }
  }

  lemma EmptyLog(v: Venue)
    ensures OneVenue([], v)
  {
  }
}
