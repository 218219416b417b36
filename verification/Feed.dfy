/**
 The candle side of the shared store, what a reply does to it, and one whole tick of the
 kline poller as a function. The classes in `Ingest` are proved against these functions.
 */
module Feed {
  import opened Wrappers
  import opened Bars
  import opened Ring

  type Key = (string, Timeframe)

  /** Candle windows and newest event times; what is absent is empty, or zero. */
  datatype Feed = Feed(windows: map<Key, seq<Candle>>, lastEvents: map<string, int>)

  const EMPTY := Feed(map[], map[])

  function Window(f: Feed, key: Key): seq<Candle>
  {
    if key in f.windows then f.windows[key] else []
  }

  function LastEvent(f: Feed, symbol: string): int
  {
    if symbol in f.lastEvents then f.lastEvents[symbol] else 0
  }

  /** `push_candle`: a bar older than the newest stored one changes nothing. */
  function StoreBar(f: Feed, key: Key, c: Candle): Feed
  {
    var w := Window(f, key);
    if w != [] && Last(w).closeTime > c.closeTime then f
    else Feed(f.windows[key := PushBounded(w, c)], f.lastEvents[key.0 := Max(LastEvent(f, key.0), c.closeTime)])
  }

  /** An event without a bar: a quote or an open-interest sample. */
  function StampEvent(f: Feed, symbol: string, ts: int): Feed
  {
    f.(lastEvents := f.lastEvents[symbol := Max(LastEvent(f, symbol), ts)])
  }

  /** Sane rows are stored in the order they came; the others are skipped. */
  function StoreRows(f: Feed, key: Key, rows: seq<Candle>): Feed
  {
    if rows == [] then f
    else
      var g := StoreRows(f, key, rows[..|rows| - 1]);
      if IsSane(rows[|rows| - 1]) then StoreBar(g, key, rows[|rows| - 1]) else g
  }

  /** All rows but the last: the venue appends the bar still forming. */
  function Complete(rows: seq<Candle>): seq<Candle>
  {
    if rows == [] then [] else rows[..|rows| - 1]
  }

  function SaneOnly(rows: seq<Candle>): (r: seq<Candle>)
    ensures (forall c | c in rows :: IsSane(c)) ==> r == rows
    ensures forall c | c in r :: c in rows && IsSane(c)
  {
    if rows == [] then []
    else
      var n := |rows| - 1;
      assert rows == rows[..n] + [rows[n]];
      if IsSane(rows[n]) then SaneOnly(rows[..n]) + [rows[n]] else SaneOnly(rows[..n])
  }

  lemma {:induction false} StoredRowsArePushed(f: Feed, key: Key, rows: seq<Candle>)
    ensures Window(StoreRows(f, key, rows), key) == PushAllBounded(Window(f, key), SaneOnly(rows))
    ensures forall other | other != key :: Window(StoreRows(f, key, rows), other) == Window(f, other)
  {
    if rows != [] {
      var n := |rows| - 1;
      StoredRowsArePushed(f, key, rows[..n]);
      if IsSane(rows[n]) {
        var kept := SaneOnly(rows[..n]) + [rows[n]];
        assert kept[..|kept| - 1] == SaneOnly(rows[..n]);
      }
    }
  }

  // ---------------------------------------------------------------- replies

  datatype Reply =
    | Rows(rows: seq<Candle>)                            // parsed, oldest first
    | Http(status: int, expiry: Option<int>, at: int)    // an error status, read at this time
    | Failed                                             // transport failure or unparseable body

  function AfterReply(f: Feed, key: Key, reply: Reply): Feed
  {
    if reply.Rows? then StoreRows(f, key, Complete(reply.rows)) else f
  }

  function BanAfterReply(ban: int, venue: Venue, reply: Reply): int
  {
    if reply.Http? && IsRateLimit(venue, reply.status) then BanAfter(reply.status, reply.expiry, reply.at) else ban
  }

  function AfterReplies(f: Feed, symbols: seq<string>, tf: Timeframe, replies: seq<Reply>): Feed
    requires |replies| == |symbols|
  {
    if symbols == [] then f
    else
      var n := |symbols| - 1;
      AfterReply(AfterReplies(f, symbols[..n], tf, replies[..n]), (symbols[n], tf), replies[n])
  }

  /** The LAST rate-limit reply of the round decides the ban. */
  function BanAfterReplies(ban: int, venue: Venue, replies: seq<Reply>): int
  {
    if replies == [] then ban
    else BanAfterReply(BanAfterReplies(ban, venue, replies[..|replies| - 1]), venue, replies[|replies| - 1])
  }

  // ---------------------------------------------------------------- one round, one tick

  /** Rows one request may recover. */
  const MAX_MISSED := 99

  datatype Poll = Poll(feed: Feed, cursor: map<Timeframe, int>, bannedUntil: int)

  /** What one round over the symbols meets: a reply each, and the clock when it is over. */
  datatype RoundInput = RoundInput(replies: seq<Reply>, clock: int)

  function Boundary(tf: Timeframe, now: int): int
  {
    LatestClosedBoundary(now, tf.Millis(), KLINE_SETTLE_MS)
  }

  predicate Due(p: Poll, tf: Timeframe, now: int)
  {
    tf in p.cursor && p.cursor[tf] < Boundary(tf, now)
  }

  function Missed(p: Poll, tf: Timeframe, now: int): (n: nat)
    requires Due(p, tf, now)
    ensures 1 <= n <= MAX_MISSED
  {
    var bars := TruncDiv(Boundary(tf, now) - p.cursor[tf], tf.Millis());
    if bars < 1 then 1 else if bars > MAX_MISSED then MAX_MISSED else bars
  }

  predicate Commits(p: Poll, venue: Venue, input: RoundInput)
  {
    BanAfterReplies(p.bannedUntil, venue, input.replies) <= input.clock
  }

  /** One due timeframe: the cursor moves unless a ban outlasts the round. */
  function Round(p: Poll, venue: Venue, symbols: seq<string>, tf: Timeframe, now: int, input: RoundInput): Poll
    requires |input.replies| == |symbols|
  {
    Poll(AfterReplies(p.feed, symbols, tf, input.replies),
         if Commits(p, venue, input) then p.cursor[tf := Boundary(tf, now)] else p.cursor,
         BanAfterReplies(p.bannedUntil, venue, input.replies))
  }

  type TickInput = map<Timeframe, RoundInput>

  predicate Fits(inputs: TickInput, symbols: seq<string>)
  {
    forall tf | tf in TIMEFRAMES :: tf in inputs && |inputs[tf].replies| == |symbols|
  }

  /** The timeframes from position `i` on; a ban stops the walk. */
  function Walk(p: Poll, venue: Venue, symbols: seq<string>, now: int, inputs: TickInput, i: nat): Poll
    requires i <= |TIMEFRAMES| && Fits(inputs, symbols)
    decreases |TIMEFRAMES| - i
  {
    if i == |TIMEFRAMES| then p
    else
      var tf := TIMEFRAMES[i];
      if !Due(p, tf, now) then Walk(p, venue, symbols, now, inputs, i + 1)
      else
        var q := Round(p, venue, symbols, tf, now, inputs[tf]);
        if Commits(p, venue, inputs[tf]) then Walk(q, venue, symbols, now, inputs, i + 1) else q
  }

  function Tick(p: Poll, venue: Venue, symbols: seq<string>, now: int, inputs: TickInput): Poll
    requires Fits(inputs, symbols)
  {
    if now < p.bannedUntil then p else Walk(p, venue, symbols, now, inputs, 0)
  }

  // ---------------------------------------------------------------- everything that wakes the plane

  datatype Wake =
    | Klines(now: int, inputs: TickInput)              // the kline poller
    | Books(tops: seq<(string, int)>)                  // quotes with their stamps
    | Interest(samples: seq<(string, int, real)>)      // open-interest readings with theirs

  predicate WakeFits(w: Wake, symbols: seq<string>)
  {
    w.Klines? ==> Fits(w.inputs, symbols)
  }

  /** One stamp per quoted symbol, in order. */
  function StampAll(f: Feed, stamps: seq<(string, int)>): Feed
  {
    if stamps == [] then f
    else StampEvent(StampAll(f, stamps[..|stamps| - 1]), stamps[|stamps| - 1].0, stamps[|stamps| - 1].1)
  }

  /** The readings that are stored: a negative one is dropped. */
  function Stamps(samples: seq<(string, int, real)>): seq<(string, int)>
  {
    if samples == [] then []
    else
      var last := samples[|samples| - 1];
      Stamps(samples[..|samples| - 1]) + if last.2 < 0.0 then [] else [(last.0, last.1)]
  }

  function AfterWake(p: Poll, venue: Venue, symbols: seq<string>, w: Wake): Poll
    requires WakeFits(w, symbols)
  {
    match w
    case Klines(now, inputs) => Tick(p, venue, symbols, now, inputs)
    case Books(tops) => p.(feed := StampAll(p.feed, tops))
    case Interest(samples) => p.(feed := StampAll(p.feed, Stamps(samples)))
  }

  function AfterWakes(p: Poll, venue: Venue, symbols: seq<string>, wakes: seq<Wake>): Poll
    requires forall w | w in wakes :: WakeFits(w, symbols)
  {
    if wakes == [] then p
    else
      var n := |wakes| - 1;
      AfterWake(AfterWakes(p, venue, symbols, wakes[..n]), venue, symbols, wakes[n])
  }

  lemma {:induction false} StampsTouchNoWindow(f: Feed, stamps: seq<(string, int)>)
    ensures StampAll(f, stamps).windows == f.windows
  {
    if stamps != [] { StampsTouchNoWindow(f, stamps[..|stamps| - 1]); }
  }

  /**
   After any stamps a symbol's newest event is the maximum of what it was and the symbol's
   stamps: at least each of them, and one of them.
   */
  lemma {:induction false} StampsRaiseTheNewest(f: Feed, stamps: seq<(string, int)>, symbol: string)
    ensures var newest := LastEvent(StampAll(f, stamps), symbol);
      && LastEvent(f, symbol) <= newest
      && (forall t | t in stamps && t.0 == symbol :: t.1 <= newest)
      && (newest == LastEvent(f, symbol) || (symbol, newest) in stamps)
  {
    if stamps != [] {
      var n := |stamps| - 1;
      StampsRaiseTheNewest(f, stamps[..n], symbol);
      assert stamps == stamps[..n] + [stamps[n]];
    }
  }
}
