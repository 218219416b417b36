/**
 The write log of the candle plane, and bootstrap with venue fallback as functions: what
 the loops in `Ingest` are proved against.
 */
module Bootstrap {
  import opened Wrappers
  import opened Bars
  import opened Feed

  /** One accepted write since the last clear. */
  datatype Entry = Bar(venue: Venue, key: Key, candle: Candle) | Stamp(symbol: string, ts: int)

  /** What a log of writes leaves in an empty store. */
  function Replay(log: seq<Entry>): Feed
  {
    if log == [] then EMPTY
    else
      var f := Replay(log[..|log| - 1]);
      match log[|log| - 1]
      case Bar(_, key, c) => StoreBar(f, key, c)
      case Stamp(symbol, ts) => StampEvent(f, symbol, ts)
  }

  /** The log entries of some bars stored for a key. */
  function Written(venue: Venue, key: Key, rows: seq<Candle>): seq<Entry>
  {
    seq(|rows|, i requires 0 <= i < |rows| => Bar(venue, key, rows[i]))
  }

  predicate OneVenue(log: seq<Entry>, v: Venue)
  {
    forall i | 0 <= i < |log| && log[i].Bar? :: log[i].venue == v
  }

  // ---------------------------------------------------------------- bootstrap as a function

  datatype Attempt = Loaded(bars: nat) | Banned(until: int)

  /** One reply per symbol and timeframe; what is absent failed. */
  type Replies = map<Key, Reply>

  function ReplyFor(replies: Replies, key: Key): Reply
  {
    if key in replies then replies[key] else Failed
  }

  /** Symbols in order, and for each the timeframes in order. */
  function Keys(symbols: seq<string>): (ks: seq<Key>)
    ensures |ks| == |symbols| * |TIMEFRAMES|
  {
    seq(|symbols| * |TIMEFRAMES|, i requires 0 <= i < |symbols| * |TIMEFRAMES| => (symbols[i / 4], TIMEFRAMES[i % 4]))
  }

  /** `bootstrap_from`: a rate limit aborts the attempt, any other failure skips the key. */
  function LoadFrom(f: Feed, venue: Venue, keys: seq<Key>, replies: Replies, loaded: nat): (Feed, Attempt)
    decreases |keys|
  {
    if keys == [] then (f, Loaded(loaded))
    else
      match ReplyFor(replies, keys[0])
      case Rows(rows) =>
        LoadFrom(StoreRows(f, keys[0], Complete(rows)), venue, keys[1..], replies, loaded + |SaneOnly(Complete(rows))|)
      case Http(status, expiry, at) =>
        if IsRateLimit(venue, status) then (f, Banned(BanAfter(status, expiry, at)))
        else LoadFrom(f, venue, keys[1..], replies, loaded)
      case Failed => LoadFrom(f, venue, keys[1..], replies, loaded)
  }

  /** One key of the walk. */
  lemma LoadNext(f: Feed, venue: Venue, keys: seq<Key>, k: nat, replies: Replies, loaded: nat)
    requires k < |keys|
    ensures var rest := LoadFrom(f, venue, keys[k..], replies, loaded);
      match ReplyFor(replies, keys[k])
      case Rows(rows) =>
        rest == LoadFrom(StoreRows(f, keys[k], Complete(rows)), venue, keys[k + 1..], replies,
                         loaded + |SaneOnly(Complete(rows))|)
      case Http(status, expiry, at) =>
        rest == if IsRateLimit(venue, status) then (f, Banned(BanAfter(status, expiry, at)))
                else LoadFrom(f, venue, keys[k + 1..], replies, loaded)
      case Failed => rest == LoadFrom(f, venue, keys[k + 1..], replies, loaded)
  {
    hide StoreRows, SaneOnly, Complete, BanAfter, IsRateLimit;
    assert keys[k..][0] == keys[k] && keys[k..][1..] == keys[k + 1..];
  }

  lemma LoadDone(f: Feed, venue: Venue, keys: seq<Key>, replies: Replies, loaded: nat)
    ensures LoadFrom(f, venue, keys[|keys|..], replies, loaded) == (f, Loaded(loaded))
    ensures keys[0..] == keys
  {
  }

  type BootstrapInput = map<Venue, Replies>

  function RepliesOf(input: BootstrapInput, v: Venue): Replies
  {
    if v in input then input[v] else map[]
  }

  /** The venue loads at least one bar into a cleared store without being rate limited. */
  predicate Serving(symbols: seq<string>, input: BootstrapInput, v: Venue)
  {
    var attempt := LoadFrom(EMPTY, v, Keys(symbols), RepliesOf(input, v), 0).1;
    attempt.Loaded? && attempt.bars > 0
  }

  /** The first venue of the fallback order that serves. */
  function Chosen(symbols: seq<string>, input: BootstrapInput): (r: Option<Venue>)
    ensures r.Some? ==> Serving(symbols, input, r.value)
    ensures r.Some? ==> forall i | 0 <= i < |FALLBACK_ORDER| && FALLBACK_ORDER[i] != r.value &&
      (forall j | 0 <= j <= i :: FALLBACK_ORDER[j] != r.value) :: !Serving(symbols, input, FALLBACK_ORDER[i])
    ensures r.None? ==> forall v | v in FALLBACK_ORDER :: !Serving(symbols, input, v)
  {
    if Serving(symbols, input, FALLBACK_ORDER[0]) then Some(FALLBACK_ORDER[0])
    else if Serving(symbols, input, FALLBACK_ORDER[1]) then Some(FALLBACK_ORDER[1])
    else None
  }

  /** Until when to wait when no venue serves: what the first rate-limited attempt asked for. */
  function FirstBan(symbols: seq<string>, input: BootstrapInput, i: nat): Option<int>
    requires i <= |FALLBACK_ORDER|
    decreases |FALLBACK_ORDER| - i
  {
    if i == |FALLBACK_ORDER| then None
    else
      var attempt := LoadFrom(EMPTY, FALLBACK_ORDER[i], Keys(symbols), RepliesOf(input, FALLBACK_ORDER[i]), 0).1;
      if attempt.Banned? then Some(attempt.until) else FirstBan(symbols, input, i + 1)
  }

  /** The first bootstrap attempt any venue serves. */
  function FirstServed(symbols: seq<string>, attempts: seq<BootstrapInput>): (r: Option<nat>)
    ensures r.Some? ==> r.value < |attempts| && Chosen(symbols, attempts[r.value]).Some?
    ensures r.Some? ==> forall j | 0 <= j < r.value :: Chosen(symbols, attempts[j]).None?
    ensures r.None? ==> forall j | 0 <= j < |attempts| :: Chosen(symbols, attempts[j]).None?
  {
    if attempts == [] then None
    else
      var n := |attempts| - 1;
      var before := FirstServed(symbols, attempts[..n]);
      if before.Some? then before else if Chosen(symbols, attempts[n]).Some? then Some(n) else None
  }

  /** The feed a venue leaves in a cleared store. */
  function Booted(symbols: seq<string>, input: BootstrapInput, v: Venue): Feed
  {
    LoadFrom(EMPTY, v, Keys(symbols), RepliesOf(input, v), 0).0
  }

  /** The poller starts at the newest settled boundary of each timeframe; the clock is read once for each. */
  function StartCursor(clock: Timeframe -> int): map<Timeframe, int>
  {
    map tf | tf in TIMEFRAMES :: Boundary(tf, clock(tf))
  }

  /** The event times of one symbol in a log, oldest first. */
  function EventsOf(log: seq<Entry>, symbol: string): seq<int>
  {
    if log == [] then []
    else
      var e := log[|log| - 1];
      EventsOf(log[..|log| - 1], symbol)
      + match e
        case Bar(_, key, c) => if key.0 == symbol then [c.closeTime] else []
        case Stamp(s, ts) => if s == symbol then [ts] else []
  }
}
