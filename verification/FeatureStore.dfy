/**
 Rolling state of one symbol: candle windows, the open-interest ring, the book, and the
 newest event time every staleness check keys off. Ghost fields keep the unbounded
 histories the bounded ones stand for.
 */
module FeatureStore {
  import opened Wrappers
  import opened Bars
  import opened Ring
  import Feed

  /** Open-interest samples retained. */
  const OI_HISTORY: nat := 128

  const HOUR_MS := 3_600_000

  datatype BookTop = BookTop(bid: real, ask: real, bidQty: real, askQty: real, ts: int)

  datatype PerpState = PerpState(fundingRate: real, openInterest: real, openInterest1hAgo: Option<real>, ts: int)
  {
    /** Fractional change in open interest over the last hour. */
    function OiDelta1h(): real
    {
      if openInterest1hAgo.Some? && openInterest1hAgo.value > 0.0
      then (openInterest - openInterest1hAgo.value) / openInterest1hAgo.value
      else 0.0
    }
  }

  datatype Sample = Sample(ts: int, value: real)

  // ---------------------------------------------------------------- the one-hour reference

  /** Where the newest sample at or before the cutoff is, searching from the newest. */
  function NewestIndex(samples: seq<Sample>, cutoff: int): (r: Option<nat>)
    ensures r.None? <==> forall i | 0 <= i < |samples| :: cutoff < samples[i].ts
    ensures r.Some? ==> r.value < |samples| && samples[r.value].ts <= cutoff
    ensures r.Some? ==> forall j | r.value < j < |samples| :: cutoff < samples[j].ts
  {
    if samples == [] then None
    else if samples[|samples| - 1].ts <= cutoff then Some(|samples| - 1)
    else NewestIndex(samples[..|samples| - 1], cutoff)
  }

  function NewestAtOrBefore(samples: seq<Sample>, cutoff: int): Option<real>
  {
    var i := NewestIndex(samples, cutoff);
    if i.None? then None else Some(samples[i.value].value)
  }

  predicate InTimeOrder(samples: seq<Sample>)
  {
    forall i, j | 0 <= i <= j < |samples| :: samples[i].ts <= samples[j].ts
  }

  lemma SuffixAnswersFirst(samples: seq<Sample>, from: nat, cutoff: int)
    requires from <= |samples|
    ensures NewestIndex(samples[from..], cutoff).Some? ==>
      NewestIndex(samples, cutoff) == Some(NewestIndex(samples[from..], cutoff).value + from)
  {
  }

  /**
   The ring answers like the unbounded history exactly when nothing has been evicted, or
   its oldest sample is old enough, or not even the first sample ever was.
   */
  lemma RingAnswersLikeTheHistory(samples: seq<Sample>, cutoff: int)
    requires InTimeOrder(samples)
    ensures NewestAtOrBefore(Newest(samples, OI_HISTORY), cutoff) == NewestAtOrBefore(samples, cutoff)
      <==> |samples| <= OI_HISTORY || samples[|samples| - OI_HISTORY].ts <= cutoff || cutoff < samples[0].ts
  {
    hide NewestIndex;
    if |samples| > OI_HISTORY {
      var from := |samples| - OI_HISTORY;
      SuffixAnswersFirst(samples, from, cutoff);
      assert samples[from..][0] == samples[from];
    }
  }

  predicate Spaced(samples: seq<Sample>, gap: nat)
  {
    forall i | 0 < i < |samples| :: samples[i - 1].ts + gap <= samples[i].ts
  }

  lemma {:induction false} SpacingAddsUp(samples: seq<Sample>, gap: nat, i: nat, j: nat)
    requires Spaced(samples, gap) && i <= j < |samples|
    ensures samples[i].ts + gap * (j - i) <= samples[j].ts
    decreases j
  {
    if i < j {
      SpacingAddsUp(samples, gap, i, j - 1);
      assert gap * (j - i) == gap * (j - 1 - i) + gap;
    }
  }

  /** At least 28,347 ms between samples: 127 gaps always span the hour. */
  lemma SpacedSamplesAnswerExactly(samples: seq<Sample>)
    requires samples != [] && Spaced(samples, 28_347)
    ensures var cutoff := samples[|samples| - 1].ts - HOUR_MS;
      NewestAtOrBefore(Newest(samples, OI_HISTORY), cutoff) == NewestAtOrBefore(samples, cutoff)
  {
    forall i, j | 0 <= i <= j < |samples| ensures samples[i].ts <= samples[j].ts {
      SpacingAddsUp(samples, 28_347, i, j);
    }
    if |samples| > OI_HISTORY {
      SpacingAddsUp(samples, 28_347, |samples| - OI_HISTORY, |samples| - 1);
    }
    RingAnswersLikeTheHistory(samples, samples[|samples| - 1].ts - HOUR_MS);
  }

  /** So what is published as the one-hour change is the change since the hour in the whole history, or zero without one. */
  lemma OiDeltaComparesWithTheHour(samples: seq<Sample>, funding: real)
    requires samples != [] && Spaced(samples, 28_347)
    ensures var last := samples[|samples| - 1];
      var perp := PerpState(funding, last.value, NewestAtOrBefore(Newest(samples, OI_HISTORY), last.ts - HOUR_MS), last.ts);
      var hourAgo := NewestAtOrBefore(samples, last.ts - HOUR_MS);
      perp.OiDelta1h() == if hourAgo.Some? && hourAgo.value > 0.0 then (last.value - hourAgo.value) / hourAgo.value else 0.0
  {
    SpacedSamplesAnswerExactly(samples);
  }

  /** One millisecond less and the hour-old sample has just been evicted: the bound is sharp. */
  lemma OneMillisecondLessLosesTheHour(n: nat, value: real)
    requires n > OI_HISTORY
    ensures var samples := seq(n, i => Sample(28_346 * i, value));
      var cutoff := samples[n - 1].ts - HOUR_MS;
      && Spaced(samples, 28_346)
      && NewestAtOrBefore(Newest(samples, OI_HISTORY), cutoff).None?
      && NewestAtOrBefore(samples, cutoff) == Some(value)
  {
    var samples := seq(n, i => Sample(28_346 * i, value));
    var cutoff := samples[n - 1].ts - HOUR_MS;
    assert samples[n - 129].ts <= cutoff;
    var ring := Newest(samples, OI_HISTORY);
    forall i | 0 <= i < |ring| ensures cutoff < ring[i].ts {
      assert ring[i] == samples[n - OI_HISTORY + i];
    }
  }

  // ---------------------------------------------------------------- freshness

  /** The newest of some event times, never below the zero a fresh state starts from. */
  function NewestEvent(events: seq<int>): (t: int)
    ensures 0 <= t && (t == 0 || t in events)
    ensures forall e | e in events :: e <= t
  {
    if events == [] then 0
    else
      var n := |events| - 1;
      assert events == events[..n] + [events[n]];
      Max(NewestEvent(events[..n]), events[n])
  }

  lemma OneMoreEvent(events: seq<int>, ts: int)
    ensures NewestEvent(events + [ts]) == Max(NewestEvent(events), ts)
  {
    assert (events + [ts])[..|events|] == events;
  }

  /** Age of the data behind a pulse, never negative. */
  function FeedAge(now: int, feedTs: int): int
  {
    Max(now - feedTs, 0)
  }

  predicate IsStale(now: int, feedTs: int, maxAge: int)
  {
    FeedAge(now, feedTs) > maxAge
  }

  /**
   If no accepted event lies in the future, a feed reads stale exactly when every accepted
   event is older than the budget; an event in the future keeps it fresh until then.
   */
  lemma StaleMeansNothingYoungEnough(events: seq<int>, now: int, maxAge: nat)
    requires maxAge < now
    ensures IsStale(now, NewestEvent(events), maxAge) <==> forall e | e in events :: now - e > maxAge
    ensures (exists e | e in events :: now < e) ==> !IsStale(now, NewestEvent(events), maxAge)
  {
    var t := NewestEvent(events);
    if exists e | e in events :: now < e {
      var e :| e in events && now < e;
      assert !(now - e > maxAge);
    }
  }

  // ---------------------------------------------------------------- the state

  /** `buf` is the window an unbounded store would show after the same pushes. */
  predicate Refines(buf: seq<Candle>, all: seq<Candle>)
  {
    buf == Newest(PushAll([], all), CAPACITY)
  }

  lemma EmptyRefines()
    ensures Refines([], [])
  {
  }

  lemma PushKeepsTheNewest(all: seq<Candle>, buf: seq<Candle>, candle: Candle)
    requires Refines(buf, all)
    ensures Refines(PushBounded(buf, candle), all + [candle])
  {
    assert (all + [candle])[..|all|] == all;
    var list := PushAll([], all);
    assert PushAll([], all + [candle]) == Push(list, candle);
    hide PushAll, Push, PushBounded, Newest;
    PushRefines(list, candle);
  }

  predicate IsStaleBar(buf: seq<Candle>, candle: Candle)
  {
    buf != [] && Last(buf).closeTime > candle.closeTime
  }

  function BufferOf(candles: map<Timeframe, seq<Candle>>, tf: Timeframe): seq<Candle>
  {
    if tf in candles then candles[tf] else []
  }

  /** The shared store holds just these windows and this newest event for the symbol. */
  predicate Mirrors(f: Feed.Feed, symbol: string, candles: map<Timeframe, seq<Candle>>, lastEventTs: int)
  {
    && (forall tf :: Feed.Window(f, (symbol, tf)) == BufferOf(candles, tf))
    && Feed.LastEvent(f, symbol) == lastEventTs
  }

  /** Pushing a bar is storing it in the shared store... */
  lemma PushMirrors(f: Feed.Feed, symbol: string, candles: map<Timeframe, seq<Candle>>, lastEventTs: int, tf: Timeframe, candle: Candle)
    requires Mirrors(f, symbol, candles, lastEventTs)
    ensures var buf := BufferOf(candles, tf);
      Mirrors(Feed.StoreBar(f, (symbol, tf), candle), symbol, candles[tf := PushBounded(buf, candle)],
              if IsStaleBar(buf, candle) then lastEventTs else Max(lastEventTs, candle.closeTime))
  {
    var buf := BufferOf(candles, tf);
    assert Feed.Window(f, (symbol, tf)) == buf;
    assert IsStaleBar(buf, candle) ==> PushBounded(buf, candle) == buf;
    hide PushBounded;
  }

  /** ...and accepting an event is stamping it there. */
  lemma StampMirrors(f: Feed.Feed, symbol: string, candles: map<Timeframe, seq<Candle>>, lastEventTs: int, ts: int)
    requires Mirrors(f, symbol, candles, lastEventTs)
    ensures Mirrors(Feed.StampEvent(f, symbol, ts), symbol, candles, Max(lastEventTs, ts))
  {
    forall tf ensures Feed.Window(Feed.StampEvent(f, symbol, ts), (symbol, tf)) == BufferOf(candles, tf) {
      assert Feed.Window(f, (symbol, tf)) == BufferOf(candles, tf);
    }
  }

  class SymbolState {
    var candles: map<Timeframe, seq<Candle>>
    var book: BookTop
    var perp: PerpState
    var oiHistory: seq<Sample>
    var lastEventTs: int

    ghost var offered: map<Timeframe, seq<Candle>>  // every bar pushed since the last clear
    ghost var samples: seq<Sample>                  // every open-interest sample accepted
    ghost var events: seq<int>                      // every event time accepted since the last clear

    ghost predicate Valid()
      reads this
    {
      && offered.Keys == candles.Keys
      && (forall tf | tf in candles :: Refines(candles[tf], offered[tf]))
      && oiHistory == Newest(samples, OI_HISTORY)
      && lastEventTs == NewestEvent(events)
    }

    /** `candles_for`: a timeframe never pushed is empty. */
    function CandlesFor(tf: Timeframe): seq<Candle>
      reads this
    {
      BufferOf(candles, tf)
    }

    ghost function OfferedFor(tf: Timeframe): seq<Candle>
      reads this
    {
      if tf in offered then offered[tf] else []
    }

    /** Is `f` the shared store, as far as this symbol goes? */
    predicate IsPartOf(f: Feed.Feed, symbol: string)
      reads this
    {
      Mirrors(f, symbol, candles, lastEventTs)
    }

    constructor ()
      ensures Valid() && candles == map[] && samples == [] && events == [] && lastEventTs == 0
    {
      candles, offered := map[], map[];
      book := BookTop(0.0, 0.0, 0.0, 0.0, 0);
      perp := PerpState(0.0, 0.0, None, 0);
      oiHistory, samples := [], [];
      lastEventTs, events := 0, [];
    }

    method ClearCandles()
      requires Valid()
      modifies this
      ensures Valid()
      ensures candles == map[] && events == [] && lastEventTs == 0
      ensures forall symbol :: IsPartOf(Feed.EMPTY, symbol)
      ensures book == old(book) && perp == old(perp) && samples == old(samples) && oiHistory == old(oiHistory)
    {
      candles, offered := map[], map[];
      lastEventTs, events := 0, [];
    }

    method PushCandle(tf: Timeframe, candle: Candle)
      requires Valid()
      modifies this
      ensures Valid()
      ensures CandlesFor(tf) == PushBounded(old(CandlesFor(tf)), candle)
      ensures offered == old(offered)[tf := old(OfferedFor(tf)) + [candle]]
      ensures forall other | other != tf :: CandlesFor(other) == old(CandlesFor(other))
      ensures forall f, symbol | old(IsPartOf(f, symbol)) :: IsPartOf(Feed.StoreBar(f, (symbol, tf), candle), symbol)
      ensures events == if IsStaleBar(old(CandlesFor(tf)), candle)
                        then old(events) else old(events) + [candle.closeTime]
      ensures book == old(book) && perp == old(perp) && samples == old(samples) && oiHistory == old(oiHistory)
    {
      hide Refines, PushBounded, NewestEvent, Mirrors, IsStaleBar, Feed.StoreBar;
      var buf := CandlesFor(tf);
      ghost var all := OfferedFor(tf);
      if tf !in candles { EmptyRefines(); }
      PushKeepsTheNewest(all, buf, candle);
      var stale := IsStaleBar(buf, candle);
      forall f, symbol | IsPartOf(f, symbol)
        ensures Mirrors(Feed.StoreBar(f, (symbol, tf), candle), symbol, candles[tf := PushBounded(buf, candle)],
                        if stale then lastEventTs else Max(lastEventTs, candle.closeTime))
      {
        PushMirrors(f, symbol, candles, lastEventTs, tf, candle);
      }
      buf := Fold(buf, candle);
      candles, offered := candles[tf := buf], offered[tf := all + [candle]];
      if !stale {
        RaiseEvent(candle.closeTime);
      }
    }

    /** The newest event time only ever rises. */
    method RaiseEvent(ts: int)
      requires lastEventTs == NewestEvent(events)
      modifies this`lastEventTs, this`events
      ensures lastEventTs == NewestEvent(events) && events == old(events) + [ts]
      ensures lastEventTs == Max(old(lastEventTs), ts)
    {
      OneMoreEvent(events, ts);
      lastEventTs, events := Max(lastEventTs, ts), events + [ts];
    }

    /** The three-way match on the newest bar. */
    static method Fold(was: seq<Candle>, candle: Candle) returns (buf: seq<Candle>)
      ensures buf == PushBounded(was, candle)
    {
      buf := was;
      if buf != [] && Last(buf).closeTime == candle.closeTime {
        buf := buf[|buf| - 1 := candle];
      } else if buf == [] || Last(buf).closeTime < candle.closeTime {
        if |buf| >= CAPACITY {
          buf := buf[1..];
        }
        buf := buf + [candle];
      }
    }

    /** A negative reading is dropped; any other refreshes the one-hour reference from the ring. */
    method PushOpenInterest(ts: int, value: real)
      requires Valid()
      modifies this
      ensures Valid()
      ensures candles == old(candles) && offered == old(offered) && book == old(book)
      ensures value < 0.0 ==>
        samples == old(samples) && events == old(events) && perp == old(perp)
      ensures value >= 0.0 ==>
        && samples == old(samples) + [Sample(ts, value)]
        && events == old(events) + [ts]
        && (forall f, symbol | old(IsPartOf(f, symbol)) :: IsPartOf(Feed.StampEvent(f, symbol, ts), symbol))
        && perp == old(perp).(openInterest := value, ts := ts,
             openInterest1hAgo := NewestAtOrBefore(Newest(samples, OI_HISTORY), ts - HOUR_MS))
    {
      hide Mirrors, NewestEvent, Feed.StampEvent, NewestIndex, Refines;
      if value < 0.0 {
        return;
      }
      forall f, symbol | IsPartOf(f, symbol) ensures Mirrors(Feed.StampEvent(f, symbol, ts), symbol, candles, Max(lastEventTs, ts)) {
        StampMirrors(f, symbol, candles, lastEventTs, ts);
      }
      AppendSample(Sample(ts, value));
      perp := perp.(openInterest := value, ts := ts,
                    openInterest1hAgo := NewestAtOrBefore(oiHistory, ts - HOUR_MS));
      RaiseEvent(ts);
    }

    /** Into the ring, evicting the oldest sample when it is full. */
    method AppendSample(s: Sample)
      requires oiHistory == Newest(samples, OI_HISTORY)
      modifies this`oiHistory, this`samples
      ensures oiHistory == Newest(samples, OI_HISTORY) && samples == old(samples) + [s]
    {
      if |oiHistory| >= OI_HISTORY {
        oiHistory := oiHistory[1..];
      }
      oiHistory := oiHistory + [s];
      samples := samples + [s];
    }

    /** The book poller's update. */
    method UpdateBook(top: BookTop)
      requires Valid()
      modifies this
      ensures Valid()
      ensures book == top && events == old(events) + [top.ts]
      ensures forall f, symbol | old(IsPartOf(f, symbol)) :: IsPartOf(Feed.StampEvent(f, symbol, top.ts), symbol)
      ensures candles == old(candles) && offered == old(offered) && perp == old(perp) && samples == old(samples)
    {
      hide Mirrors, NewestEvent, Feed.StampEvent;
      forall f, symbol | IsPartOf(f, symbol) ensures Mirrors(Feed.StampEvent(f, symbol, top.ts), symbol, candles, Max(lastEventTs, top.ts)) {
        StampMirrors(f, symbol, candles, lastEventTs, top.ts);
      }
      RaiseEvent(top.ts);
      book := top;
    }

    /** Every configured timeframe has enough bars, by the order the timeframes are listed in. */
    method IsWarm(minBars: nat) returns (warm: bool)
      requires Valid()
      ensures warm <==> forall tf | tf in TIMEFRAMES :: tf in candles && |candles[tf]| >= minBars
    {
      warm := true;
      for i := 0 to |TIMEFRAMES|
        invariant warm <==> forall j | 0 <= j < i :: TIMEFRAMES[j] in candles && |candles[TIMEFRAMES[j]]| >= minBars
      {
        warm := warm && TIMEFRAMES[i] in candles && |candles[TIMEFRAMES[i]]| >= minBars;
      }
    }
  }
}
