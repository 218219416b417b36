/** Bars, venues and the clock arithmetic the pollers share. */
module Bars {
  import opened Wrappers

  /** One OHLCV bar; `closeTime` is epoch milliseconds at bar close. */
  datatype Candle = Candle(open: real, high: real, low: real, close: real, volume: real, closeTime: int)

  /** The gate every fetched row passes before it is stored. */
  predicate IsSane(c: Candle)
  {
    c.high >= c.low && c.close > 0.0 && c.closeTime > 0
  }

  datatype Venue = Binance | Bybit

  /** Tried in this order at bootstrap. */
  const FALLBACK_ORDER: seq<Venue> := [Binance, Bybit]

  datatype Timeframe = M5 | M15 | H1 | H4
  {
    function Millis(): (ms: int)
      ensures 0 < ms
    {
      match this
      case M5 => 300_000
      case M15 => 900_000
      case H1 => 3_600_000
      case H4 => 14_400_000
    }
  }

  const TIMEFRAMES: seq<Timeframe> := [M5, M15, H1, H4]

  /** Statuses that mean "stop sending": Bybit says 403 where Binance says 418. */
  predicate IsRateLimit(venue: Venue, status: int)
  {
    match venue
    case Binance => status == 418 || status == 429
    case Bybit => status == 403 || status == 429
  }

  /** `expiry` is the timestamp found after "banned until " in the body, if one parses. */
  function BanUntil(status: int, expiry: Option<int>, now: int): Option<int>
  {
    if status != 418 && status != 429 then None
    else if expiry.Some? && expiry.value > now then Some(Min(expiry.value, now + 3_600_000))
    else Some(now + if status == 418 then 600_000 else 60_000)
  }

  /** What a poller waits for after a rate-limit status; a status without a rule waits ten minutes. */
  function BanAfter(status: int, expiry: Option<int>, now: int): int
  {
    var until := BanUntil(status, expiry, now);
    if until.Some? then until.value else now + 600_000
  }

  /** A ban lies in the future and never silences the feed for more than an hour. */
  lemma BansAreBounded(venue: Venue, status: int, expiry: Option<int>, now: int)
    requires IsRateLimit(venue, status)
    ensures now < BanAfter(status, expiry, now) <= now + 3_600_000
    ensures BanUntil(status, expiry, now).None? <==> venue.Bybit? && status == 403
    ensures expiry.Some? && now < expiry.value <= now + 3_600_000 && status != 403 ==>
              BanAfter(status, expiry, now) == expiry.value
  {
  }

  function Min(a: int, b: int): int { if a < b then a else b }

  function Max(a: int, b: int): int { if a < b then b else a }

  /** Rust's integer division: toward zero. */
  function TruncDiv(a: int, b: int): int
    requires 0 < b
  {
    if a >= 0 then a / b else -((-a) / b)
  }

  const KLINE_SETTLE_MS := 3_000

  /** The close boundary of the newest bar that is safely closed at `now`. */
  function LatestClosedBoundary(now: int, tfMs: int, settleMs: int): int
    requires 0 < tfMs
  {
    TruncDiv(now - settleMs, tfMs) * tfMs
  }

  /** Truncation is the floor exactly for non-negative or whole arguments. */
  lemma TruncIsFloor(a: int, b: int)
    requires 0 < b
    ensures TruncDiv(a, b) * b <= a <==> 0 <= a || a % b == 0
    ensures 0 <= a ==> a < TruncDiv(a, b) * b + b
    ensures a < 0 ==> a <= TruncDiv(a, b) * b < a + b
    ensures TruncDiv(a, b) * b % b == 0
  {
    MultipleHasNoRemainder(TruncDiv(a, b), b);
    if a < 0 {
      var q, r := (-a) / b, (-a) % b;
      assert -a == q * b + r;
      assert a == -q * b - r;
      if r == 0 { assert a == (-q) * b; MultipleHasNoRemainder(-q, b); }
      if a % b == 0 { RemainderOfNegation(a, b); }
    }
  }

  lemma RemainderOfNegation(a: int, b: int)
    requires 0 < b && a % b == 0
    ensures (-a) % b == 0
  {
    assert -a == (-(a / b)) * b;
    MultipleHasNoRemainder(-(a / b), b);
  }

  lemma MultipleHasNoRemainder(q: int, b: int)
    requires 0 < b
    ensures (q * b) % b == 0
  {
    var r := (q * b) % b;
    var d := (q * b) / b;
    assert q * b == d * b + r;
    assert (q - d) * b == r;
    assert q - d >= 1 ==> (q - d) * b >= b;
    assert q - d <= -1 ==> (q - d) * b <= -b;
  }

  /**
   The scheduler's boundary is the end of a bar that has been closed for at least the settle
   delay, and the bar after it has not, exactly when the clock is past the settle delay (or
   sits on a whole bar before it, where truncation and floor agree).
   */
  lemma BoundaryIsTheLastSettledBar(now: int, tfMs: int, settleMs: int)
    requires 0 < tfMs
    ensures var b := LatestClosedBoundary(now, tfMs, settleMs);
      && b % tfMs == 0
      && (b + settleMs <= now < b + tfMs + settleMs <==> settleMs <= now || (now - settleMs) % tfMs == 0)
      && forall other | IsLastSettled(b, now, tfMs, settleMs) && IsLastSettled(other, now, tfMs, settleMs) :: other == b
  {
    TruncIsFloor(now - settleMs, tfMs);
    var b := LatestClosedBoundary(now, tfMs, settleMs);
    forall other | IsLastSettled(b, now, tfMs, settleMs) && IsLastSettled(other, now, tfMs, settleMs) ensures other == b {
      NearGridPointsCoincide(b, other, tfMs);
    }
  }

  /** On the grid, settled, and the next grid point is not. */
  predicate IsLastSettled(b: int, now: int, tfMs: int, settleMs: int)
    requires 0 < tfMs
  {
    b % tfMs == 0 && b + settleMs <= now < b + tfMs + settleMs
  }

  lemma NearGridPointsCoincide(a: int, b: int, tfMs: int)
    requires 0 < tfMs && a % tfMs == 0 && b % tfMs == 0 && a - tfMs < b < a + tfMs
    ensures a == b
  {
    var k := a / tfMs - b / tfMs;
    assert a - b == k * tfMs;
    assert k >= 1 ==> k * tfMs >= tfMs;
    assert k <= -1 ==> k * tfMs <= -tfMs;
  }
}
