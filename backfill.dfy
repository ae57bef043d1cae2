/**
 * The deterministic core of the historical backfill script: the as-of share
 * lookup behind the market-cap computation, the memoised and retried
 * fundamentals fetch, the retried price fetch, and the keys the daily price
 * files are written under and read back from.
 */
module Backfill {
  import opened Wrappers
  import opened Dates

  /** One row of the quarterly outstanding-shares frame, indexed by its date. */
  datatype ShareRecord = ShareRecord(date: Date, shares: real)

  datatype Error =
    | RetryError   // tenacity gave up: every allowed attempt raised
    | IndexError   // `iloc[0]` on an empty frame, or `data[0]` on an empty list
    | ValueError   // csv.DictWriter met a field that is not in the header

  // ---------------------------------------------------------------------------
  // As-of lookup and market cap

  /** A record pandas keeps for the trading day: dated on or before it. */
  predicate IsCandidate(rec: ShareRecord, tradingDay: Date) {
    OnOrBefore(rec.date, tradingDay)
  }

  /**
   * `df[df.index <= trading_day].sort_index(ascending=False).iloc[0]`: a
   * candidate with the latest date, or `None` when there is no candidate.
   */
  function AsOf(records: seq<ShareRecord>, tradingDay: Date): (r: Option<ShareRecord>)
    ensures r.Some? ==> r.value in records && IsCandidate(r.value, tradingDay)
    ensures r.Some? ==> forall x :: x in records && IsCandidate(x, tradingDay) ==> OnOrBefore(x.date, r.value.date)
    ensures r.None? <==> forall x :: x in records ==> !IsCandidate(x, tradingDay)
  {
    if |records| == 0 then None
    else
      var rest := AsOf(records[1..], tradingDay);
      assert forall x :: x in records ==> x == records[0] || x in records[1..];
      var head := records[0];
      if IsCandidate(head, tradingDay) && (rest.None? || OnOrBefore(rest.value.date, head.date)) then Some(head)
      else rest
  }

  /**
   * `get_market_cap` once the share frame is known: the selected share count
   * times the share price; `IndexError` when no record is dated on or before
   * the trading day (there is no fallback to a later record).
   */
  function MarketCap(records: seq<ShareRecord>, sharePrice: real, tradingDay: Date): (r: Result<real, Error>)
    ensures r.Err? <==> forall x :: x in records ==> !IsCandidate(x, tradingDay)
    ensures r.Err? ==> r.error == IndexError
    ensures r.Ok? ==> exists x :: (x in records && IsCandidate(x, tradingDay) && r.value == x.shares * sharePrice
      && (forall y :: y in records && IsCandidate(y, tradingDay) ==> OnOrBefore(y.date, x.date)))
  {
    match AsOf(records, tradingDay)
    case None => Err(IndexError)
    case Some(rec) =>
      assert rec in records && IsCandidate(rec, tradingDay);
      Ok(rec.shares * sharePrice)
  }

  /** A record dated on the trading day itself is a candidate, and a latest one is chosen. */
  lemma AsOfExamples()
    ensures var jan, apr := ShareRecord(Date(2021, 1, 1), 100.0), ShareRecord(Date(2021, 4, 1), 110.0);
      && AsOf([jan, apr], Date(2021, 2, 15)) == Some(jan)
      && AsOf([jan, apr], Date(2021, 4, 1)) == Some(apr)
      && AsOf([jan, apr], Date(2020, 12, 1)) == None
      && MarketCap([jan, apr], 2.5, Date(2021, 2, 15)) == Ok(250.0)
      && MarketCap([jan, apr], 2.5, Date(2020, 12, 1)) == Err(IndexError)
  {
    var jan, apr := ShareRecord(Date(2021, 1, 1), 100.0), ShareRecord(Date(2021, 4, 1), 110.0);
    assert [jan, apr][1..] == [apr];
  }

  // ---------------------------------------------------------------------------
  // The upstream service

  /** What the script asks the market-data API for. */
  datatype Request = SharesRequest(ticker: string) | PricesRequest(date: Date)

  /** What comes back: an HTTP status and body, or a failure to connect. */
  datatype Reply = Reply(status: int, body: string) | ConnectionError

  /** `raise_for_status` raises for client and server errors. */
  predicate RaisesForStatus(status: int) {
    400 <= status < 600
  }

  /** The next reply the service gives; once the scripted replies run out it is unreachable. */
  function NextReply(replies: seq<Reply>): Reply {
    if |replies| == 0 then ConnectionError else replies[0]
  }

  function Drop<T>(s: seq<T>, n: nat): (r: seq<T>)
    ensures |r| == if n <= |s| then |s| - n else 0
  {
    if n <= |s| then s[n..] else []
  }

  function Repeat<T>(x: T, n: nat): (r: seq<T>)
    ensures |r| == n && forall i :: 0 <= i < n ==> r[i] == x
  {
    seq(n, _ => x)
  }

  /**
   * The remote API, seen from the script: it answers requests with `replies`,
   * in order, and `requests` records every request it has been sent.
   */
  class Upstream {
    var replies: seq<Reply>
    ghost var requests: seq<Request>

    constructor (replies: seq<Reply>)
      ensures this.replies == replies && requests == []
    {
      this.replies := replies;
      requests := [];
    }

    /** `requests.get`: one network round trip. */
    method Get(req: Request) returns (reply: Reply)
      modifies this
      ensures reply == NextReply(old(replies))
      ensures replies == Drop(old(replies), 1)
      ensures requests == old(requests) + [req]
    {
      reply := NextReply(replies);
      replies := Drop(replies, 1);
      requests := requests + [req];
    }
  }

  // ---------------------------------------------------------------------------
  // tenacity's `stop_after_attempt`

  /** `stop_after_attempt(3)` on both retried fetches. */
  const MaxAttempts: nat := 3

  /** How a retried call ended: the attempts it made and the value of the one that succeeded. */
  datatype Retried<T> = Retried(attempts: nat, value: Option<T>)

  function OutcomeAt<T>(outcomes: seq<Option<T>>, i: nat): Option<T> {
    if i < |outcomes| then outcomes[i] else None
  }

  function Max(a: int, b: int): int {
    if a >= b then a else b
  }

  /**
   * tenacity's loop when attempt `i` would end with `outcomes[i]` (`None`
   * for an attempt that raises): attempt, stop at the first success, and
   * give up after `limit` attempts (always making at least one).
   */
  function StopAfterAttempt<T>(outcomes: seq<Option<T>>, limit: nat): (r: Retried<T>)
    ensures 1 <= r.attempts <= Max(limit, 1)
    ensures forall i :: 0 <= i < r.attempts - 1 ==> OutcomeAt(outcomes, i).None?
    ensures r.value == OutcomeAt(outcomes, r.attempts - 1)
    ensures r.value.None? ==> r.attempts == Max(limit, 1)
    decreases limit
  {
    match OutcomeAt(outcomes, 0)
    case Some(v) => Retried(1, Some(v))
    case None =>
      if limit <= 1 then Retried(1, None)
      else
        var rest := StopAfterAttempt(Drop(outcomes, 1), limit - 1);
        assert forall i :: 1 <= i <= rest.attempts ==> OutcomeAt(outcomes, i) == OutcomeAt(Drop(outcomes, 1), i - 1);
        Retried(rest.attempts + 1, rest.value)
  }

  /** A retried call fails only when each of its `limit` attempts failed. */
  lemma RetryFailsOnlyIfAllFail<T>(outcomes: seq<Option<T>>, limit: nat)
    requires limit >= 1
    ensures StopAfterAttempt(outcomes, limit).value.None? <==>
      forall i :: 0 <= i < limit ==> OutcomeAt(outcomes, i).None?
  {
    var r := StopAfterAttempt(outcomes, limit);
    if r.value.Some? {
      assert OutcomeAt(outcomes, r.attempts - 1).Some?;
    }
  }

  /** What each scripted reply would make of one attempt, under the attempt's own check `outcome`. */
  function Outcomes<T>(outcome: Reply -> Option<T>, replies: seq<Reply>): (r: seq<Option<T>>)
    ensures |r| == |replies|
    ensures forall i :: 0 <= i < |replies| ==> r[i] == outcome(replies[i])
  {
    seq(|replies|, i requires 0 <= i < |replies| => outcome(replies[i]))
  }

  /** With no reply left the script answers `ConnectionError`, which every attempt raises on. */
  lemma OutcomesStep<T>(outcome: Reply -> Option<T>, replies: seq<Reply>)
    requires outcome(ConnectionError).None?
    ensures OutcomeAt(Outcomes(outcome, replies), 0) == outcome(NextReply(replies))
    ensures Outcomes(outcome, Drop(replies, 1)) == Drop(Outcomes(outcome, replies), 1)
  {
  }

  /**
   * The tenacity decorator `@retry(stop=stop_after_attempt(3))` around one
   * request: send `req` up to `MaxAttempts` times, stopping at the first
   * attempt whose `outcome` is a value; `None` once every attempt has raised.
   */
  method Retry<T>(net: Upstream, req: Request, outcome: Reply -> Option<T>) returns (result: Option<T>)
    requires outcome(ConnectionError).None?
    modifies net
    ensures var s := StopAfterAttempt(Outcomes(outcome, old(net.replies)), MaxAttempts);
      && net.requests == old(net.requests) + Repeat(req, s.attempts)
      && net.replies == Drop(old(net.replies), s.attempts)
      && result == s.value
  {
    ghost var spec := StopAfterAttempt(Outcomes(outcome, net.replies), MaxAttempts);
    var attempt: nat := 0;
    result := None;
    while attempt < MaxAttempts && result.None?
      invariant attempt <= MaxAttempts
      invariant net.requests == old(net.requests) + Repeat(req, attempt)
      invariant net.replies == Drop(old(net.replies), attempt)
      invariant result.None? && attempt < MaxAttempts ==>
        var rest := StopAfterAttempt(Outcomes(outcome, net.replies), MaxAttempts - attempt);
        spec == Retried(rest.attempts + attempt, rest.value)
      invariant result.None? && attempt == MaxAttempts ==> spec == Retried(MaxAttempts, None)
      invariant result.Some? ==> spec == Retried(attempt, result)
    {
      OutcomesStep(outcome, net.replies);
      var reply := net.Get(req);
      assert Repeat(req, attempt) + [req] == Repeat(req, attempt + 1);
      result := outcome(reply);
      attempt := attempt + 1;
    }
  }

  // ---------------------------------------------------------------------------
  // The memoised, retried outstanding-shares lookup

  /**
   * One attempt of `get_quarterly_outstanding_shares`: the request, then
   * `raise_for_status`, then the JSON-to-frame conversion `parse` (which
   * raises, `None`, on a body it cannot convert). Any raise is retried.
   */
  function SharesOutcome(parse: string -> Option<seq<ShareRecord>>, reply: Reply): (r: Option<seq<ShareRecord>>)
    ensures r.Some? <==> reply.Reply? && !RaisesForStatus(reply.status) && parse(reply.body).Some?
    ensures r.Some? ==> r == parse(reply.body)
  {
    match reply
    case ConnectionError => None
    case Reply(status, body) => if RaisesForStatus(status) then None else parse(body)
  }

  /** `SharesOutcome` as the check of one attempt. */
  function SharesAttempt(parse: string -> Option<seq<ShareRecord>>): Reply -> Option<seq<ShareRecord>> {
    reply => SharesOutcome(parse, reply)
  }

  /** The retried body of `get_quarterly_outstanding_shares` for one ticker. */
  method FetchShares(net: Upstream, parse: string -> Option<seq<ShareRecord>>, ticker: string)
    returns (result: Option<seq<ShareRecord>>)
    modifies net
    ensures var s := StopAfterAttempt(Outcomes(SharesAttempt(parse), old(net.replies)), MaxAttempts);
      && net.requests == old(net.requests) + Repeat(SharesRequest(ticker), s.attempts)
      && net.replies == Drop(old(net.replies), s.attempts)
      && result == s.value
  {
    result := Retry(net, SharesRequest(ticker), SharesAttempt(parse));
  }

  /**
   * `functools.cache` over the retried fetch: `memo` maps each ticker whose
   * lookup has returned to its frame; `fetched` records the tickers whose
   * fetch succeeded, in order (a lookup that gave up caches nothing).
   */
  class SharesCache {
    var memo: map<string, seq<ShareRecord>>
    ghost var fetched: seq<string>
    const net: Upstream
    const parse: string -> Option<seq<ShareRecord>>

    /** At most one successful fetch per ticker, and exactly the fetched tickers are cached. */
    ghost predicate Valid()
      reads this
    {
      && (forall i, j :: 0 <= i < j < |fetched| ==> fetched[i] != fetched[j])
      && (forall t :: t in memo <==> t in fetched)
    }

    constructor (net: Upstream, parse: string -> Option<seq<ShareRecord>>)
      ensures Valid() && memo == map[] && fetched == []
      ensures this.net == net && this.parse == parse
    {
      memo := map[];
      fetched := [];
      this.net := net;
      this.parse := parse;
    }

    /**
     * `get_quarterly_outstanding_shares(ticker)`: a cached ticker is answered
     * from the cache with no request; otherwise the retried fetch runs, and
     * its result is cached if it succeeded.
     */
    method GetQuarterlyOutstandingShares(ticker: string) returns (r: Result<seq<ShareRecord>, Error>)
      requires Valid()
      modifies this, net
      ensures Valid()
      ensures ticker in old(memo) ==>
        && r == Ok(old(memo)[ticker])
        && memo == old(memo) && fetched == old(fetched)
        && net.replies == old(net.replies) && net.requests == old(net.requests)
      ensures ticker !in old(memo) ==>
        var s := StopAfterAttempt(Outcomes(SharesAttempt(parse), old(net.replies)), MaxAttempts);
        && net.requests == old(net.requests) + Repeat(SharesRequest(ticker), s.attempts)
        && net.replies == Drop(old(net.replies), s.attempts)
        && (s.value.Some? ==> r == Ok(s.value.value) && memo == old(memo)[ticker := s.value.value]
                              && fetched == old(fetched) + [ticker])
        && (s.value.None? ==> r == Err(RetryError) && memo == old(memo) && fetched == old(fetched))
    {
      if ticker in memo {
        return Ok(memo[ticker]);
      }
      var result := FetchShares(net, parse, ticker);
      if result.Some? {
        memo := memo[ticker := result.value];
        fetched := fetched + [ticker];
        r := Ok(result.value);
      } else {
        r := Err(RetryError);
      }
    }

    /**
     * `get_market_cap(ticker, share_price, trading_day)`: the cached or
     * fetched share frame, then the as-of product.
     */
    method GetMarketCap(ticker: string, sharePrice: real, tradingDay: Date) returns (r: Result<real, Error>)
      requires Valid()
      modifies this, net
      ensures Valid()
      ensures old(memo).Keys <= memo.Keys && forall t :: t in old(memo) ==> memo[t] == old(memo)[t]
      ensures ticker in old(memo) ==>
        && r == MarketCap(old(memo)[ticker], sharePrice, tradingDay)
        && memo == old(memo) && fetched == old(fetched)
        && net.replies == old(net.replies) && net.requests == old(net.requests)
      ensures ticker !in old(memo) ==>
        var s := StopAfterAttempt(Outcomes(SharesAttempt(parse), old(net.replies)), MaxAttempts);
        && net.requests == old(net.requests) + Repeat(SharesRequest(ticker), s.attempts)
        && net.replies == Drop(old(net.replies), s.attempts)
        && (s.value.Some? ==> r == MarketCap(s.value.value, sharePrice, tradingDay)
                              && memo == old(memo)[ticker := s.value.value]
                              && fetched == old(fetched) + [ticker])
        && (s.value.None? ==> r == Err(RetryError) && memo == old(memo) && fetched == old(fetched))
    {
      var shares := GetQuarterlyOutstandingShares(ticker);
      if shares.Err? {
        return Err(shares.error);
      }
      r := MarketCap(shares.value, sharePrice, tradingDay);
    }
  }

  // ---------------------------------------------------------------------------
  // The retried price fetch

  /** One attempt of `get_prices`: the request, then `raise_for_status`. */
  function PricesOutcome(reply: Reply): (r: Option<Reply>)
    ensures r.Some? <==> reply.Reply? && !RaisesForStatus(reply.status)
    ensures r.Some? ==> r.value == reply
  {
    match reply
    case ConnectionError => None
    case Reply(status, _) => if RaisesForStatus(status) then None else Some(reply)
  }

  /** `get_prices` for one session: the retried request, `RetryError` once every attempt raised. */
  method GetPrices(net: Upstream, date: Date) returns (r: Result<Reply, Error>)
    modifies net
    ensures var s := StopAfterAttempt(Outcomes(PricesOutcome, old(net.replies)), MaxAttempts);
      && net.requests == old(net.requests) + Repeat(PricesRequest(date), s.attempts)
      && net.replies == Drop(old(net.replies), s.attempts)
      && r == if s.value.Some? then Ok(s.value.value) else Err(RetryError)
  {
    var result := Retry(net, PricesRequest(date), PricesOutcome);
    r := if result.Some? then Ok(result.value) else Err(RetryError);
  }

  // ---------------------------------------------------------------------------
  // Price-file keys

  /** The key `save_to_s3` writes a session's rows under: `YYYY/MM/DD/prices/<exchange>.csv`. */
  function PricesKey(sessionDate: Date, exchange: string): (k: string)
    requires sessionDate.Valid()
    ensures |k| == 22 + |exchange| && Parse(k[..10], '/') == Some(sessionDate)
    ensures k[10..18] == "/prices/" && k[18..|k| - 4] == exchange && k[|k| - 4..] == ".csv"
  {
    var d := SlashDate(sessionDate);
    var k := d + "/prices/" + exchange + ".csv";
    assert k[..10] == d && k[10..18] == "/prices/";
    assert k[18..|k| - 4] == exchange && k[|k| - 4..] == ".csv";
    k
  }

  /** The key `get_eod_prices` reads a trading day's rows from. */
  function EodPricesKey(tradingDay: Date): (k: string)
    requires tradingDay.Valid()
    ensures |k| == 24 && Parse(k[..10], '/') == Some(tradingDay) && k[10..] == "/prices/us.csv"
  {
    var d := SlashDate(tradingDay);
    var k := d + "/prices/us.csv";
    assert k[..10] == d && k[10..] == "/prices/us.csv";
    k
  }

  /** The file written for a session with exchange "us" is the one read back for that day, and only that day. */
  lemma WrittenKeyIsReadKey(sessionDate: Date, tradingDay: Date)
    requires sessionDate.Valid() && tradingDay.Valid()
    ensures PricesKey(sessionDate, "us") == EodPricesKey(tradingDay) <==> sessionDate == tradingDay
  {
    var w, k := PricesKey(sessionDate, "us"), EodPricesKey(tradingDay);
    if w == k {
      assert w[..10] == SlashDate(sessionDate) && k[..10] == SlashDate(tradingDay);
      FormatInjective(sessionDate, tradingDay, '/');
    }
  }

  /** What `save_to_s3` puts: the key, the CSV header (the first row's fields) and the rows. */
  datatype CsvUpload<V> = CsvUpload(key: string, header: set<string>, rows: seq<map<string, V>>)

  /**
   * `save_to_s3(session_date, data, exchange)`: the header is taken from
   * `data[0]` (`IndexError` on an empty list), and `DictWriter` refuses a row
   * with a field outside that header (`ValueError`).
   */
  function SaveToS3<V>(sessionDate: Date, data: seq<map<string, V>>, exchange: string): (r: Result<CsvUpload<V>, Error>)
    requires sessionDate.Valid()
    ensures |data| == 0 ==> r == Err(IndexError)
    ensures |data| > 0 ==> (r.Err? <==> exists i :: 0 <= i < |data| && !(data[i].Keys <= data[0].Keys))
    ensures r.Err? && |data| > 0 ==> r.error == ValueError
    ensures r.Ok? ==> r.value.key == PricesKey(sessionDate, exchange) && r.value.rows == data
    ensures r.Ok? ==> r.value.header == data[0].Keys
    ensures r.Ok? ==> forall i :: 0 <= i < |data| ==> data[i].Keys <= r.value.header
  {
    if |data| == 0 then Err(IndexError)
    else if exists i :: 0 <= i < |data| && !(data[i].Keys <= data[0].Keys) then Err(ValueError)
    else Ok(CsvUpload(PricesKey(sessionDate, exchange), data[0].Keys, data))
  }
}
