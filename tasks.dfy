/**
 * The periodic ingestion task: one run reads the clock once, fetches every
 * configured ticker, and only then writes the batch; the `@celery_app.task` decorator
 * re-runs it automatically on `DeribitError`, at most five times.
 */
module Tasks {
  import opened Wrappers
  import opened Models
  import opened Crud
  import opened DeribitClient

  /** `{"ts": ts, "prices": prices, "saved_count": saved_count}`. */
  datatype RunSummary = RunSummary(ts: int, prices: PriceMap, savedCount: nat)

  /** What makes a run raise: a fetch error or a database error. */
  datatype TaskError = Fetch(fetch: FetchError) | Storage(db: DbError)

  /** `retry_kwargs={"max_retries": 5}`. */
  const MaxRetries: nat := 5

  /** `autoretry_for=(DeribitError,)`: only a `DeribitError` is retried. */
  predicate Retryable(e: TaskError)
    ensures !Retryable(e) <==> e.Storage? || e.fetch in {TransportError, DecodeError, ShapeError, ConversionError}
  {
    e.Fetch? && e.fetch.DeribitError?
  }

  /**
   * One run of `fetch_and_store_prices`, with `clock` the value `int(time.time())`
   * gives and `replies[i]` what the call for `tickers[i]` gets. Returns the
   * outcome and the table afterwards.
   */
  function RunOnce(rows: seq<PriceRow>, tickers: seq<string>, clock: int, replies: seq<Reply>)
    : (res: (Result<RunSummary, TaskError>, seq<PriceRow>))
    requires |replies| == |tickers|
    ensures GetIndexPrices(tickers, replies).Failure?
        ==> res.0 == Failure(Fetch(GetIndexPrices(tickers, replies).error))
    ensures res.0.Failure? ==> res.1 == rows
    ensures res.0.Success? ==> res.0.value.ts == clock
    ensures res.0.Success? ==> forall k :: k in res.0.value.prices.values <==> k in tickers
    ensures res.0.Success? ==> res.0.value.savedCount <= |res.0.value.prices.order|
    ensures res.0.Success? ==> |res.1| == |rows| + res.0.value.savedCount && res.1[..|rows|] == rows
    ensures res.0.Success? ==> forall r :: r in res.1[|rows|..] ==> r.ts == clock && r.ticker in tickers
    ensures TableInvariant(rows) ==> TableInvariant(res.1)
    ensures GetIndexPrices(tickers, replies).Success? ==>
              var prices := GetIndexPrices(tickers, replies).value;
              var saved := SavePricesOn(rows, prices, clock);
              res.1 == saved.1
              && res.0 == if saved.0.Success? then Success(RunSummary(clock, prices, saved.0.value))
                          else Failure(Storage(saved.0.error))
  {
    match GetIndexPrices(tickers, replies)
    case Failure(e) => (Failure(Fetch(e)), rows)
    case Success(prices) =>
      var saved := SavePricesOn(rows, prices, clock);
      match saved.0
      case Failure(e) => (Failure(Storage(e)), saved.1)
      case Success(n) =>
        InsertIgnoringFresh(rows, BatchRows(prices, clock));
        assert forall r :: r in saved.1[|rows|..] ==> r.ticker in tickers by {
          if prices.order != [] {
            forall r | r in saved.1[|rows|..] ensures r.ticker in tickers {
              var i :| 0 <= i < |BatchRows(prices, clock)| && BatchRows(prices, clock)[i] == r;
              assert prices.order[i] in prices.values;
            }
          }
        }
        (Success(RunSummary(clock, prices, n)), saved.1)
  }

  /** After a successful run, every configured ticker is stored at the run's `ts`. */
  lemma SuccessfulRunStoresEveryTicker(rows: seq<PriceRow>, tickers: seq<string>, clock: int, replies: seq<Reply>)
    requires |replies| == |tickers|
    requires RunOnce(rows, tickers, clock, replies).0.Success?
    ensures forall t :: t in tickers ==> HasKey(RunOnce(rows, tickers, clock, replies).1, Key(t, clock))
  {
    SavePricesCovers(rows, GetIndexPrices(tickers, replies).value, clock);
  }

  /** One run against the table. */
  method FetchAndStorePrices(table: PriceTable, tickers: seq<string>, clock: int, replies: seq<Reply>)
    returns (r: Result<RunSummary, TaskError>)
    requires table.Valid() && |replies| == |tickers|
    modifies table
    ensures table.Valid()
    ensures (r, table.rows) == RunOnce(old(table.rows), tickers, clock, replies)
  {
    var ts := clock;
    var fetched := GetIndexPrices(tickers, replies);
    if fetched.Failure? {
      return Failure(Fetch(fetched.error));
    }
    var prices := fetched.value;
    var saved := table.SavePrices(prices, ts);
    if saved.Failure? {
      return Failure(Storage(saved.error));
    }
    r := Success(RunSummary(ts, prices, saved.value));
  }

  /**
   * The Celery task from attempt `k` on (0-based): attempt `k` reads `clocks[k]` and
   * gets `replies[k]`; a retryable failure with retries left starts attempt
   * k + 1. Returns the final outcome, the table and the number of attempts made.
   */
  function Attempts(rows: seq<PriceRow>, tickers: seq<string>, clocks: seq<int>, replies: seq<seq<Reply>>, k: nat)
    : (res: (Result<RunSummary, TaskError>, seq<PriceRow>, nat))
    requires k <= MaxRetries && |clocks| == |replies| == MaxRetries + 1
    requires forall i :: 0 <= i < |replies| ==> |replies[i]| == |tickers|
    decreases MaxRetries - k
    ensures k < res.2 <= MaxRetries + 1
    ensures res.0.Failure? && Retryable(res.0.error) ==> res.2 == MaxRetries + 1
  {
    var once := RunOnce(rows, tickers, clocks[k], replies[k]);
    if once.0.Failure? && Retryable(once.0.error) && k < MaxRetries then
      Attempts(once.1, tickers, clocks, replies, k + 1)
    else (once.0, once.1, k + 1)
  }

  /** The job as Celery runs it: the first attempt and up to `MaxRetries` retries. */
  method FetchAndStoreWithRetry(table: PriceTable, tickers: seq<string>, clocks: seq<int>, replies: seq<seq<Reply>>)
    returns (r: Result<RunSummary, TaskError>, attempts: nat)
    requires table.Valid()
    requires |clocks| == |replies| == MaxRetries + 1
    requires forall i :: 0 <= i < |replies| ==> |replies[i]| == |tickers|
    modifies table
    ensures table.Valid()
    ensures (r, table.rows, attempts) == Attempts(old(table.rows), tickers, clocks, replies, 0)
  {
    r := FetchAndStorePrices(table, tickers, clocks[0], replies[0]);
    attempts := 1;
    while r.Failure? && Retryable(r.error) && attempts <= MaxRetries
      invariant 1 <= attempts <= MaxRetries + 1
      invariant table.Valid()
      invariant Attempts(old(table.rows), tickers, clocks, replies, 0)
             == if r.Failure? && Retryable(r.error) && attempts <= MaxRetries
                then Attempts(table.rows, tickers, clocks, replies, attempts)
                else (r, table.rows, attempts)
      decreases MaxRetries + 1 - attempts
    {
      r := FetchAndStorePrices(table, tickers, clocks[attempts], replies[attempts]);
      attempts := attempts + 1;
    }
  }

  // ---------------------------------------------------------------------------
  // Properties of runs
  // ---------------------------------------------------------------------------

  /**
   * Nothing is kept from the tickers that were fetched before one failed:
   * the failing fetch ends the run before the table is touched.
   */
  lemma FailedFetchWritesNothing(rows: seq<PriceRow>, tickers: seq<string>, clock: int, replies: seq<Reply>, i: nat)
    requires |replies| == |tickers| && i < |tickers|
    requires GetIndexPrice(replies[i]).Failure?
    ensures RunOnce(rows, tickers, clock, replies).0.Failure?
    ensures RunOnce(rows, tickers, clock, replies).1 == rows
  {
    assert FirstFailure(replies) != None;
  }

  /**
   * A second run with the same `ts` saves nothing, whatever prices it
   * fetches, provided the table accepts them: the stored prices stay.
   */
  lemma SecondRunSameTsSavesNothing(rows: seq<PriceRow>, tickers: seq<string>, ts: int, replies1: seq<Reply>, replies2: seq<Reply>)
    requires |replies1| == |tickers| && |replies2| == |tickers|
    requires RunOnce(rows, tickers, ts, replies1).0.Success?
    requires GetIndexPrices(tickers, replies2).Success?
    requires var p := GetIndexPrices(tickers, replies2).value;
             forall k :: k in p.values ==> ValidRow(PriceRow(k, p.values[k], ts))
    ensures var after := RunOnce(rows, tickers, ts, replies1).1;
            var second := RunOnce(after, tickers, ts, replies2);
            second.0.Success? && second.0.value.savedCount == 0 && second.1 == after
  {
    var p1 := GetIndexPrices(tickers, replies1).value;
    var p2 := GetIndexPrices(tickers, replies2).value;
    SavePricesCovers(rows, p1, ts);
    var after := SavePricesOn(rows, p1, ts).1;
    assert forall k :: k in p2.values ==> k in p1.values;
    SavePricesAllPresent(after, p2, ts);
  }

  /** A configured ticker the table does not admit makes every successful fetch end in a rejected write. */
  lemma UnknownTickerRejected(rows: seq<PriceRow>, tickers: seq<string>, clock: int, replies: seq<Reply>, t: string)
    requires |replies| == |tickers| && t in tickers && !ValidTicker(t)
    requires GetIndexPrices(tickers, replies).Success?
    ensures RunOnce(rows, tickers, clock, replies).0.Failure?
    ensures RunOnce(rows, tickers, clock, replies).0.error.Storage?
    ensures RunOnce(rows, tickers, clock, replies).1 == rows
  {
    var p := GetIndexPrices(tickers, replies).value;
    assert t in p.values;
    assert !ValidRow(PriceRow(t, p.values[t], clock));
  }

  /**
   * An error other than `DeribitError`, at any attempt, is raised at once:
   * that attempt is the last, and the table is as the attempt found it.
   */
  lemma NonRetryableNotRetried(rows: seq<PriceRow>, tickers: seq<string>, clocks: seq<int>, replies: seq<seq<Reply>>, k: nat)
    requires k <= MaxRetries && |clocks| == |replies| == MaxRetries + 1
    requires forall i :: 0 <= i < |replies| ==> |replies[i]| == |tickers|
    requires var once := RunOnce(rows, tickers, clocks[k], replies[k]); once.0.Failure? && !Retryable(once.0.error)
    ensures Attempts(rows, tickers, clocks, replies, k) == (RunOnce(rows, tickers, clocks[k], replies[k]).0, rows, k + 1)
  {
  }

  /** The attempt's fetch fails, and with a `DeribitError`. */
  predicate UpstreamFails(tickers: seq<string>, replies: seq<Reply>)
    requires |replies| == |tickers|
  {
    GetIndexPrices(tickers, replies).Failure? && GetIndexPrices(tickers, replies).error.DeribitError?
  }

  /**
   * When the fetch fails with `DeribitError` in every attempt, the Celery task runs
   * exactly `MaxRetries + 1` times, ends with that error and leaves the
   * table as it was.
   */
  lemma {:induction false} PersistentUpstreamFailure(rows: seq<PriceRow>, tickers: seq<string>, clocks: seq<int>, replies: seq<seq<Reply>>, k: nat)
    requires k <= MaxRetries && |clocks| == |replies| == MaxRetries + 1
    requires forall i :: 0 <= i < |replies| ==> |replies[i]| == |tickers|
    requires forall i :: k <= i < |replies| ==> UpstreamFails(tickers, replies[i])
    ensures Attempts(rows, tickers, clocks, replies, k).0.Failure?
    ensures Attempts(rows, tickers, clocks, replies, k).0 == RunOnce(rows, tickers, clocks[MaxRetries], replies[MaxRetries]).0
    ensures Attempts(rows, tickers, clocks, replies, k).1 == rows
    ensures Attempts(rows, tickers, clocks, replies, k).2 == MaxRetries + 1
    decreases MaxRetries - k
  {
    assert UpstreamFails(tickers, replies[k]);
    if k < MaxRetries {
      PersistentUpstreamFailure(rows, tickers, clocks, replies, k + 1);
    }
  }

  /** A run that succeeds after earlier retryable failures writes once, on the table as it was. */
  lemma {:induction false} SuccessAfterRetries(rows: seq<PriceRow>, tickers: seq<string>, clocks: seq<int>, replies: seq<seq<Reply>>, k: nat, s: nat)
    requires k <= s <= MaxRetries && |clocks| == |replies| == MaxRetries + 1
    requires forall i :: 0 <= i < |replies| ==> |replies[i]| == |tickers|
    requires forall i :: k <= i < s ==> UpstreamFails(tickers, replies[i])
    requires RunOnce(rows, tickers, clocks[s], replies[s]).0.Success?
    ensures Attempts(rows, tickers, clocks, replies, k).0 == RunOnce(rows, tickers, clocks[s], replies[s]).0
    ensures Attempts(rows, tickers, clocks, replies, k).1 == RunOnce(rows, tickers, clocks[s], replies[s]).1
    ensures Attempts(rows, tickers, clocks, replies, k).2 == s + 1
    decreases s - k
  {
    if k < s {
      AttemptRetried(rows, tickers, clocks, replies, k);
      SuccessAfterRetries(rows, tickers, clocks, replies, k + 1, s);
    } else {
      AttemptSucceeded(rows, tickers, clocks, replies, k);
    }
  }

  /** An attempt whose fetch fails with `DeribitError` is followed by the next one, on the same table. */
  lemma AttemptRetried(rows: seq<PriceRow>, tickers: seq<string>, clocks: seq<int>, replies: seq<seq<Reply>>, k: nat)
    requires k < MaxRetries && |clocks| == |replies| == MaxRetries + 1
    requires forall i :: 0 <= i < |replies| ==> |replies[i]| == |tickers|
    requires UpstreamFails(tickers, replies[k])
    ensures Attempts(rows, tickers, clocks, replies, k) == Attempts(rows, tickers, clocks, replies, k + 1)
  {
    var once := RunOnce(rows, tickers, clocks[k], replies[k]);
    assert once.1 == rows && once.0.Failure? && Retryable(once.0.error);
  }

  /** A successful attempt is the last one. */
  lemma AttemptSucceeded(rows: seq<PriceRow>, tickers: seq<string>, clocks: seq<int>, replies: seq<seq<Reply>>, k: nat)
    requires k <= MaxRetries && |clocks| == |replies| == MaxRetries + 1
    requires forall i :: 0 <= i < |replies| ==> |replies[i]| == |tickers|
    requires RunOnce(rows, tickers, clocks[k], replies[k]).0.Success?
    ensures var once := RunOnce(rows, tickers, clocks[k], replies[k]);
            Attempts(rows, tickers, clocks, replies, k) == (once.0, once.1, k + 1)
  {
  }

  /**
   * Two configured tickers, the first always fetched and the second always
   * answered with a non-200 status: the Celery task fails after `MaxRetries + 1`
   * attempts and stores nothing, not even the first ticker's price.
   */
  lemma OneTickerDownStoresNothing(rows: seq<PriceRow>, clocks: seq<int>, replies: seq<seq<Reply>>)
    requires |clocks| == |replies| == MaxRetries + 1
    requires forall i :: 0 <= i < |replies| ==> |replies[i]| == 2
    requires forall i :: 0 <= i < |replies| ==> GetIndexPrice(replies[i][0]).Success?
    requires forall i :: 0 <= i < |replies| ==> replies[i][1].Received? && replies[i][1].response.status != 200
    ensures var res := Attempts(rows, ["btc_usd", "eth_usd"], clocks, replies, 0);
            res.0.Failure? && res.0.error == Fetch(DeribitError(HttpStatus(replies[MaxRetries][1].response.status)))
            && res.1 == rows && res.2 == MaxRetries + 1
  {
    var tickers := ["btc_usd", "eth_usd"];
    forall i | 0 <= i < |replies| ensures UpstreamFails(tickers, replies[i]) {
      assert FirstFailure(replies[i]) == Some(1) by {
        assert FirstFailure(replies[i][1..]) == Some(0);
      }
    }
    PersistentUpstreamFailure(rows, tickers, clocks, replies, 0);
    assert FirstFailure(replies[MaxRetries]) == Some(1) by {
      assert FirstFailure(replies[MaxRetries][1..]) == Some(0);
    }
  }
}
