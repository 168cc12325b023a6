/**
 * The HTTP query endpoints under /prices: request validation and the
 * mapping of store query results to responses. A query parameter that is
 * absent from the request is None; one that is present has already been
 * read as a string or an integer.
 */
module Routes {
  import opened Wrappers
  import opened Models
  import opened Crud

  /** The query parameters, in the order the handlers declare them. */
  datatype Param = TickerParam | FromTsParam | ToTsParam

  /** One entry of a 422 response: a required parameter is absent, or below its `ge=0` bound. */
  datatype FieldIssue = Missing(param: Param) | LessThanZero(param: Param)

  datatype Response<T> =
    | Ok(body: T)
    | Unprocessable(issues: seq<FieldIssue>)   // 422, every failing parameter listed
    | BadRequest(detail: string)               // 400
    | NotFound(detail: string)                 // 404

  const RangeDetail: string := "from_ts must be <= to_ts"
  const NoDataDetail: string := "No data for this ticker"

  /** Issues of the required `ticker: str = Query(...)`. */
  function TickerIssues(ticker: Option<string>): (issues: seq<FieldIssue>)
    ensures issues == [] <==> ticker.Some?
    ensures forall i :: i in issues ==> i == Missing(TickerParam)
  {
    if ticker == None then [Missing(TickerParam)] else []
  }

  /** Issues of a required `int = Query(..., ge=0)` parameter. */
  function BoundIssues(p: Param, v: Option<int>): (issues: seq<FieldIssue>)
    ensures issues == [] <==> v.Some? && v.value >= 0
    ensures |issues| <= 1
    ensures Missing(p) in issues <==> v == None
    ensures LessThanZero(p) in issues <==> v.Some? && v.value < 0
    ensures forall i :: i in issues ==> i.param == p
  {
    if v == None then [Missing(p)] else if v.value < 0 then [LessThanZero(p)] else []
  }

  /** All issues of the by-date request, the parameters taken in declaration order. */
  function ByDateIssues(ticker: Option<string>, fromTs: Option<int>, toTs: Option<int>): (issues: seq<FieldIssue>)
    ensures issues == [] <==> ticker.Some? && fromTs.Some? && toTs.Some? && fromTs.value >= 0 && toTs.value >= 0
    ensures Missing(TickerParam) in issues <==> ticker == None
    ensures Missing(FromTsParam) in issues <==> fromTs == None
    ensures Missing(ToTsParam) in issues <==> toTs == None
    ensures LessThanZero(FromTsParam) in issues <==> fromTs.Some? && fromTs.value < 0
    ensures LessThanZero(ToTsParam) in issues <==> toTs.Some? && toTs.value < 0
    ensures LessThanZero(TickerParam) !in issues
  {
    TickerIssues(ticker) + BoundIssues(FromTsParam, fromTs) + BoundIssues(ToTsParam, toTs)
  }

  /** `read_prices`: the ticker's rows, oldest first; an empty list when it has none. */
  function ReadPrices(rows: seq<PriceRow>, ticker: Option<string>): (r: Response<seq<PriceRow>>)
    ensures r.Ok? <==> ticker.Some?
    ensures ticker == None ==> r == Unprocessable([Missing(TickerParam)])
    ensures r.Ok? ==> forall x :: x in r.body <==> x in rows && x.ticker == ticker.value
    ensures r.Ok? ==> SortedByTs(r.body)
    ensures r.Ok? && UniqueKeys(rows) ==> StrictlyAscending(r.body)
  {
    match ticker
    case None => Unprocessable(TickerIssues(ticker))
    case Some(t) => Ok(GetPrices(rows, t))
  }

  /** `read_latest_price`: the ticker's newest row, or 404 when there is none. */
  function ReadLatestPrice(rows: seq<PriceRow>, ticker: Option<string>): (r: Response<PriceRow>)
    ensures ticker == None ==> r == Unprocessable([Missing(TickerParam)])
    ensures r == NotFound(NoDataDetail) <==> ticker.Some? && forall x :: x in rows ==> x.ticker != ticker.value
    ensures r.Ok? <==> ticker.Some? && exists x :: x in rows && x.ticker == ticker.value
    ensures r.Ok? ==> r.body in rows && ticker == Some(r.body.ticker)
    ensures r.Ok? ==> forall x :: x in rows && x.ticker == r.body.ticker ==> x.ts <= r.body.ts
    ensures !r.BadRequest?
  {
    match ticker
    case None => Unprocessable(TickerIssues(ticker))
    case Some(t) =>
      match GetLatestPrice(rows, t)
      case None => NotFound(NoDataDetail)
      case Some(item) => Ok(item)
  }

  /**
   * `read_prices_by_date`: parameter validation first (422), then the range
   * check (400), and only then the store query.
   */
  function ReadPricesByDate(rows: seq<PriceRow>, ticker: Option<string>, fromTs: Option<int>, toTs: Option<int>)
    : (r: Response<seq<PriceRow>>)
    ensures r.Unprocessable? <==> ByDateIssues(ticker, fromTs, toTs) != []
    ensures r.Unprocessable? ==> r.issues == ByDateIssues(ticker, fromTs, toTs)
    ensures r == BadRequest(RangeDetail)
        <==> (ByDateIssues(ticker, fromTs, toTs) == [] && fromTs.value > toTs.value)
    ensures r.Ok? <==> ByDateIssues(ticker, fromTs, toTs) == [] && fromTs.value <= toTs.value
    ensures r.Ok? ==> forall x :: x in r.body <==>
              x in rows && x.ticker == ticker.value && fromTs.value <= x.ts <= toTs.value
    ensures r.Ok? ==> SortedByTs(r.body)
    ensures r.Ok? && UniqueKeys(rows) ==> StrictlyAscending(r.body)
    ensures !r.NotFound?
  {
    var issues := ByDateIssues(ticker, fromTs, toTs);
    if issues != [] then Unprocessable(issues)
    else if fromTs.value > toTs.value then BadRequest(RangeDetail)
    else Ok(GetPricesByDate(rows, ticker.value, fromTs.value, toTs.value))
  }

  /** A rejected by-date request never reaches the store: the answer is the same for every table. */
  lemma ByDateRejectionIgnoresStore(rows: seq<PriceRow>, other: seq<PriceRow>,
                                    ticker: Option<string>, fromTs: Option<int>, toTs: Option<int>)
    requires !ReadPricesByDate(rows, ticker, fromTs, toTs).Ok?
    ensures ReadPricesByDate(other, ticker, fromTs, toTs) == ReadPricesByDate(rows, ticker, fromTs, toTs)
  {
  }

  /** The range check is strict: equal bounds are accepted and select the rows at exactly that instant. */
  lemma EqualBoundsAccepted(rows: seq<PriceRow>, t: string, ts: nat)
    ensures var r := ReadPricesByDate(rows, Some(t), Some(ts), Some(ts));
            r.Ok? && forall x :: x in r.body <==> x in rows && x.ticker == t && x.ts == ts
  {
  }

  /** A missing ticker is reported first, ahead of the missing bounds, on an empty by-date request. */
  lemma EmptyByDateRequest(rows: seq<PriceRow>)
    ensures ReadPricesByDate(rows, None, None, None)
         == Unprocessable([Missing(TickerParam), Missing(FromTsParam), Missing(ToTsParam)])
  {
  }

  /** Parameter errors take precedence over the range check: a negative `to_ts` is 422 even when `from_ts > to_ts`. */
  lemma NegativeBoundBeatsRange(rows: seq<PriceRow>, t: string)
    ensures ReadPricesByDate(rows, Some(t), Some(10), Some(-1)) == Unprocessable([LessThanZero(ToTsParam)])
  {
  }

  /** On a table with unique keys the by-date answer is the ticker's full list cut to the window. */
  lemma ByDateAgreesWithReadPrices(rows: seq<PriceRow>, t: string, fromTs: nat, toTs: nat)
    requires UniqueKeys(rows) && fromTs <= toTs
    ensures ReadPricesByDate(rows, Some(t), Some(fromTs), Some(toTs))
         == Ok(Filter(ReadPrices(rows, Some(t)).body, (x: PriceRow) => fromTs <= x.ts <= toTs))
  {
    assert ByDateIssues(Some(t), Some(fromTs), Some(toTs)) == [];
    ByDateIsWindowOfAll(rows, t, fromTs, toTs);
  }

  /** On a table with unique keys the latest row is the last element of the ticker's full list. */
  lemma LatestAgreesWithReadPrices(rows: seq<PriceRow>, t: string)
    requires UniqueKeys(rows)
    ensures var all := ReadPrices(rows, Some(t)).body;
            ReadLatestPrice(rows, Some(t)) == if all == [] then NotFound(NoDataDetail) else Ok(all[|all| - 1])
  {
    LatestIsLastOfAll(rows, t);
  }
}
