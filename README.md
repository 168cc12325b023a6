# Deribit price tracker — a Dafny model

The tracker stores Deribit index prices for a fixed set of tickers
(`btc_usd`, `eth_usd`). A periodic worker task reads the clock once, asks
Deribit's public `get_index_price` endpoint for each configured ticker, and
writes one batch of `(ticker, price, ts)` rows. The batch is written with
PostgreSQL's `INSERT … ON CONFLICT (ticker, ts) DO NOTHING`. A small HTTP API
reads the rows back: the full history of a ticker, its latest price, or a
time window.

The model consists of these modules:

- `Models` (`models.dfy`) is the `prices` table. It covers the row type and
  the constraints PostgreSQL enforces: the unique `(ticker, ts)` index, the
  ticker check constraint, `String(16)`, `Numeric(20, 8)` and `BigInteger`.
  It includes the error a violating row raises.
- `Crud` (`crud.dfy`) holds the store operations.
  - `InsertStatement` is the atomic insert-or-ignore statement. `SavePriceOn`
    and `SavePricesOn` are the two write functions, as functions from the old
    table to the result and the new table.
  - `GetPrices`, `GetLatestPrice` and `GetPricesByDate` are the three queries.
  - The class `PriceTable` holds the table's rows as state. Its methods are
    proved equal to the write functions and keep the table invariant.
- `DeribitClient` (`deribit_client.dfy`) classifies one HTTP reply the way
  `get_index_price` does. It also covers `get_index_prices`: fetch one name
  after another and build an insertion-ordered dict, where the first failure
  aborts the whole call.
- `Tasks` (`tasks.dfy`) is one run of `fetch_and_store_prices` (`RunOnce`, and
  the method `FetchAndStorePrices` on a `PriceTable`). It also covers the
  Celery autoretry on `DeribitError` with `max_retries=5` (`Attempts`, and the
  loop `FetchAndStoreWithRetry`).
- `Config` (`config.dfy`) covers `_parse_csv` (split at commas, `str.strip`
  each piece, drop empty pieces) and `get_settings` with its two rejections.
- `Routes` (`routes.dfy`) covers the three GET handlers.
  - Missing and negative parameters give 422 (`Unprocessable`).
  - `from_ts > to_ts` gives 400.
  - No latest row gives 404.
  - Otherwise a handler passes through the store's result.

Inputs from outside the program are plain parameters:

- the clock value `int(time.time())`;
- the HTTP replies, as a `Reply` per requested name and per attempt;
- the environment variables, as `Option<string>`.

Prices are integers in units of 10^-8 (the scale of `Numeric(20, 8)`).
Timestamps are unbounded integers. The `BigInteger` range is checked
explicitly, as the database does.

Three behaviours of the code are worth stating up front:

- **All or nothing.** A run never stores a partial batch. `get_index_prices`
  is a dict comprehension that raises on the first failure, and the Celery
  task then writes nothing (`app/services/deribit_client.py:49`,
  `worker/tasks.py:35-41`). See `Tasks.FailedFetchWritesNothing` and
  `Tasks.OneTickerDownStoresNothing`.
- **What is retried.** The only retried exception is `DeribitError`. These
  propagate without a retry (`worker/tasks.py:16`):
  - an httpx transport error;
  - `resp.json()` on a body that is not JSON;
  - the `TypeError` or `AttributeError` raised on a body, or a `result`, of the
    wrong JSON type;
  - `Decimal` rejecting the `index_price` value.

  See `DeribitClient.DeribitErrorExactly` and `Tasks.NonRetryableNotRetried`.
- **What the routes call.** The HTTP tests patch a `PriceService` in the
  routes module. The routes call the `crud` query functions directly
  (`app/api/routes.py:5`), so the model connects the handlers to `Crud`.

## Model

| member | source | states |
|---|---|---|
| `Models.ColumnTicker` | app/db/models.py:17 | the `String(16)` column holds at most 16 characters, and changes the value exactly when it is longer |
| `Models.RowError` | app/db/models.py:17-28 | a row is rejected exactly when it breaks a column or check constraint; "value too long" exactly when a character past the sixteenth is not a space; a ticker outside `VALID_TICKERS` is always rejected |
| `Models.PaddedTickerFailsCheck` | app/db/models.py:17-28 | a ticker longer than 16 characters only by trailing spaces is cut to 16 and then fails `check_valid_ticker` |
| `Models.ValidTickersFit` | app/core/tickers.py:3 | every admitted ticker is non-empty and shorter than the column, so no cut value is admitted |
| `Models.KeyDeterminesRow` | app/db/models.py:23 | under the unique `(ticker, ts)` index, two stored rows with the same key are the same row |
| `Crud.BatchError` | app/db/crud.py:37-40 | a multi-row statement is rejected exactly when one of its rows is invalid |
| `Crud.InsertIgnoring` | app/db/crud.py:37-41 | `ON CONFLICT DO NOTHING` only appends, keeps the existing rows as a prefix, and reports one count per appended row |
| `Crud.InsertIgnoringCovers` | app/db/crud.py:37-39 | after the statement, every key of the batch is stored |
| `Crud.InsertIgnoringFresh` | app/db/crud.py:37-39 | every appended row comes from the batch and had a key not stored before |
| `Crud.InsertIgnoringUnique` | app/db/models.py:23 | the insert-or-ignore statement keeps `(ticker, ts)` unique |
| `Crud.InsertStatement` | app/db/crud.py:37-41 | a statement fails exactly when a row is invalid, and then the table is unchanged; on success the table only grows, and the table invariant is kept |
| `Crud.SavePriceOn` | app/db/crud.py:12-25 | `save_price` fails exactly on an invalid row and raises that row's error; `True` appends the row; `False` means no change; the invariant is kept |
| `Crud.SavePricesOn` | app/db/crud.py:28-41 | `save_prices` returns 0 for an empty mapping; it fails exactly when some price's row is invalid, without writing; success may count at most one row per ticker, and every new row has the batch `ts` and a key not stored before |
| `Crud.InsertIgnoringAllPresent` | app/db/crud.py:37-41 | a batch whose keys are all stored changes nothing and counts 0 |
| `Crud.InsertIgnoringDistinct` | app/db/crud.py:37-41 | with distinct batch keys, the statement appends exactly the rows whose keys were not stored, in batch order, and counts them |
| `Crud.BatchRows` | app/db/crud.py:36 | one row per mapping key, in the mapping's order, with that key's price and the batch `ts` |
| `Crud.BatchRowsUnique` | app/db/crud.py:36 | the rows built from a mapping at one `ts` have distinct keys |
| `Crud.SavePricesCount` | app/db/crud.py:36-41 | when every row is valid, `save_prices` returns the number of tickers not yet stored at `ts` and appends exactly those rows |
| `Crud.SavePriceInserts` | app/db/crud.py:19-25 | a valid row with a new key is stored and returns `True` |
| `Crud.SavePriceKeepsExisting` | app/db/crud.py:22-25 | a second price for a stored `(ticker, ts)` returns `False` and the first price stays |
| `Crud.SavePriceRejectsUnknownTicker` | app/db/models.py:17-28 | a ticker outside `VALID_TICKERS` fails the write and leaves the table as it was; it is a check violation when the row otherwise fits, also after trailing spaces are cut |
| `Crud.SavePricesCovers` | app/db/crud.py:36-41 | after a successful `save_prices`, every ticker of the mapping is stored at `ts` |
| `Crud.SavePricesAllPresent` | app/db/crud.py:37-41 | `save_prices` with only stored keys returns 0 and changes nothing |
| `Crud.SavePricesIdempotent` | app/db/crud.py:28-41 | saving the same mapping at the same `ts` twice stores it once; the second call returns 0 |
| `Crud.Filter` | app/db/crud.py:45 | the filter keeps exactly the rows that satisfy the condition |
| `Crud.FilterUnique` | app/db/crud.py:45 | filtering keeps keys unique |
| `Crud.FilterStrictlyAscending` | app/db/crud.py:59-64 | filtering keeps rows in strictly ascending `ts` order |
| `Crud.InsertByTs` | app/db/crud.py:45 | inserting into an ordered list adds exactly that row |
| `Crud.InsertByTsSorted` | app/db/crud.py:45 | inserting into an ascending list keeps it ascending |
| `Crud.SortByTs` | app/db/crud.py:45 | `ORDER BY ts ASC` returns a permutation of its input, sorted by `ts` |
| `Crud.SortByTsUnique` | app/db/crud.py:45 | sorting keeps keys unique |
| `Crud.SortedUniqueIsStrict` | app/db/crud.py:45 | sorted rows of one ticker with unique keys ascend strictly |
| `Crud.GetPrices` | app/db/crud.py:44-45 | `get_prices` returns exactly the ticker's rows, ascending by `ts`; with unique keys, strictly ascending |
| `Crud.GetPricesByDate` | app/db/crud.py:54-66 | `get_prices_by_date` returns exactly the ticker's rows with `from_ts <= ts <= to_ts`, ascending by `ts`; an empty window for `from_ts > to_ts` |
| `Crud.GetLatestPrice` | app/db/crud.py:48-51 | `get_latest_price` is None exactly when the ticker has no row; otherwise it is a row of that ticker with the greatest `ts` |
| `Crud.ByDateIsWindowOfAll` | app/db/crud.py:44-66 | on a table with unique keys, the window query equals the ticker's full history cut to the window |
| `Crud.LatestIsLastOfAll` | app/db/crud.py:44-51 | on a table with unique keys, the latest row is the last row of the ticker's history |
| `Crud.PriceTable.constructor` | app/db/models.py:10-29 | a new table is empty and satisfies the table invariant |
| `Crud.PriceTable.SavePrice` | app/db/crud.py:12-25 | the in-place write returns and leaves what `SavePriceOn` gives, and keeps the invariant |
| `Crud.PriceTable.SavePrices` | app/db/crud.py:28-41 | the in-place batch write returns and leaves what `SavePricesOn` gives, and keeps the invariant |
| `DeribitClient.GetIndexPrice` | app/services/deribit_client.py:27-42 | the guards in their order, each with its outcome: a transport failure; non-200 is `HttpStatus`; a non-JSON body is `DecodeError`; a body that is not an object is `ShapeError`; a truthy `error` is `ApiError`; a missing or null `result`, an object without `index_price`, or a list or string not holding `"index_price"` is `UnexpectedFormat`; a list or string holding it, or a number or bool, is `ShapeError`; an unreadable value is `ConversionError`; success exactly when `result.index_price` is a number or a numeric string, with that price |
| `DeribitClient.DeribitErrorExactly` | app/services/deribit_client.py:30-40 | a call fails with `DeribitError` exactly on a non-200 status, a truthy `error`, or a missing `result` or `index_price` |
| `DeribitClient.Truthy` | app/services/deribit_client.py:35 | Python's `bool()` on a decoded JSON value is false exactly for null, false, 0, `""`, `[]` and `{}` |
| `DeribitClient.FalsyErrorIgnored` | app/services/deribit_client.py:35 | an `error` field that is null, false, 0, empty string, empty list or empty object is treated as absent |
| `DeribitClient.FetchAll` | app/services/deribit_client.py:49 | the calls in turn succeed exactly when every call succeeds, with one price per name, each the price its own call returned |
| `DeribitClient.DictSet` | app/services/deribit_client.py:49 | assigning into the dict sets the value; a new key goes last; an existing key keeps its place |
| `DeribitClient.ToDict` | app/services/deribit_client.py:49 | the comprehension's dict has at most one key per name; its keys, values and order are `ToDictKeys`, `ToDictLastWins` and `ToDictKeysInOrder` |
| `DeribitClient.ToDictKeys` | app/services/deribit_client.py:49 | the comprehension's keys are exactly the requested names |
| `DeribitClient.ToDictLastWins` | app/services/deribit_client.py:49 | a name requested twice maps to the price from its later request |
| `DeribitClient.ToDictKeysInOrder` | app/services/deribit_client.py:49 | distinct names keep their request order as the dict order |
| `DeribitClient.FetchAllStopsAtFirstFailure` | app/services/deribit_client.py:49 | the fetch fails with the first failing name's error; replies after that name have no effect |
| `DeribitClient.GetIndexPrices` | app/services/deribit_client.py:44-49 | `get_index_prices` succeeds exactly when every name is fetched, with exactly the names as keys; otherwise it fails with the first failure's error |
| `DeribitClient.GetIndexPricesValues` | app/services/deribit_client.py:44-49 | each key maps to the price its last request returned |
| `Tasks.RunOnce` | worker/tasks.py:30-53 | a fetch failure is raised before anything is written; a failed run leaves the table unchanged; after a successful fetch the run writes the fetched prices at the clock's `ts` with `save_prices`, raises its storage error, or returns `ts`, the fetched prices and `save_prices`'s count; the table only grows, with rows at that `ts` for configured tickers, and the invariant is kept |
| `Tasks.SuccessfulRunStoresEveryTicker` | worker/tasks.py:35-41 | after a successful run every configured ticker has a row at the run's `ts` |
| `Tasks.FetchAndStorePrices` | worker/tasks.py:21-53 | one run on the table returns and leaves what `RunOnce` gives |
| `Tasks.Retryable` | worker/tasks.py:16 | `autoretry_for=(DeribitError,)`: a storage error, a transport error, a non-JSON body, a body of the wrong JSON type and an unreadable price are exactly the failures not retried |
| `Tasks.Attempts` | worker/tasks.py:14-20 | the Celery task makes at least one and at most six attempts (one plus `max_retries=5`); a final `DeribitError` means all six were made |
| `Tasks.AttemptRetried` | worker/tasks.py:14-17 | an attempt failing with `DeribitError` while retries are left is followed by the next attempt, on the unchanged table |
| `Tasks.AttemptSucceeded` | worker/tasks.py:14-20 | a successful attempt ends the Celery task with that attempt's outcome |
| `Tasks.FetchAndStoreWithRetry` | worker/tasks.py:14-53 | the retry loop returns and leaves exactly what `Attempts` gives |
| `Tasks.FailedFetchWritesNothing` | worker/tasks.py:35-41 | one failing ticker fails the run and stores no price, not even those already fetched |
| `Tasks.SecondRunSameTsSavesNothing` | worker/tasks.py:30-41 | a second run at the same `ts` saves 0 rows and keeps the first prices |
| `Tasks.UnknownTickerRejected` | worker/tasks.py:40-41 | a configured ticker outside the check constraint fails every fetched run with a storage error and writes nothing |
| `Tasks.NonRetryableNotRetried` | worker/tasks.py:14-17 | a failure other than `DeribitError`, at any attempt, ends the Celery task at that attempt, with the table as that attempt found it |
| `Tasks.PersistentUpstreamFailure` | worker/tasks.py:14-20 | when Deribit fails in every attempt, the Celery task makes six attempts, ends with the last attempt's error and writes nothing |
| `Tasks.SuccessAfterRetries` | worker/tasks.py:14-20 | a first success after retryable failures is written once, on the unchanged table, after `s + 1` attempts |
| `Tasks.OneTickerDownStoresNothing` | worker/tasks.py:33-50 | with two tickers and the second always answered non-200, the Celery task ends after six attempts with `HttpStatus` and stores nothing |
| `Config.Strip` | app/core/config.py:24 | `str.strip()` never lengthens its input and maps `""` to `""`; its full contract is `StripIsSlice`, `StripDropsOnlySpaces` and `StripTrims` |
| `Config.IsSpace` | app/core/config.py:24 | the characters `str.isspace` accepts, which `str.strip()` removes: space, tab and newline among them, and never a comma, an underscore, an ASCII letter or a digit |
| `Config.StripTrims` | app/core/config.py:24 | the result of `str.strip()` has no whitespace at either end |
| `Config.StripIsSlice` | app/core/config.py:24 | `str.strip()` returns the contiguous part of its input between the leading and the trailing whitespace |
| `Config.StripDropsOnlySpaces` | app/core/config.py:24 | everything `str.strip()` drops is whitespace |
| `Config.StripStripped` | app/core/config.py:24 | stripping a string that is already stripped changes nothing |
| `Config.Split` | app/core/config.py:24 | `split(",")` gives at least one piece, also for the empty string |
| `Config.CommaIndexFinds` | app/core/config.py:24 | the split point is the first comma, and there is none exactly when the input has no comma |
| `Config.SplitPieces` | app/core/config.py:24 | no piece contains a comma, and joining the pieces with commas gives the input back |
| `Config.Join` | app/core/config.py:24 | `",".join` starts with the first item, followed by a comma when more items follow; `SplitJoin` and `SplitPieces` make it the inverse of `split(",")` |
| `Config.SplitJoin` | app/core/config.py:24 | splitting comma-free items joined with commas gives the items back |
| `Config.SplitCommaFree` | app/core/config.py:24 | a string without commas splits into itself |
| `Config.SplitConcat` | app/core/config.py:24 | splitting `a,b` gives the pieces of `a` followed by the pieces of `b` |
| `Config.Clean` | app/core/config.py:24-25 | the two comprehensions keep at most one item per piece; each piece gives its stripped content, or nothing when that is empty (`ParseCsvPiece`, `CleanConcat`), and already clean items are kept as they are (`CleanClean`) |
| `Config.CleanItems` | app/core/config.py:24-25 | every kept item is non-empty and stripped |
| `Config.CleanCommaFree` | app/core/config.py:24-25 | cleaning comma-free pieces gives comma-free items |
| `Config.CleanConcat` | app/core/config.py:25 | cleaning distributes over concatenation, so the order is kept |
| `Config.CleanClean` | app/core/config.py:24-25 | items that are already clean are kept as they are |
| `Config.ParseCsv` | app/core/config.py:23-25 | every parsed item is non-empty, stripped and comma-free |
| `Config.ParseCsvConcat` | app/core/config.py:23-25 | the items of `a,b` are the items of `a` followed by those of `b` |
| `Config.ParseCsvPiece` | app/core/config.py:23-25 | a value without commas gives its `str.strip()` content, or no item when that is empty; with `ParseCsvConcat` this fixes the result on every value |
| `Config.PaddedName` | app/core/config.py:23-25 | a name with whitespace on either side is kept as the name itself |
| `Config.SpacedPair` | app/core/config.py:23-25 | two names with whitespace after the comma, as in `"btc_usd, eth_usd"`, parse to both names in order |
| `Config.ParseCsvJoinRoundTrip` | app/core/config.py:23-25 | joining the parsed items with commas and parsing again gives the same items |
| `Config.DefaultTickersParse` | app/core/config.py:41-42 | the default `"btc_usd,eth_usd"` parses to the two tickers in order |
| `Config.TwoTickers` | app/core/config.py:23-25 | two names of lower-case letters and underscores, joined by a comma, parse to those two names |
| `Config.OneTicker` | app/core/config.py:23-25 | one name of lower-case letters and underscores parses to itself |
| `Config.BlankParsesEmpty` | app/core/config.py:23-25 | a value of whitespace only has no items |
| `Config.BlankListsAreEmpty` | app/core/config.py:42-44 | an empty list, and one of blanks and commas only, parse to no tickers |
| `Config.GetEnv` | app/core/config.py:41-50 | `os.getenv(name, default)` gives the default only for an unset variable; a set variable, even an empty one, gives its own value |
| `Config.GetSettings` | app/core/config.py:28-52 | rejects exactly a missing or empty `DATABASE_URL`, then exactly an empty ticker list; otherwise returns the URL, the parsed tickers (the two defaults when `TICKERS` is unset) and each other variable or its default |
| `Routes.TickerIssues` | app/api/routes.py:23 | the required `ticker: str = Query(...)` is reported missing exactly when absent, and never otherwise |
| `Routes.BoundIssues` | app/api/routes.py:24-25 | a required `int = Query(..., ge=0)` has at most one issue, about itself: missing exactly when absent, below zero exactly when negative |
| `Routes.ByDateIssues` | app/api/routes.py:22-26 | every missing parameter and every negative bound is reported, and nothing else |
| `Routes.ReadPrices` | app/api/routes.py:10-12 | a missing ticker is 422; otherwise returns exactly the ticker's rows in ascending `ts` order, possibly none |
| `Routes.ReadLatestPrice` | app/api/routes.py:14-19 | a missing ticker is 422; 404 "No data for this ticker" exactly when the ticker has no row; otherwise returns its row with the greatest `ts` |
| `Routes.ReadPricesByDate` | app/api/routes.py:21-30 | 422 exactly on parameter issues, listing them; 400 "from_ts must be <= to_ts" exactly when the bounds are valid and reversed; otherwise returns exactly the ticker's rows in the window, ascending |
| `Routes.ByDateRejectionIgnoresStore` | app/api/routes.py:28-30 | a rejected request does not depend on the table: the store is not queried |
| `Routes.EqualBoundsAccepted` | app/api/routes.py:28 | `from_ts == to_ts` is accepted and selects the rows at that instant |
| `Routes.EmptyByDateRequest` | app/api/routes.py:23-25 | a by-date request without parameters reports all three, in declaration order |
| `Routes.NegativeBoundBeatsRange` | app/api/routes.py:24-29 | a negative bound is 422 even when `from_ts > to_ts` |
| `Routes.ByDateAgreesWithReadPrices` | app/api/routes.py:10-30 | on a table with unique keys, the by-date answer is the ticker's full list cut to the window |
| `Routes.LatestAgreesWithReadPrices` | app/api/routes.py:10-19 | on a table with unique keys, the latest row is the last element of the ticker's full list, and 404 exactly when that list is empty |

## Left out

- HTTP transport: the `httpx` client, the timeout, the URL and its query
  string. A call is either a `TransportFailure` or a received `Response`.
- How the JSON body decodes. The body is classified only as far as the
  guards look at it:
  - not JSON, JSON that is not an object, or an object;
  - for `result`: missing or null, an object with or without `index_price`,
    a list or string that does or does not hold `"index_price"` under `in`,
    or a number or bool, on which `in` raises;
  - for `index_price`: a number, or a numeric string, is an integer count of
    10^-8 units; any other value is one `Unreadable` case.
- An `index_price` that `Decimal` reads as `NaN` or an infinity is not
  modelled, nor is what the database does with it.
- `Decimal` arithmetic and PostgreSQL's rounding of extra fractional digits.
  Prices are already at the column's scale.
- The `id` primary key and its autoincrement. Rows are told apart by
  `(ticker, ts)`.
- Which error PostgreSQL raises when a batch has several invalid rows, or a
  row breaks several constraints, is not modelled. The model reports the
  first invalid row's error, checking length, numeric, bigint and the check
  constraint in that order.
- The transaction and session. `worker/tasks.py:6` imports `get_db_context`,
  but `app/db/deps.py` defines only `get_db`, so how a session is opened and
  closed is not part of this model. The model assumes that a successful
  statement takes effect at once and that a failing statement leaves the
  table unchanged.
- Concurrency: parallel task runs and API reads during a write.
- Celery's exponential backoff and jitter: delays between attempts are not
  modelled, only their count.
- The Beat schedule and the broker are not modelled. Attempt `k` reads its
  own clock, which is the input `clocks[k]`.
- Logging, the returned summary's serialisation, and any process-level fault
  (for example, the database being unreachable).
- FastAPI itself: routing, `response_model` serialisation, conversion of
  query strings to `int`. A query string that is not an integer is also 422
  in FastAPI; the model takes the parameters already converted.
- `app/services/prices_service.py`: the routes module does not use it.
- `str.isspace` is modelled by the code points Python treats as whitespace.
  No other Unicode processing is done.
- `load_dotenv` and the `lru_cache` on `get_settings`. The environment is an
  input, and each call reads it afresh.
- `/health` and application start-up: not part of this model.
