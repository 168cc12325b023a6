/**
 * The `prices` table: one row per (ticker, ts) observation, with the column
 * types and table constraints the schema declares.
 */
module Models {
  import opened Wrappers

  /** A price as an integer number of 1e-8 units (a NUMERIC with scale 8). */
  type Price = int

  /** The tickers the check constraint admits. */
  const ValidTickers: seq<string> := ["btc_usd", "eth_usd"]

  /** `String(16)`: the longest ticker the column stores. */
  const MaxTickerLength: nat := 16

  /** `Numeric(20, 8)`: 20 digits in all, so a magnitude below 10^20 units of 1e-8. */
  const PriceBound: int := 100_000_000_000_000_000_000

  /** `BigInteger`: a signed 64-bit integer. */
  const MinBigInt: int := -0x8000_0000_0000_0000
  const MaxBigInt: int := 0x7fff_ffff_ffff_ffff

  /** One stored observation (the surrogate `id` column is not modelled). */
  datatype PriceRow = PriceRow(ticker: string, price: Price, ts: int)

  /** The unique key of a row. */
  datatype Key = Key(ticker: string, ts: int)

  function KeyOf(r: PriceRow): Key { Key(r.ticker, r.ts) }

  /**
   * A Python dict from ticker to price: its keys in insertion order, and the
   * value of each key.
   */
  datatype Dict = Dict(order: seq<string>, values: map<string, Price>)

  /** No name occurs twice. */
  predicate Distinct(s: seq<string>)
  {
    forall i, j :: 0 <= i < j < |s| ==> s[i] != s[j]
  }

  predicate DictInvariant(d: Dict)
  {
    && Distinct(d.order)
    && (forall k :: k in d.values ==> k in d.order)
    && (forall k :: k in d.order ==> k in d.values)
  }

  type PriceMap = d: Dict | DictInvariant(d) witness Dict([], map[])

  const EmptyMap: PriceMap := Dict([], map[])

  /** Why the database rejects an INSERT statement. */
  datatype DbError =
    | StringTooLong      // value too long for character varying(16)
    | NumericOverflow    // numeric field overflow
    | BigIntOutOfRange   // bigint out of range
    | CheckViolation     // violates check constraint "check_valid_ticker"

  predicate ValidTicker(t: string) { t in ValidTickers }

  predicate PriceFits(p: Price) { -PriceBound < p < PriceBound }

  predicate TsFits(ts: int) { MinBigInt <= ts <= MaxBigInt }

  /** Every column constraint and the check constraint hold of `r`. */
  predicate ValidRow(r: PriceRow)
  {
    |r.ticker| <= MaxTickerLength && PriceFits(r.price) && TsFits(r.ts) && ValidTicker(r.ticker)
  }

  /**
   * `character varying(16)` rejects a longer value unless every character
   * past the sixteenth is a space.
   */
  predicate Overlong(t: string)
  {
    |t| > MaxTickerLength && exists i :: MaxTickerLength <= i < |t| && t[i] != ' '
  }

  /** The value the ticker column holds: trailing spaces past the sixteenth character are cut off. */
  function ColumnTicker(t: string): (c: string)
    ensures |c| <= MaxTickerLength
    ensures c == t <==> |t| <= MaxTickerLength
  {
    if |t| > MaxTickerLength then t[..MaxTickerLength] else t
  }

  /**
   * The error the database raises for a row: the column types are checked
   * first, in column order, and the check constraint last, on the value the
   * ticker column holds.
   */
  function RowError(r: PriceRow): (e: Option<DbError>)
    ensures e == None <==> ValidRow(r)
    ensures e == Some(StringTooLong) <==> Overlong(r.ticker)
    ensures e == Some(CheckViolation) ==> !ValidTicker(r.ticker)
    ensures !ValidTicker(r.ticker) ==> e != None
  {
    if Overlong(r.ticker) then Some(StringTooLong)
    else if !PriceFits(r.price) then Some(NumericOverflow)
    else if !TsFits(r.ts) then Some(BigIntOutOfRange)
    else if !ValidTicker(ColumnTicker(r.ticker)) then Some(CheckViolation)
    else
      ValidTickersFit(ColumnTicker(r.ticker));
      None
  }

  /** A ticker padded with spaces past the column's length is cut, and then fails the check constraint. */
  lemma PaddedTickerFailsCheck(r: PriceRow)
    requires |r.ticker| > MaxTickerLength && !Overlong(r.ticker)
    requires PriceFits(r.price) && TsFits(r.ts)
    ensures RowError(r) == Some(CheckViolation)
  {
    if ValidTicker(ColumnTicker(r.ticker)) {
      ValidTickersFit(ColumnTicker(r.ticker));
      assert false;
    }
  }

  /** The unique index `uq_prices_ticker_ts`: no two rows share (ticker, ts). */
  predicate UniqueKeys(rows: seq<PriceRow>)
  {
    forall i, j :: 0 <= i < |rows| && 0 <= j < |rows| && i != j ==> KeyOf(rows[i]) != KeyOf(rows[j])
  }

  /** Everything the schema guarantees about the stored rows. */
  predicate TableInvariant(rows: seq<PriceRow>)
  {
    UniqueKeys(rows) && forall r :: r in rows ==> ValidRow(r)
  }

  /** Every ticker the check constraint admits is shorter than the column, so never a cut value. */
  lemma ValidTickersFit(t: string)
    requires ValidTicker(t)
    ensures 0 < |t| < MaxTickerLength
  {
  }

  /** On a table satisfying the invariant, a key identifies at most one row. */
  lemma KeyDeterminesRow(rows: seq<PriceRow>, x: PriceRow, y: PriceRow)
    requires UniqueKeys(rows) && x in rows && y in rows && KeyOf(x) == KeyOf(y)
    ensures x == y
  {
    var i :| 0 <= i < |rows| && rows[i] == x;
    var j :| 0 <= j < |rows| && rows[j] == y;
  }
}
