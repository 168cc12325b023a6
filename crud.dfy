/**
 * The store: insert-or-ignore writes on the unique key (ticker, ts) and the
 * three read queries, over a table held as a sequence of rows.
 */
module Crud {
  import opened Wrappers
  import opened Models

  /** Some row of `rows` has key `k`. */
  predicate HasKey(rows: seq<PriceRow>, k: Key)
  {
    exists r :: r in rows && KeyOf(r) == k
  }

  // ---------------------------------------------------------------------------
  // Writes
  // ---------------------------------------------------------------------------

  /** The error that rejects a multi-row INSERT: that of its first invalid row. */
  function BatchError(batch: seq<PriceRow>): (e: Option<DbError>)
    ensures e == None <==> forall r :: r in batch ==> ValidRow(r)
    ensures e != None ==> exists i :: 0 <= i < |batch| && RowError(batch[i]) == e
  {
    if batch == [] then None
    else if RowError(batch[0]) != None then RowError(batch[0])
    else BatchError(batch[1..])
  }

  /**
   * ON CONFLICT (ticker, ts) DO NOTHING over valid rows, row by row: a row
   * whose key is already present (stored before, or inserted earlier in the
   * same statement) is skipped. Returns the new table and the rowcount.
   */
  function InsertIgnoring(rows: seq<PriceRow>, batch: seq<PriceRow>): (res: (seq<PriceRow>, nat))
    decreases |batch|
    ensures |res.0| == |rows| + res.1 && res.1 <= |batch|
    ensures res.0[..|rows|] == rows
  {
    if batch == [] then (rows, 0)
    else if HasKey(rows, KeyOf(batch[0])) then InsertIgnoring(rows, batch[1..])
    else
      var res := InsertIgnoring(rows + [batch[0]], batch[1..]);
      assert res.0[..|rows|] == (rows + [batch[0]])[..|rows|];
      (res.0, res.1 + 1)
  }

  lemma HasKeyGrows(rows: seq<PriceRow>, more: seq<PriceRow>, k: Key)
    requires HasKey(rows, k) && |rows| <= |more| && more[..|rows|] == rows
    ensures HasKey(more, k)
  {
    var r :| r in rows && KeyOf(r) == k;
    var i :| 0 <= i < |rows| && rows[i] == r;
    assert more[i] == r;
  }

  /** After the statement, every key of the batch is present. */
  lemma {:induction false} InsertIgnoringCovers(rows: seq<PriceRow>, batch: seq<PriceRow>)
    ensures forall r :: r in batch ==> HasKey(InsertIgnoring(rows, batch).0, KeyOf(r))
    decreases |batch|
  {
    if batch != [] {
      var b := batch[0];
      var next := if HasKey(rows, KeyOf(b)) then rows else rows + [b];
      assert HasKey(next, KeyOf(b)) by {
        if !HasKey(rows, KeyOf(b)) { assert b in next; }
      }
      InsertIgnoringCovers(next, batch[1..]);
      HasKeyGrows(next, InsertIgnoring(rows, batch).0, KeyOf(b));
      assert forall r :: r in batch ==> r == b || r in batch[1..];
    }
  }

  /** Every inserted row comes from the batch and had a key not stored before. */
  lemma {:induction false} InsertIgnoringFresh(rows: seq<PriceRow>, batch: seq<PriceRow>)
    ensures forall r :: r in InsertIgnoring(rows, batch).0[|rows|..] ==> r in batch && !HasKey(rows, KeyOf(r))
    decreases |batch|
  {
    if batch != [] {
      var b := batch[0];
      var res := InsertIgnoring(rows, batch).0;
      if HasKey(rows, KeyOf(b)) {
        InsertIgnoringFresh(rows, batch[1..]);
      } else {
        var next := rows + [b];
        InsertIgnoringFresh(next, batch[1..]);
        assert res[|rows|..] == [b] + res[|next|..];
        forall r | r in res[|next|..] ensures !HasKey(rows, KeyOf(r)) {
          if HasKey(rows, KeyOf(r)) { HasKeyGrows(rows, next, KeyOf(r)); }
        }
      }
    }
  }

  /** Insert-or-ignore keeps the key (ticker, ts) unique. */
  lemma {:induction false} InsertIgnoringUnique(rows: seq<PriceRow>, batch: seq<PriceRow>)
    ensures UniqueKeys(rows) ==> UniqueKeys(InsertIgnoring(rows, batch).0)
    decreases |batch|
  {
    if batch != [] && UniqueKeys(rows) {
      var b := batch[0];
      if HasKey(rows, KeyOf(b)) {
        InsertIgnoringUnique(rows, batch[1..]);
      } else {
        forall i | 0 <= i < |rows| ensures KeyOf(rows[i]) != KeyOf(b) {
          assert rows[i] in rows;
        }
        InsertIgnoringUnique(rows + [b], batch[1..]);
      }
    }
  }

  /**
   * One INSERT ... ON CONFLICT DO NOTHING statement: rejected as a whole when
   * a row is invalid, otherwise insert-or-ignore.
   */
  function InsertStatement(rows: seq<PriceRow>, batch: seq<PriceRow>): (res: (Result<nat, DbError>, seq<PriceRow>))
    ensures res.0.Failure? <==> exists r :: r in batch && !ValidRow(r)
    ensures res.0.Failure? ==> res.1 == rows
    ensures res.0.Success? ==> |res.1| == |rows| + res.0.value && res.1[..|rows|] == rows
    ensures TableInvariant(rows) ==> TableInvariant(res.1)
  {
    match BatchError(batch)
    case Some(e) => (Failure(e), rows)
    case None =>
      var ins := InsertIgnoring(rows, batch);
      InsertIgnoringFresh(rows, batch);
      InsertIgnoringUnique(rows, batch);
      assert forall r :: r in ins.0 ==> r in rows || r in ins.0[|rows|..] by {
        assert ins.0 == ins.0[..|rows|] + ins.0[|rows|..];
      }
      (Success(ins.1), ins.0)
  }

  /** The rows `save_prices` builds: one per mapping entry, all at `ts`. */
  function BatchRows(prices: PriceMap, ts: int): (batch: seq<PriceRow>)
    ensures |batch| == |prices.order|
    ensures forall i :: 0 <= i < |batch| ==> batch[i] == PriceRow(prices.order[i], prices.values[prices.order[i]], ts)
  {
    seq(|prices.order|, i requires 0 <= i < |prices.order| => PriceRow(prices.order[i], prices.values[prices.order[i]], ts))
  }

  /** `save_price`: the outcome (was a row inserted?) and the new table. */
  function SavePriceOn(rows: seq<PriceRow>, ticker: string, price: Price, ts: int): (res: (Result<bool, DbError>, seq<PriceRow>))
    ensures res.0.Failure? <==> !ValidRow(PriceRow(ticker, price, ts))
    ensures res.0.Failure? ==> res.0.error == RowError(PriceRow(ticker, price, ts)).value && res.1 == rows
    ensures res.0 == Success(false) ==> res.1 == rows
    ensures res.0 == Success(true) ==> res.1 == rows + [PriceRow(ticker, price, ts)]
    ensures TableInvariant(rows) ==> TableInvariant(res.1)
  {
    var row := PriceRow(ticker, price, ts);
    var res := InsertStatement(rows, [row]);
    assert BatchError([row]) == RowError(row);
    InsertIgnoringFresh(rows, [row]);
    match res.0
    case Failure(e) => (Failure(e), res.1)
    case Success(n) => (Success(n == 1), res.1)
  }

  /** `save_prices`: the rowcount and the new table; an empty mapping runs no statement. */
  function SavePricesOn(rows: seq<PriceRow>, prices: PriceMap, ts: int): (res: (Result<nat, DbError>, seq<PriceRow>))
    ensures res.0.Failure? <==> exists k :: k in prices.values && !ValidRow(PriceRow(k, prices.values[k], ts))
    ensures res.0.Failure? ==> res.1 == rows
    ensures res.0.Success? ==> res.0.value <= |prices.order| && |res.1| == |rows| + res.0.value && res.1[..|rows|] == rows
    ensures res.0.Success? ==> forall r :: r in res.1[|rows|..] ==> r.ts == ts && !HasKey(rows, KeyOf(r))
    ensures TableInvariant(rows) ==> TableInvariant(res.1)
  {
    if prices.order == [] then (Success(0), rows)
    else
      var batch := BatchRows(prices, ts);
      assert forall k :: k in prices.values ==> PriceRow(k, prices.values[k], ts) in batch by {
        forall k | k in prices.values ensures PriceRow(k, prices.values[k], ts) in batch {
          var i :| 0 <= i < |prices.order| && prices.order[i] == k;
          assert batch[i] == PriceRow(k, prices.values[k], ts);
        }
      }
      InsertIgnoringFresh(rows, batch);
      InsertStatement(rows, batch)
  }

  /** A statement all of whose keys are already stored changes nothing and counts 0. */
  lemma {:induction false} InsertIgnoringAllPresent(rows: seq<PriceRow>, batch: seq<PriceRow>)
    requires forall r :: r in batch ==> HasKey(rows, KeyOf(r))
    ensures InsertIgnoring(rows, batch) == (rows, 0)
    decreases |batch|
  {
    if batch != [] {
      assert batch[0] in batch;
      InsertIgnoringAllPresent(rows, batch[1..]);
    }
  }

  /** The batch rows whose key is not yet stored, in batch order. */
  function Unseen(rows: seq<PriceRow>, batch: seq<PriceRow>): seq<PriceRow>
  {
    if batch == [] then []
    else if HasKey(rows, KeyOf(batch[0])) then Unseen(rows, batch[1..])
    else [batch[0]] + Unseen(rows, batch[1..])
  }

  lemma {:induction false} UnseenIgnoresOtherKeys(rows: seq<PriceRow>, x: PriceRow, batch: seq<PriceRow>)
    requires forall r :: r in batch ==> KeyOf(r) != KeyOf(x)
    ensures Unseen(rows + [x], batch) == Unseen(rows, batch)
    decreases |batch|
  {
    if batch != [] {
      var b := batch[0];
      assert b in batch;
      assert HasKey(rows + [x], KeyOf(b)) == HasKey(rows, KeyOf(b)) by {
        if HasKey(rows + [x], KeyOf(b)) {
          var r :| r in rows + [x] && KeyOf(r) == KeyOf(b);
          assert r in rows;
        }
        if HasKey(rows, KeyOf(b)) {
          var r :| r in rows && KeyOf(r) == KeyOf(b);
          assert r in rows + [x];
        }
      }
      UnseenIgnoresOtherKeys(rows, x, batch[1..]);
    }
  }

  /**
   * With pairwise distinct keys in the batch (as `save_prices` builds it),
   * the statement appends exactly the batch rows whose key was not stored,
   * in batch order, and the rowcount is their number.
   */
  lemma {:induction false} InsertIgnoringDistinct(rows: seq<PriceRow>, batch: seq<PriceRow>)
    requires UniqueKeys(batch)
    ensures InsertIgnoring(rows, batch).0 == rows + Unseen(rows, batch)
    ensures InsertIgnoring(rows, batch).1 == |Unseen(rows, batch)|
    decreases |batch|
  {
    if batch != [] {
      var b := batch[0];
      assert UniqueKeys(batch[1..]) by {
        forall i, j | 0 <= i < |batch| - 1 && 0 <= j < |batch| - 1 && i != j
          ensures KeyOf(batch[1..][i]) != KeyOf(batch[1..][j])
        {
          assert batch[1..][i] == batch[i + 1] && batch[1..][j] == batch[j + 1];
        }
      }
      if HasKey(rows, KeyOf(b)) {
        InsertIgnoringDistinct(rows, batch[1..]);
        assert Unseen(rows, batch) == Unseen(rows, batch[1..]);
        assert InsertIgnoring(rows, batch) == InsertIgnoring(rows, batch[1..]);
      } else {
        forall r | r in batch[1..] ensures KeyOf(r) != KeyOf(b) {
          var j :| 0 <= j < |batch[1..]| && batch[1..][j] == r;
          assert batch[j + 1] == r;
        }
        UnseenIgnoresOtherKeys(rows, b, batch[1..]);
        InsertIgnoringDistinct(rows + [b], batch[1..]);
        assert Unseen(rows, batch) == [b] + Unseen(rows, batch[1..]);
        assert rows + [b] + Unseen(rows, batch[1..]) == rows + Unseen(rows, batch);
        assert InsertIgnoring(rows, batch).1 == InsertIgnoring(rows + [b], batch[1..]).1 + 1;
        assert InsertIgnoring(rows, batch).0 == InsertIgnoring(rows + [b], batch[1..]).0;
        assert |Unseen(rows, batch)| == |Unseen(rows, batch[1..])| + 1;
      }
    }
  }

  /** Distinct dict keys and one shared ts give pairwise distinct row keys. */
  lemma BatchRowsUnique(prices: PriceMap, ts: int)
    ensures UniqueKeys(BatchRows(prices, ts))
  {
    var batch := BatchRows(prices, ts);
    forall i, j | 0 <= i < |batch| && 0 <= j < |batch| && i != j
      ensures KeyOf(batch[i]) != KeyOf(batch[j])
    {
      if i < j { assert prices.order[i] != prices.order[j]; } else { assert prices.order[j] != prices.order[i]; }
    }
  }

  /**
   * `save_prices` appends exactly the entries whose (ticker, ts) was not
   * stored yet, and returns their number.
   */
  lemma SavePricesCount(rows: seq<PriceRow>, prices: PriceMap, ts: int)
    requires forall k :: k in prices.values ==> ValidRow(PriceRow(k, prices.values[k], ts))
    ensures SavePricesOn(rows, prices, ts)
         == (Success(|Unseen(rows, BatchRows(prices, ts))|), rows + Unseen(rows, BatchRows(prices, ts)))
  {
    var batch := BatchRows(prices, ts);
    BatchRowsUnique(prices, ts);
    InsertIgnoringDistinct(rows, batch);
    assert forall r :: r in batch ==> ValidRow(r) by {
      forall r | r in batch ensures ValidRow(r) {
        var i :| 0 <= i < |batch| && batch[i] == r;
        assert prices.order[i] in prices.values;
      }
    }
  }

  /** A new valid key is inserted: one more row, and `save_price` reports True. */
  lemma SavePriceInserts(rows: seq<PriceRow>, ticker: string, price: Price, ts: int)
    requires ValidRow(PriceRow(ticker, price, ts)) && !HasKey(rows, Key(ticker, ts))
    ensures SavePriceOn(rows, ticker, price, ts) == (Success(true), rows + [PriceRow(ticker, price, ts)])
  {
    var row := PriceRow(ticker, price, ts);
    assert BatchError([row]) == None;
    assert [row][1..] == [];
  }

  /**
   * An existing key is ignored, whatever the new price: `save_price` reports
   * False and the stored row, with its old price, stays as it was.
   */
  lemma SavePriceKeepsExisting(rows: seq<PriceRow>, ticker: string, price: Price, ts: int)
    requires ValidRow(PriceRow(ticker, price, ts)) && HasKey(rows, Key(ticker, ts))
    ensures SavePriceOn(rows, ticker, price, ts) == (Success(false), rows)
  {
    var row := PriceRow(ticker, price, ts);
    assert BatchError([row]) == None;
    assert [row][1..] == [];
  }

  /**
   * A ticker outside the admitted set is an error that rejects the
   * statement, not a silently skipped row -- even a row that fits every
   * column, or fits once its trailing spaces are cut, fails with the check
   * constraint.
   */
  lemma SavePriceRejectsUnknownTicker(rows: seq<PriceRow>, ticker: string, price: Price, ts: int)
    requires !ValidTicker(ticker)
    ensures SavePriceOn(rows, ticker, price, ts).0.Failure?
    ensures SavePriceOn(rows, ticker, price, ts).1 == rows
    ensures !Overlong(ticker) && PriceFits(price) && TsFits(ts)
        ==> SavePriceOn(rows, ticker, price, ts).0 == Failure(CheckViolation)
  {
    if |ticker| > MaxTickerLength && !Overlong(ticker) && PriceFits(price) && TsFits(ts) {
      PaddedTickerFailsCheck(PriceRow(ticker, price, ts));
    }
  }

  /** After a successful `save_prices`, every (ticker, ts) of the mapping is stored. */
  lemma SavePricesCovers(rows: seq<PriceRow>, prices: PriceMap, ts: int)
    requires SavePricesOn(rows, prices, ts).0.Success?
    ensures forall k :: k in prices.values ==> HasKey(SavePricesOn(rows, prices, ts).1, Key(k, ts))
  {
    var batch := BatchRows(prices, ts);
    if prices.order != [] {
      InsertIgnoringCovers(rows, batch);
    }
    forall k | k in prices.values ensures HasKey(SavePricesOn(rows, prices, ts).1, Key(k, ts)) {
      var i :| 0 <= i < |prices.order| && prices.order[i] == k;
      assert batch[i] in batch && KeyOf(batch[i]) == Key(k, ts);
    }
  }

  /**
   * `save_prices` of valid rows whose every (ticker, ts) is already stored
   * reports 0 and changes nothing -- the stored prices are kept.
   */
  lemma SavePricesAllPresent(rows: seq<PriceRow>, prices: PriceMap, ts: int)
    requires forall k :: k in prices.values ==> ValidRow(PriceRow(k, prices.values[k], ts))
    requires forall k :: k in prices.values ==> HasKey(rows, Key(k, ts))
    ensures SavePricesOn(rows, prices, ts) == (Success(0), rows)
  {
    var batch := BatchRows(prices, ts);
    forall r | r in batch ensures ValidRow(r) && HasKey(rows, KeyOf(r)) {
      var i :| 0 <= i < |batch| && batch[i] == r;
      assert prices.order[i] in prices.values;
    }
    if prices.order != [] {
      InsertIgnoringAllPresent(rows, batch);
    }
  }

  /**
   * Calling `save_prices` twice with the same arguments: the second call
   * inserts nothing, reports 0 (or the same error) and leaves the table as
   * the first call left it.
   */
  lemma SavePricesIdempotent(rows: seq<PriceRow>, prices: PriceMap, ts: int)
    ensures var (first, after) := SavePricesOn(rows, prices, ts);
            SavePricesOn(after, prices, ts) == (if first.Success? then Success(0) else first, after)
  {
    var (first, after) := SavePricesOn(rows, prices, ts);
    if prices.order != [] {
      var batch := BatchRows(prices, ts);
      if BatchError(batch) == None {
        InsertIgnoringCovers(rows, batch);
        InsertIgnoringAllPresent(after, batch);
      }
    }
  }

  // ---------------------------------------------------------------------------
  // Reads
  // ---------------------------------------------------------------------------

  predicate SortedByTs(s: seq<PriceRow>)
  {
    forall i, j :: 0 <= i < j < |s| ==> s[i].ts <= s[j].ts
  }

  predicate StrictlyAscending(s: seq<PriceRow>)
  {
    forall i, j :: 0 <= i < j < |s| ==> s[i].ts < s[j].ts
  }

  /** Dropping the first row keeps the keys unique, and its key occurs nowhere else. */
  lemma UniqueTail(s: seq<PriceRow>)
    requires UniqueKeys(s) && s != []
    ensures UniqueKeys(s[1..])
    ensures forall y :: y in s[1..] ==> KeyOf(y) != KeyOf(s[0])
  {
    forall i, j | 0 <= i < |s| - 1 && 0 <= j < |s| - 1 && i != j
      ensures KeyOf(s[1..][i]) != KeyOf(s[1..][j])
    {
      assert s[1..][i] == s[i + 1] && s[1..][j] == s[j + 1];
    }
    forall y | y in s[1..] ensures KeyOf(y) != KeyOf(s[0]) {
      var j :| 0 <= j < |s[1..]| && s[1..][j] == y;
      assert s[j + 1] == y;
    }
  }

  /** Putting a row with a fresh key in front keeps the keys unique. */
  lemma UniqueCons(h: PriceRow, s: seq<PriceRow>)
    requires UniqueKeys(s) && forall y :: y in s ==> KeyOf(y) != KeyOf(h)
    ensures UniqueKeys([h] + s)
  {
    var r := [h] + s;
    forall i, j | 0 <= i < |r| && 0 <= j < |r| && i != j ensures KeyOf(r[i]) != KeyOf(r[j]) {
      if i == 0 { assert r[j] == s[j - 1] && s[j - 1] in s; }
      else if j == 0 { assert r[i] == s[i - 1] && s[i - 1] in s; }
      else { assert r[i] == s[i - 1] && r[j] == s[j - 1]; }
    }
  }

  /** The rows of `s` satisfying `p`, in their order. */
  function Filter(s: seq<PriceRow>, p: PriceRow -> bool): (r: seq<PriceRow>)
    ensures forall x :: x in r <==> x in s && p(x)
  {
    if s == [] then []
    else if p(s[0]) then [s[0]] + Filter(s[1..], p)
    else Filter(s[1..], p)
  }

  lemma {:induction false} FilterUnique(s: seq<PriceRow>, p: PriceRow -> bool)
    requires UniqueKeys(s)
    ensures UniqueKeys(Filter(s, p))
    decreases |s|
  {
    if s != [] {
      UniqueTail(s);
      FilterUnique(s[1..], p);
      if p(s[0]) { UniqueCons(s[0], Filter(s[1..], p)); }
    }
  }

  lemma {:induction false} FilterStrictlyAscending(s: seq<PriceRow>, p: PriceRow -> bool)
    requires StrictlyAscending(s)
    ensures StrictlyAscending(Filter(s, p))
    decreases |s|
  {
    if s != [] {
      assert StrictlyAscending(s[1..]);
      FilterStrictlyAscending(s[1..], p);
      if p(s[0]) {
        var rest := Filter(s[1..], p);
        forall k | 0 <= k < |rest| ensures s[0].ts < rest[k].ts {
          assert rest[k] in s[1..];
          var j :| 0 <= j < |s[1..]| && s[1..][j] == rest[k];
          assert s[j + 1] == rest[k];
        }
      }
    }
  }

  /** Places `x` before the first row with a larger-or-equal ts. */
  function InsertByTs(x: PriceRow, s: seq<PriceRow>): (r: seq<PriceRow>)
    ensures multiset(r) == multiset(s) + multiset{x}
  {
    if s == [] then [x]
    else if x.ts <= s[0].ts then [x] + s
    else
      assert s == [s[0]] + s[1..];
      [s[0]] + InsertByTs(x, s[1..])
  }

  lemma {:induction false} InsertByTsSorted(x: PriceRow, s: seq<PriceRow>)
    requires SortedByTs(s)
    ensures SortedByTs(InsertByTs(x, s))
    decreases |s|
  {
    if s != [] && x.ts > s[0].ts {
      assert SortedByTs(s[1..]);
      InsertByTsSorted(x, s[1..]);
      var rest := InsertByTs(x, s[1..]);
      forall k | 0 <= k < |rest| ensures s[0].ts <= rest[k].ts {
        assert rest[k] in multiset(rest);
        if rest[k] != x {
          assert rest[k] in s[1..];
          var j :| 0 <= j < |s[1..]| && s[1..][j] == rest[k];
          assert s[j + 1] == rest[k];
        }
      }
    }
  }

  /** The rows after the insertion are `x` and the rows of `s`. */
  lemma InsertByTsMembers(x: PriceRow, s: seq<PriceRow>)
    ensures forall y :: y in InsertByTs(x, s) <==> y == x || y in s
  {
    var r := InsertByTs(x, s);
    forall y ensures y in r <==> y == x || y in s {
      assert y in r <==> y in multiset(r);
      assert y in s <==> y in multiset(s);
    }
  }

  lemma {:induction false} InsertByTsUnique(x: PriceRow, s: seq<PriceRow>)
    requires UniqueKeys(s) && forall y :: y in s ==> KeyOf(y) != KeyOf(x)
    ensures UniqueKeys(InsertByTs(x, s))
    decreases |s|
  {
    if s != [] && x.ts > s[0].ts {
      UniqueTail(s);
      InsertByTsUnique(x, s[1..]);
      InsertByTsMembers(x, s[1..]);
      assert s[0] in s;
      UniqueCons(s[0], InsertByTs(x, s[1..]));
    } else {
      UniqueCons(x, s);
    }
  }

  /** A stable insertion sort by ascending ts (ORDER BY ts ASC). */
  function SortByTs(s: seq<PriceRow>): (r: seq<PriceRow>)
    ensures multiset(r) == multiset(s)
    ensures SortedByTs(r)
  {
    if s == [] then []
    else
      assert s == [s[0]] + s[1..];
      InsertByTsSorted(s[0], SortByTs(s[1..]));
      InsertByTs(s[0], SortByTs(s[1..]))
  }

  lemma {:induction false} SortByTsUnique(s: seq<PriceRow>)
    requires UniqueKeys(s)
    ensures UniqueKeys(SortByTs(s))
    decreases |s|
  {
    if s != [] {
      UniqueTail(s);
      SortByTsUnique(s[1..]);
      var sorted := SortByTs(s[1..]);
      forall y | y in sorted ensures KeyOf(y) != KeyOf(s[0]) {
        assert y in multiset(sorted);
        assert y in s[1..];
      }
      InsertByTsUnique(s[0], sorted);
    }
  }

  /** Rows sorted by ts that share one ticker and have unique keys are strictly ascending. */
  lemma SortedUniqueIsStrict(s: seq<PriceRow>, t: string)
    requires SortedByTs(s) && UniqueKeys(s)
    requires forall x :: x in s ==> x.ticker == t
    ensures StrictlyAscending(s)
  {
    forall i, j | 0 <= i < j < |s| ensures s[i].ts < s[j].ts {
      assert s[i] in s && s[j] in s;
      assert KeyOf(s[i]) != KeyOf(s[j]);
    }
  }

  /** `get_prices`: the rows of ticker `t`, ORDER BY ts ASC. */
  function GetPrices(rows: seq<PriceRow>, t: string): (r: seq<PriceRow>)
    ensures forall x :: x in r <==> x in rows && x.ticker == t
    ensures SortedByTs(r)
    ensures UniqueKeys(rows) ==> UniqueKeys(r) && StrictlyAscending(r)
  {
    var sel := Filter(rows, (x: PriceRow) => x.ticker == t);
    var r := SortByTs(sel);
    assert forall x :: x in r <==> x in sel by {
      forall x ensures x in r <==> x in sel { assert x in r <==> x in multiset(r); }
    }
    if UniqueKeys(rows) then
      FilterUnique(rows, (x: PriceRow) => x.ticker == t);
      SortByTsUnique(sel);
      SortedUniqueIsStrict(r, t);
      r
    else r
  }

  /** `get_prices_by_date`: the rows of `t` with fromTs <= ts <= toTs, ORDER BY ts ASC. */
  function GetPricesByDate(rows: seq<PriceRow>, t: string, fromTs: int, toTs: int): (r: seq<PriceRow>)
    ensures forall x :: x in r <==> x in rows && x.ticker == t && fromTs <= x.ts <= toTs
    ensures SortedByTs(r)
    ensures UniqueKeys(rows) ==> UniqueKeys(r) && StrictlyAscending(r)
    ensures fromTs > toTs ==> r == []
  {
    var p := (x: PriceRow) => x.ticker == t && fromTs <= x.ts <= toTs;
    var sel := Filter(rows, p);
    var r := SortByTs(sel);
    assert forall x :: x in r <==> x in sel by {
      forall x ensures x in r <==> x in sel { assert x in r <==> x in multiset(r); }
    }
    assert fromTs > toTs ==> r == [] by {
      if r != [] { assert r[0] in r; }
    }
    if UniqueKeys(rows) then
      FilterUnique(rows, p);
      SortByTsUnique(sel);
      SortedUniqueIsStrict(r, t);
      r
    else r
  }

  /** `get_latest_price`: the row of `t` with the largest ts (ORDER BY ts DESC LIMIT 1). */
  function GetLatestPrice(rows: seq<PriceRow>, t: string): (r: Option<PriceRow>)
    ensures r == None <==> forall x :: x in rows ==> x.ticker != t
    ensures r != None ==> r.value in rows && r.value.ticker == t
    ensures r != None ==> forall x :: x in rows && x.ticker == t ==> x.ts <= r.value.ts
  {
    if rows == [] then None
    else
      assert forall x :: x in rows ==> x == rows[0] || x in rows[1..];
      var rest := GetLatestPrice(rows[1..], t);
      if rows[0].ticker != t then rest
      else match rest
        case None => Some(rows[0])
        case Some(y) => if rows[0].ts > y.ts then Some(rows[0]) else rest
  }

  lemma SameElementsBothEmpty(s: seq<PriceRow>, u: seq<PriceRow>)
    requires forall x :: x in s <==> x in u
    ensures s == [] <==> u == []
  {
    if s != [] { assert s[0] in u; }
    if u != [] { assert u[0] in s; }
  }

  /** Two non-empty strictly ascending sequences with the same elements start alike. */
  lemma StrictHeadsAgree(s: seq<PriceRow>, u: seq<PriceRow>)
    requires StrictlyAscending(s) && StrictlyAscending(u) && s != [] && u != []
    requires forall x :: x in s <==> x in u
    ensures s[0] == u[0]
  {
    assert s[0] in u && u[0] in s;
    var i :| 0 <= i < |u| && u[i] == s[0];
    var j :| 0 <= j < |s| && s[j] == u[0];
    assert s[0].ts <= s[j].ts;
    assert u[0].ts <= u[i].ts;
  }

  /** Their tails then have the same elements too. */
  lemma StrictTailsSameElements(s: seq<PriceRow>, u: seq<PriceRow>)
    requires StrictlyAscending(s) && StrictlyAscending(u) && s != [] && u != []
    requires forall x :: x in s <==> x in u
    requires s[0] == u[0]
    ensures forall x :: x in s[1..] <==> x in u[1..]
  {
    forall x | x in s[1..] ensures x in u[1..] {
      var k :| 0 <= k < |s[1..]| && s[1..][k] == x;
      assert s[k + 1] == x && s[0].ts < x.ts;
      assert x in u;
      var m :| 0 <= m < |u| && u[m] == x;
      assert m != 0 && u[1..][m - 1] == x;
    }
    forall x | x in u[1..] ensures x in s[1..] {
      var k :| 0 <= k < |u[1..]| && u[1..][k] == x;
      assert u[k + 1] == x && u[0].ts < x.ts;
      assert x in s;
      var m :| 0 <= m < |s| && s[m] == x;
      assert m != 0 && s[1..][m - 1] == x;
    }
  }

  /** Two strictly ascending sequences with the same elements are equal. */
  lemma {:induction false} StrictlyAscendingDetermined(s: seq<PriceRow>, u: seq<PriceRow>)
    requires StrictlyAscending(s) && StrictlyAscending(u)
    requires forall x :: x in s <==> x in u
    ensures s == u
    decreases |s|
  {
    SameElementsBothEmpty(s, u);
    if s != [] {
      StrictHeadsAgree(s, u);
      StrictTailsSameElements(s, u);
      assert StrictlyAscending(s[1..]) && StrictlyAscending(u[1..]);
      StrictlyAscendingDetermined(s[1..], u[1..]);
      assert s == [s[0]] + s[1..] && u == [u[0]] + u[1..];
    }
  }

  /**
   * On a table with unique keys, the range query is the ts-window of the
   * full listing for the ticker.
   */
  lemma ByDateIsWindowOfAll(rows: seq<PriceRow>, t: string, fromTs: int, toTs: int)
    requires UniqueKeys(rows)
    ensures GetPricesByDate(rows, t, fromTs, toTs)
         == Filter(GetPrices(rows, t), (x: PriceRow) => fromTs <= x.ts <= toTs)
  {
    var all := GetPrices(rows, t);
    var w := Filter(all, (x: PriceRow) => fromTs <= x.ts <= toTs);
    FilterStrictlyAscending(all, (x: PriceRow) => fromTs <= x.ts <= toTs);
    StrictlyAscendingDetermined(GetPricesByDate(rows, t, fromTs, toTs), w);
  }

  /**
   * On a table with unique keys, the latest row is the last row of the
   * ascending listing, and there is none exactly when the listing is empty.
   */
  lemma LatestIsLastOfAll(rows: seq<PriceRow>, t: string)
    requires UniqueKeys(rows)
    ensures var all := GetPrices(rows, t);
            GetLatestPrice(rows, t) == if all == [] then None else Some(all[|all| - 1])
  {
    var all := GetPrices(rows, t);
    var latest := GetLatestPrice(rows, t);
    if all == [] {
      assert forall x :: x in rows ==> x.ticker != t;
    } else {
      var last := all[|all| - 1];
      assert last in all;
      assert latest != None;
      forall k | 0 <= k < |all| - 1 ensures all[k].ts < last.ts { }
      assert latest.value in all;
      var i :| 0 <= i < |all| && all[i] == latest.value;
      assert latest.value.ts == last.ts;
      KeyDeterminesRow(rows, latest.value, last);
    }
  }

  /** The `prices` table as a mutable object. */
  class PriceTable {
    var rows: seq<PriceRow>

    ghost predicate Valid()
      reads this
    {
      TableInvariant(rows)
    }

    constructor ()
      ensures Valid() && rows == []
    {
      rows := [];
    }

    /** Returns whether a row was inserted; a duplicate key is not an error. */
    method SavePrice(ticker: string, price: Price, ts: int) returns (saved: Result<bool, DbError>)
      requires Valid()
      modifies this
      ensures Valid()
      ensures (saved, rows) == SavePriceOn(old(rows), ticker, price, ts)
    {
      var res := InsertStatement(rows, [PriceRow(ticker, price, ts)]);
      rows := res.1;
      match res.0 {
        case Failure(e) => saved := Failure(e);
        case Success(n) => saved := Success(n == 1);
      }
    }

    /** Returns how many rows were newly inserted. */
    method SavePrices(prices: PriceMap, ts: int) returns (count: Result<nat, DbError>)
      requires Valid()
      modifies this
      ensures Valid()
      ensures (count, rows) == SavePricesOn(old(rows), prices, ts)
    {
      if prices.order == [] {
        return Success(0);
      }
      var res := InsertStatement(rows, BatchRows(prices, ts));
      rows := res.1;
      count := res.0;
    }
  }
}
