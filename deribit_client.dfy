/**
 * The upstream client: classifying one `public/get_index_price` reply, and
 * fetching several index names one after another into a mapping.
 */
module DeribitClient {
  import opened Wrappers
  import opened Models

  /** A decoded JSON value, as far as Python truthiness needs it. */
  datatype Json =
    | Null
    | Bool(b: bool)
    | Number(n: real)
    | Str(s: string)
    | Array(items: seq<Json>)
    | Object(members: seq<(string, Json)>)

  /** Python's `bool(value)` on a decoded JSON value. */
  predicate Truthy(j: Json)
    ensures !Truthy(j) <==> j in {Null, Bool(false), Number(0.0), Str(""), Array([]), Object([])}
  {
    match j
    case Null => false
    case Bool(b) => b
    case Number(n) => n != 0.0
    case Str(s) => s != ""
    case Array(items) => items != []
    case Object(members) => members != []
  }

  /** The `index_price` value as `Decimal(str(value))` reads it. */
  datatype IndexValue =
    | Finite(price: Price)   // a number or a numeric string
    | Unreadable             // null, a bool, a list, an object or another string: `Decimal` raises

  /** The `result` value, as far as the `"index_price" not in result` test needs it. */
  datatype ResultBody =
    | ResultObject(indexPrice: Option<IndexValue>)   // an object; None when it has no `index_price` key
    | ResultSequence(holdsKey: bool)                  // a list or a string: `in` is membership or substring
    | ResultScalar                                    // a number or a bool, on which `in` raises

  /**
   * A response body: not JSON at all; JSON that is not an object (null, a
   * list, a string, a number or a bool); or an object whose `error` key is
   * absent (None) or holds a value, and whose `result` is missing or null
   * (None) or some other value.
   */
  datatype Body =
    | NotJson
    | NotObject
    | JsonObject(error: Option<Json>, result: Option<ResultBody>)

  datatype Response = Response(status: int, body: Body)

  /** What one HTTP call gives: no response at all, or a response. */
  datatype Reply = TransportFailure | Received(response: Response)

  /** The three raise sites of `DeribitError`. */
  datatype DeribitFailure =
    | HttpStatus(code: int)      // status other than 200
    | ApiError(error: Json)      // a truthy `error` field
    | UnexpectedFormat           // no `result`, or no `index_price` in it

  /** Why a fetch fails: `DeribitError`, or another exception that escapes the client. */
  datatype FetchError =
    | DeribitError(failure: DeribitFailure)
    | TransportError             // an httpx exception raised by the call itself
    | DecodeError                // `resp.json()` on a body that is not JSON
    | ShapeError                 // TypeError or AttributeError: a body or `result` of the wrong JSON type
    | ConversionError            // `Decimal` rejects the `index_price` value

  /** A 200 reply whose body is an object with a falsy or missing `error`: the `result` test is reached. */
  predicate ReachesResult(reply: Reply)
  {
    reply.Received? && reply.response.status == 200 && reply.response.body.JsonObject?
    && !(reply.response.body.error.Some? && Truthy(reply.response.body.error.value))
  }

  /** The guards of `get_index_price`, in order: HTTP status, body, `error`, `result`. */
  function GetIndexPrice(reply: Reply): (r: Result<Price, FetchError>)
    ensures r == Failure(TransportError) <==> reply.TransportFailure?
    ensures reply.Received? && reply.response.status != 200
        ==> r == Failure(DeribitError(HttpStatus(reply.response.status)))
    ensures reply.Received? && reply.response.status == 200 && reply.response.body.NotJson?
        ==> r == Failure(DecodeError)
    ensures reply.Received? && reply.response.status == 200 && reply.response.body.NotObject?
        ==> r == Failure(ShapeError)
    ensures reply.Received? && reply.response.status == 200 && reply.response.body.JsonObject?
          && reply.response.body.error.Some? && Truthy(reply.response.body.error.value)
        ==> r == Failure(DeribitError(ApiError(reply.response.body.error.value)))
    ensures ReachesResult(reply)
          && (reply.response.body.result.None?
              || reply.response.body.result.value == ResultObject(None)
              || reply.response.body.result.value == ResultSequence(false))
        ==> r == Failure(DeribitError(UnexpectedFormat))
    ensures ReachesResult(reply) && reply.response.body.result.Some?
          && (reply.response.body.result.value == ResultSequence(true)
              || reply.response.body.result.value == ResultScalar)
        ==> r == Failure(ShapeError)
    ensures ReachesResult(reply) && reply.response.body.result == Some(ResultObject(Some(Unreadable)))
        ==> r == Failure(ConversionError)
    ensures r.Success? <==>
              ReachesResult(reply) && reply.response.body.result.Some?
              && reply.response.body.result.value.ResultObject?
              && reply.response.body.result.value.indexPrice.Some?
              && reply.response.body.result.value.indexPrice.value.Finite?
    ensures r.Success? ==> r.value == reply.response.body.result.value.indexPrice.value.price
  {
    match reply
    case TransportFailure => Failure(TransportError)
    case Received(resp) =>
      if resp.status != 200 then Failure(DeribitError(HttpStatus(resp.status)))
      else match resp.body
        case NotJson => Failure(DecodeError)
        case NotObject => Failure(ShapeError)
        case JsonObject(error, result) =>
          if error.Some? && Truthy(error.value) then Failure(DeribitError(ApiError(error.value)))
          else match result
            case None => Failure(DeribitError(UnexpectedFormat))
            case Some(ResultSequence(holdsKey)) =>
              if holdsKey then Failure(ShapeError) else Failure(DeribitError(UnexpectedFormat))
            case Some(ResultScalar) => Failure(ShapeError)
            case Some(ResultObject(index)) =>
              match index
              case None => Failure(DeribitError(UnexpectedFormat))
              case Some(Unreadable) => Failure(ConversionError)
              case Some(Finite(p)) => Success(p)
  }

  /**
   * Of the failures of one call, exactly the format problems the code checks
   * for itself are `DeribitError`: a non-200 status, a truthy `error`, and a
   * missing `result` or `index_price`.
   */
  lemma DeribitErrorExactly(reply: Reply)
    ensures GetIndexPrice(reply).Failure? && GetIndexPrice(reply).error.DeribitError?
        <==> reply.Received?
             && (reply.response.status != 200
                 || (reply.response.body.JsonObject?
                     && ((reply.response.body.error.Some? && Truthy(reply.response.body.error.value))
                         || reply.response.body.result.None?
                         || reply.response.body.result.value == ResultObject(None)
                         || reply.response.body.result.value == ResultSequence(false))))
  {
  }

  /** A falsy `error` field (null, false, 0, "", [], {}) is as good as no field. */
  lemma FalsyErrorIgnored(status: int, e: Json, result: Option<ResultBody>)
    requires !Truthy(e)
    ensures GetIndexPrice(Received(Response(status, JsonObject(Some(e), result))))
         == GetIndexPrice(Received(Response(status, JsonObject(None, result))))
  {
  }

  // ---------------------------------------------------------------------------
  // get_index_prices
  // ---------------------------------------------------------------------------

  /** `d[k] = v` on an insertion-ordered dict: a present key keeps its place. */
  function DictSet(d: PriceMap, k: string, v: Price): (r: PriceMap)
    ensures r.values == d.values[k := v]
    ensures r.order == if k in d.values then d.order else d.order + [k]
  {
    if k in d.values then Dict(d.order, d.values[k := v])
    else Dict(d.order + [k], d.values[k := v])
  }

  /** The dict built by setting `names[i]: prices[i]` for i = 0, 1, ... in turn. */
  function ToDict(names: seq<string>, prices: seq<Price>): (d: PriceMap)
    requires |names| == |prices|
    ensures |d.order| <= |names|
  {
    if names == [] then EmptyMap
    else
      var n := |names| - 1;
      DictSet(ToDict(names[..n], prices[..n]), names[n], prices[n])
  }

  /** The comprehension's keys are exactly the names. */
  lemma {:induction false} ToDictKeys(names: seq<string>, prices: seq<Price>)
    requires |names| == |prices|
    ensures forall k :: k in ToDict(names, prices).values <==> k in names
    decreases |names|
  {
    if names != [] {
      var n := |names| - 1;
      ToDictStep(names, prices);
      ToDictKeys(names[..n], prices[..n]);
      assert names == names[..n] + [names[n]];
    }
  }

  /** One step of the comprehension: the last pair is set on the dict of the others. */
  lemma ToDictStep(names: seq<string>, prices: seq<Price>)
    requires |names| == |prices| && names != []
    ensures ToDict(names, prices).values
         == ToDict(names[..|names| - 1], prices[..|names| - 1]).values[names[|names| - 1] := prices[|names| - 1]]
  {
  }

  /** Every name maps to the price of its last occurrence. */
  lemma {:induction false} ToDictLastWins(names: seq<string>, prices: seq<Price>, i: nat)
    requires |names| == |prices| && i < |names|
    requires forall j :: i < j < |names| ==> names[j] != names[i]
    ensures names[i] in ToDict(names, prices).values
    ensures ToDict(names, prices).values[names[i]] == prices[i]
    decreases |names|
  {
    var n := |names| - 1;
    ToDictStep(names, prices);
    if i < n {
      var pre, pps := names[..n], prices[..n];
      assert pre[i] == names[i] && pps[i] == prices[i];
      forall j | i < j < n ensures pre[j] != pre[i] { assert pre[j] == names[j]; }
      ToDictLastWins(pre, pps, i);
      assert names[n] != names[i];
    }
  }

  /** Dropping the last name of a distinct list keeps it distinct, and that name is not in the rest. */
  lemma DistinctInit(s: seq<string>)
    requires Distinct(s) && s != []
    ensures Distinct(s[..|s| - 1]) && s[|s| - 1] !in s[..|s| - 1]
  {
    var n := |s| - 1;
    forall j | 0 <= j < n ensures s[..n][j] != s[n] { assert s[..n][j] == s[j]; }
  }

  /** With distinct names the dict's keys are the names, in their order. */
  lemma {:induction false} ToDictKeysInOrder(names: seq<string>, prices: seq<Price>)
    requires |names| == |prices| && Distinct(names)
    ensures ToDict(names, prices).order == names
    decreases |names|
  {
    if names != [] {
      var n := |names| - 1;
      var pre, pps := names[..n], prices[..n];
      assert names == pre + [names[n]];
      DistinctInit(names);
      ToDictKeysInOrder(pre, pps);
      ToDictKeys(pre, pps);
      assert names[n] !in ToDict(pre, pps).values;
    }
  }

  /**
   * Fetches the names one after another; the first failure ends the
   * comprehension, and later names are not fetched. `replies[i]` is what
   * the i-th call would get.
   */
  function FetchAll(replies: seq<Reply>): (r: Result<seq<Price>, FetchError>)
    ensures r.Success? <==> forall i :: 0 <= i < |replies| ==> GetIndexPrice(replies[i]).Success?
    ensures r.Success? ==> |r.value| == |replies|
    ensures r.Success? ==> forall i :: 0 <= i < |replies| ==> r.value[i] == GetIndexPrice(replies[i]).value
  {
    if replies == [] then Success([])
    else match GetIndexPrice(replies[0])
      case Failure(e) => Failure(e)
      case Success(p) =>
        match FetchAll(replies[1..])
        case Failure(e) =>
          assert forall i :: 1 <= i < |replies| ==> replies[i] == replies[1..][i - 1];
          Failure(e)
        case Success(ps) =>
          assert forall i :: 1 <= i < |replies| ==> replies[i] == replies[1..][i - 1];
          Success([p] + ps)
  }

  /** The index of the first reply that fails, if any. */
  function FirstFailure(replies: seq<Reply>): (k: Option<nat>)
    ensures k == None <==> forall i :: 0 <= i < |replies| ==> GetIndexPrice(replies[i]).Success?
    ensures k != None ==> k.value < |replies| && GetIndexPrice(replies[k.value]).Failure?
    ensures k != None ==> forall i :: 0 <= i < k.value ==> GetIndexPrice(replies[i]).Success?
  {
    if replies == [] then None
    else if GetIndexPrice(replies[0]).Failure? then Some(0)
    else match FirstFailure(replies[1..])
      case None =>
        assert forall i :: 1 <= i < |replies| ==> replies[i] == replies[1..][i - 1];
        None
      case Some(k) =>
        assert forall i :: 1 <= i < |replies| ==> replies[i] == replies[1..][i - 1];
        Some(k + 1)
  }

  /** A failure reports the error of the first failing call, and nothing after it matters. */
  lemma {:induction false} FetchAllStopsAtFirstFailure(replies: seq<Reply>, other: seq<Reply>)
    requires FirstFailure(replies) != None
    requires var k := FirstFailure(replies).value; k < |other| && other[..k + 1] == replies[..k + 1]
    ensures FetchAll(replies) == Failure(GetIndexPrice(replies[FirstFailure(replies).value]).error)
    ensures FetchAll(other) == FetchAll(replies)
    decreases |replies|
  {
    var k := FirstFailure(replies).value;
    assert other[0] == replies[0];
    if k > 0 {
      assert FirstFailure(replies[1..]) == Some(k - 1);
      assert other[1..][..k] == other[..k + 1][1..];
      assert replies[1..][..k] == replies[..k + 1][1..];
      FetchAllStopsAtFirstFailure(replies[1..], other[1..]);
      assert replies[1..][k - 1] == replies[k];
    }
  }

  /** `get_index_prices`: `{name: get_index_price(name) for name in names}`, all or nothing. */
  function GetIndexPrices(names: seq<string>, replies: seq<Reply>): (r: Result<PriceMap, FetchError>)
    requires |replies| == |names|
    ensures r.Success? ==> forall k :: k in r.value.values <==> k in names
    ensures r.Success? <==> FirstFailure(replies) == None
    ensures r.Failure? ==> r.error == GetIndexPrice(replies[FirstFailure(replies).value]).error
  {
    match FetchAll(replies)
    case Failure(e) =>
      FetchAllStopsAtFirstFailure(replies, replies);
      Failure(e)
    case Success(ps) =>
      ToDictKeys(names, ps);
      Success(ToDict(names, ps))
  }

  /** On success each name maps to the price its own (last) call returned. */
  lemma GetIndexPricesValues(names: seq<string>, replies: seq<Reply>, i: nat)
    requires |replies| == |names| && i < |names|
    requires forall j :: i < j < |names| ==> names[j] != names[i]
    requires GetIndexPrices(names, replies).Success?
    ensures GetIndexPrice(replies[i]).Success?
    ensures GetIndexPrices(names, replies).value.values[names[i]] == GetIndexPrice(replies[i]).value
  {
    ToDictLastWins(names, FetchAll(replies).value, i);
  }
}
