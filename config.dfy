/**
 * Configuration: the comma-separated ticker list and the checks made when
 * the settings are first read. Environment values are plain inputs.
 */
module Config {
  import opened Wrappers

  /** Python's `str.isspace` for one character (the characters `str.strip()` removes). */
  predicate IsSpace(c: char)
    ensures c == ' ' || c == '\t' || c == '\n' ==> IsSpace(c)
    ensures IsSpace(c) ==> c != ',' && c != '_' && !('a' <= c <= 'z') && !('A' <= c <= 'Z') && !('0' <= c <= '9')
  {
    || '\t' <= c <= '\r'
    || '\U{1c}' <= c <= ' '
    || c == '\U{85}' || c == '\U{a0}' || c == '\U{1680}'
    || '\U{2000}' <= c <= '\U{200a}'
    || c == '\U{2028}' || c == '\U{2029}' || c == '\U{202f}' || c == '\U{205f}' || c == '\U{3000}'
  }

  /** No whitespace at either end. */
  predicate Stripped(s: string)
  {
    s == [] || (!IsSpace(s[0]) && !IsSpace(s[|s| - 1]))
  }

  /** The number of whitespace characters `s` starts with. */
  function LeadingSpaces(s: string): (k: nat)
    ensures k <= |s|
  {
    if s != [] && IsSpace(s[0]) then 1 + LeadingSpaces(s[1..]) else 0
  }

  /** The length of `s` without the whitespace it ends with. */
  function ContentEnd(s: string): (k: nat)
    ensures k <= |s|
  {
    if s != [] && IsSpace(s[|s| - 1]) then ContentEnd(s[..|s| - 1]) else |s|
  }

  lemma {:induction false} LeadingSpacesAreSpaces(s: string)
    ensures forall i :: 0 <= i < LeadingSpaces(s) ==> IsSpace(s[i])
    ensures LeadingSpaces(s) < |s| ==> !IsSpace(s[LeadingSpaces(s)])
    decreases |s|
  {
    if s != [] && IsSpace(s[0]) {
      LeadingSpacesAreSpaces(s[1..]);
      forall i | 1 <= i < LeadingSpaces(s) ensures IsSpace(s[i]) { assert s[i] == s[1..][i - 1]; }
    }
  }

  lemma {:induction false} TrailingSpacesAreSpaces(s: string)
    ensures forall i :: ContentEnd(s) <= i < |s| ==> IsSpace(s[i])
    ensures 0 < ContentEnd(s) ==> !IsSpace(s[ContentEnd(s) - 1])
    decreases |s|
  {
    var n := |s| - 1;
    if s != [] && IsSpace(s[n]) {
      TrailingSpacesAreSpaces(s[..n]);
      forall i | ContentEnd(s) <= i < n ensures IsSpace(s[i]) { assert s[i] == s[..n][i]; }
      if 0 < ContentEnd(s) { assert s[ContentEnd(s) - 1] == s[..n][ContentEnd(s) - 1]; }
    }
  }

  /** `str.strip()`: drops the whitespace at both ends. */
  function Strip(s: string): (r: string)
    ensures |r| <= |s|
    ensures s == [] ==> r == []
  {
    var rest := s[LeadingSpaces(s)..];
    rest[..ContentEnd(rest)]
  }

  /** The bounds `Strip` cuts at: after the leading and before the trailing whitespace. */
  function StripBounds(s: string): (b: (nat, nat))
    ensures b.0 <= b.1 <= |s|
  {
    var i := LeadingSpaces(s);
    (i, i + ContentEnd(s[i..]))
  }

  /** `Strip(s)` is the slice between its bounds. */
  lemma StripIsSlice(s: string)
    ensures Strip(s) == s[StripBounds(s).0..StripBounds(s).1]
  {
    var i := LeadingSpaces(s);
    var c := ContentEnd(s[i..]);
    assert s[i..][..c] == s[i..i + c];
  }

  /** Only whitespace lies outside the bounds. */
  lemma StripDropsOnlySpaces(s: string)
    ensures forall k :: 0 <= k < StripBounds(s).0 ==> IsSpace(s[k])
    ensures forall k :: StripBounds(s).1 <= k < |s| ==> IsSpace(s[k])
  {
    var i := LeadingSpaces(s);
    var rest := s[i..];
    LeadingSpacesAreSpaces(s);
    TrailingSpacesAreSpaces(rest);
    forall k | i + ContentEnd(rest) <= k < |s| ensures IsSpace(s[k]) {
      assert s[k] == rest[k - i];
    }
  }

  /** The result of `Strip` has no whitespace at either end. */
  lemma StripTrims(s: string)
    ensures Stripped(Strip(s))
  {
    var i := LeadingSpaces(s);
    var rest := s[i..];
    var c := ContentEnd(rest);
    if c > 0 {
      LeadingSpacesAreSpaces(s);
      TrailingSpacesAreSpaces(rest);
      assert Strip(s)[0] == rest[0] == s[i];
      assert Strip(s)[c - 1] == rest[c - 1];
    }
  }

  lemma StripStripped(s: string)
    requires Stripped(s)
    ensures Strip(s) == s
  {
    assert LeadingSpaces(s) == 0;
    assert s[0..] == s;
    assert ContentEnd(s) == |s|;
  }

  /** Stripping keeps only characters of the input. */
  lemma StripSubstring(s: string, c: char)
    requires c in Strip(s)
    ensures c in s
  {
    var i := LeadingSpaces(s);
    var k :| 0 <= k < |Strip(s)| && Strip(s)[k] == c;
    assert s[i + k] == c;
  }

  /** `items` joined with a comma between neighbours: `",".join(items)`. */
  function Join(items: seq<string>): (r: string)
    ensures items == [] ==> r == ""
    ensures items != [] ==> |items[0]| <= |r| && r[..|items[0]|] == items[0]
    ensures |items| > 1 ==> |items[0]| < |r| && r[|items[0]|] == ','
  {
    if items == [] then ""
    else if |items| == 1 then items[0]
    else items[0] + "," + Join(items[1..])
  }

  /** The position of the first comma in `s`, or `|s|` when there is none. */
  function CommaIndex(s: string): (i: nat)
    ensures i <= |s|
  {
    if s == [] || s[0] == ',' then 0 else 1 + CommaIndex(s[1..])
  }

  /** `CommaIndex` finds the first comma, and finds none exactly in a comma-free string. */
  lemma {:induction false} CommaIndexFinds(s: string)
    ensures CommaIndex(s) < |s| ==> s[CommaIndex(s)] == ','
    ensures ',' !in s[..CommaIndex(s)]
    ensures CommaIndex(s) == |s| <==> ',' !in s
    decreases |s|
  {
    if s != [] && s[0] != ',' {
      CommaIndexFinds(s[1..]);
      var i := CommaIndex(s[1..]);
      assert s[..i + 1] == [s[0]] + s[1..][..i];
      assert s == [s[0]] + s[1..];
    }
  }

  /** The first comma of `a + c` is the first comma of `a`, or else the first of `c`. */
  lemma {:induction false} CommaIndexAppend(a: string, c: string)
    ensures CommaIndex(a + c) == if CommaIndex(a) < |a| then CommaIndex(a) else |a| + CommaIndex(c)
    decreases |a|
  {
    if a != [] {
      assert (a + c)[0] == a[0] && (a + c)[1..] == a[1..] + c;
      if a[0] != ',' { CommaIndexAppend(a[1..], c); }
    } else {
      assert a + c == c;
    }
  }

  /** `s.split(",")`: the pieces between commas; always at least one. */
  function Split(s: string): (pieces: seq<string>)
    ensures |pieces| >= 1
    decreases |s|
  {
    var i := CommaIndex(s);
    if i == |s| then [s] else [s[..i]] + Split(s[i + 1..])
  }

  /** No piece contains a comma, and joining the pieces with commas gives the input back. */
  lemma {:induction false} SplitPieces(s: string)
    ensures forall p :: p in Split(s) ==> ',' !in p
    ensures Join(Split(s)) == s
    decreases |s|
  {
    var i := CommaIndex(s);
    CommaIndexFinds(s);
    if i < |s| {
      var rest := s[i + 1..];
      SplitPieces(rest);
      assert Split(s) == [s[..i]] + Split(rest);
      assert s == s[..i] + "," + rest;
    } else {
      assert s[..i] == s;
    }
  }

  /** Splitting a join of comma-free items gives the items back. */
  lemma {:induction false} SplitJoin(items: seq<string>)
    requires |items| >= 1 && forall p :: p in items ==> ',' !in p
    ensures Split(Join(items)) == items
    decreases |items|
  {
    var head := items[0];
    assert head in items;
    SplitCommaFree(head);
    if |items| > 1 {
      var tail := items[1..];
      assert forall p :: p in tail ==> p in items;
      SplitJoin(tail);
      assert Join(items) == head + "," + Join(tail);
      SplitConcat(head, Join(tail));
      assert items == [head] + tail;
    }
  }

  lemma SplitCommaFree(s: string)
    requires ',' !in s
    ensures Split(s) == [s]
  {
    CommaIndexFinds(s);
  }

  /** A comma splits the input into the pieces before it and the pieces after it. */
  lemma {:induction false} SplitConcat(a: string, b: string)
    ensures Split(a + "," + b) == Split(a) + Split(b)
    decreases |a|
  {
    var s := a + "," + b;
    var i := CommaIndex(a);
    assert s == a + ("," + b);
    CommaIndexAppend(a, "," + b);
    assert CommaIndex("," + b) == 0;
    if i == |a| {
      assert s[..|a|] == a && s[|a| + 1..] == b;
    } else {
      assert s[..i] == a[..i];
      assert s[i + 1..] == a[i + 1..] + "," + b;
      SplitConcat(a[i + 1..], b);
    }
  }

  /** Strips every piece and keeps the non-empty results, in order. */
  function Clean(pieces: seq<string>): (items: seq<string>)
    ensures |items| <= |pieces|
  {
    if pieces == [] then []
    else if Strip(pieces[0]) == "" then Clean(pieces[1..])
    else [Strip(pieces[0])] + Clean(pieces[1..])
  }

  /** Every kept item is non-empty and stripped. */
  lemma {:induction false} CleanItems(pieces: seq<string>)
    ensures forall x :: x in Clean(pieces) ==> x != "" && Stripped(x)
    decreases |pieces|
  {
    if pieces != [] {
      CleanItems(pieces[1..]);
      StripTrims(pieces[0]);
    }
  }

  lemma {:induction false} CleanCommaFree(pieces: seq<string>)
    requires forall p :: p in pieces ==> ',' !in p
    ensures forall x :: x in Clean(pieces) ==> ',' !in x
    decreases |pieces|
  {
    if pieces != [] {
      assert pieces[0] in pieces;
      assert forall p :: p in pieces[1..] ==> p in pieces;
      CleanCommaFree(pieces[1..]);
      if ',' in Strip(pieces[0]) { StripSubstring(pieces[0], ','); }
    }
  }

  lemma {:induction false} CleanConcat(p: seq<string>, q: seq<string>)
    ensures Clean(p + q) == Clean(p) + Clean(q)
    decreases |p|
  {
    if p == [] {
      assert p + q == q;
    } else {
      assert (p + q)[0] == p[0];
      assert (p + q)[1..] == p[1..] + q;
      CleanConcat(p[1..], q);
    }
  }

  lemma {:induction false} CleanClean(items: seq<string>)
    requires forall x :: x in items ==> x != "" && Stripped(x)
    ensures Clean(items) == items
    decreases |items|
  {
    if items != [] {
      assert items[0] in items;
      StripStripped(items[0]);
      assert forall x :: x in items[1..] ==> x in items;
      CleanClean(items[1..]);
    }
  }

  /** `_parse_csv`: split on commas, strip each piece, drop the empty ones. */
  function ParseCsv(value: string): (items: seq<string>)
    ensures forall x :: x in items ==> x != "" && Stripped(x) && ',' !in x
  {
    SplitPieces(value);
    CleanItems(Split(value));
    CleanCommaFree(Split(value));
    Clean(Split(value))
  }

  /** Parsing is a homomorphism: the items of `a,b` are the items of `a` then those of `b`. */
  lemma ParseCsvConcat(a: string, b: string)
    ensures ParseCsv(a + "," + b) == ParseCsv(a) + ParseCsv(b)
  {
    SplitConcat(a, b);
    CleanConcat(Split(a), Split(b));
  }

  /**
   * A value without commas gives its stripped content, or nothing when that
   * is empty; with `ParseCsvConcat` this fixes the items of every value.
   */
  lemma {:induction false} ParseCsvPiece(p: string)
    requires ',' !in p
    ensures ParseCsv(p) == if Strip(p) == "" then [] else [Strip(p)]
  {
    SplitCommaFree(p);
    assert Clean([p]) == (if Strip(p) == "" then [] else [Strip(p)]) + Clean([]);
  }

  /** A name with whitespace around it is kept, stripped: `" eth_usd "` gives `["eth_usd"]`. */
  lemma PaddedName(l: string, t: string, r: string)
    requires forall i :: 0 <= i < |l| ==> IsSpace(l[i])
    requires forall i :: 0 <= i < |r| ==> IsSpace(r[i])
    requires t != "" && Stripped(t) && ',' !in t
    ensures ParseCsv(l + t + r) == [t]
  {
    var s := l + t + r;
    var rest := s[LeadingSpaces(s)..];
    LeadingSpacesAreSpaces(s);
    assert s[|l|] == t[0];
    assert forall i :: 0 <= i < |l| ==> s[i] == l[i];
    assert LeadingSpaces(s) == |l|;
    assert rest == t + r;
    TrailingSpacesAreSpaces(rest);
    assert rest[|t| - 1] == t[|t| - 1];
    assert forall i :: |t| <= i < |rest| ==> rest[i] == r[i - |t|];
    assert ContentEnd(rest) == |t|;
    assert Strip(s) == t;
    assert ',' !in s by {
      forall i | 0 <= i < |s| ensures s[i] != ',' {
        if i < |l| { assert s[i] == l[i]; }
        else if i < |l| + |t| { assert s[i] == t[i - |l|]; }
        else { assert s[i] == r[i - |l| - |t|]; }
      }
    }
    ParseCsvPiece(s);
  }

  /**
   * Two names with whitespace after the comma, as in `"btc_usd, eth_usd"`,
   * both stay configured, in order.
   */
  lemma SpacedPair(a: string, gap: string, b: string)
    requires a != "" && Stripped(a) && ',' !in a
    requires b != "" && Stripped(b) && ',' !in b
    requires forall i :: 0 <= i < |gap| ==> IsSpace(gap[i])
    ensures ParseCsv(a + "," + gap + b) == [a, b]
  {
    var none: string := [];
    assert a + "," + gap + b == a + "," + (gap + b);
    ParseCsvConcat(a, gap + b);
    assert none + a + none == a;
    PaddedName(none, a, none);
    assert gap + b + none == gap + b;
    PaddedName(gap, b, none);
  }

  /** Joining the items with "," and parsing again gives the same items. */
  lemma ParseCsvJoinRoundTrip(value: string)
    ensures ParseCsv(Join(ParseCsv(value))) == ParseCsv(value)
  {
    var items := ParseCsv(value);
    if items == [] {
      assert Split("") == [""];
      assert Strip("") == "";
    } else {
      SplitJoin(items);
      CleanClean(items);
    }
  }

  const DefaultTickers: string := "btc_usd,eth_usd"

  /** The default list parses to the two tickers, in order. */
  lemma DefaultTickersParse()
    ensures ParseCsv(DefaultTickers) == ["btc_usd", "eth_usd"]
  {
    var x, y := "btc_usd", "eth_usd";
    assert DefaultTickers == x + "," + y;
    TwoTickers(x, y);
  }

  /** Two ticker-like names joined by a comma parse to those two names. */
  lemma TwoTickers(a: string, b: string)
    requires forall i :: 0 <= i < |a| ==> 'a' <= a[i] <= 'z' || a[i] == '_'
    requires forall i :: 0 <= i < |b| ==> 'a' <= b[i] <= 'z' || b[i] == '_'
    requires a != "" && b != ""
    ensures ParseCsv(a + "," + b) == [a, b]
  {
    ParseCsvConcat(a, b);
    OneTicker(a);
    OneTicker(b);
  }

  /** A piece of letters and underscores, without commas or blanks, parses to itself. */
  lemma OneTicker(t: string)
    requires forall i :: 0 <= i < |t| ==> 'a' <= t[i] <= 'z' || t[i] == '_'
    requires t != ""
    ensures ParseCsv(t) == [t]
  {
    assert ',' !in t by {
      forall i | 0 <= i < |t| ensures t[i] != ',' { }
    }
    SplitCommaFree(t);
    assert !IsSpace(t[0]) && !IsSpace(t[|t| - 1]);
    StripStripped(t);
    assert Clean([t]) == [t] + Clean([]);
  }

  /** A value of whitespace only has no items. */
  lemma BlankParsesEmpty(s: string)
    requires forall i :: 0 <= i < |s| ==> IsSpace(s[i])
    ensures ParseCsv(s) == []
  {
    assert ',' !in s by {
      forall i | 0 <= i < |s| ensures s[i] != ',' { assert IsSpace(s[i]); }
    }
    SplitCommaFree(s);
    LeadingSpacesAreSpaces(s);
    assert LeadingSpaces(s) == |s|;
    assert Strip(s) == "";
    assert Clean([s]) == Clean([]);
  }

  /** An empty list, or one of blanks and commas only, has no items. */
  lemma BlankListsAreEmpty()
    ensures ParseCsv("") == []
    ensures ParseCsv(" , ,") == []
  {
    var e, sp := "", " ";
    BlankParsesEmpty(e);
    BlankParsesEmpty(sp);
    assert " , ," == sp + "," + (sp + "," + e);
    ParseCsvConcat(sp, sp + "," + e);
    ParseCsvConcat(sp, e);
  }

  // ---------------------------------------------------------------------------
  // get_settings
  // ---------------------------------------------------------------------------

  /** The environment variables the settings read; None when unset. */
  datatype Environment = Environment(
    databaseUrl: Option<string>,
    tickers: Option<string>,
    celeryBrokerUrl: Option<string>,
    celeryBackendUrl: Option<string>,
    deribitBaseUrl: Option<string>)

  datatype Settings = Settings(
    databaseUrl: string,
    celeryBrokerUrl: string,
    celeryBackendUrl: string,
    deribitBaseUrl: string,
    tickers: seq<string>)

  datatype ConfigError = DatabaseUrlNotSet | TickersEmpty

  /** `os.getenv(name, default)`: the default only when the variable is unset. */
  function GetEnv(v: Option<string>, default: string): (r: string)
    ensures v == None ==> r == default
    ensures v.Some? ==> r == v.value
    ensures v == Some("") ==> r == ""
  {
    if v.Some? then v.value else default
  }

  /** `get_settings`: DATABASE_URL must be set and non-empty, then TICKERS must give an item. */
  function GetSettings(env: Environment): (r: Result<Settings, ConfigError>)
    ensures r == Failure(DatabaseUrlNotSet) <==> env.databaseUrl == None || env.databaseUrl == Some("")
    ensures r == Failure(TickersEmpty)
        <==> (env.databaseUrl != None && env.databaseUrl != Some("")
              && ParseCsv(GetEnv(env.tickers, DefaultTickers)) == [])
    ensures r.Success? ==> Some(r.value.databaseUrl) == env.databaseUrl && r.value.databaseUrl != ""
    ensures r.Success? ==> r.value.tickers != [] && r.value.tickers == ParseCsv(GetEnv(env.tickers, DefaultTickers))
    ensures r.Success? && env.tickers == None ==> r.value.tickers == ["btc_usd", "eth_usd"]
    ensures r.Success? ==> r.value.celeryBrokerUrl == GetEnv(env.celeryBrokerUrl, "redis://localhost:6379/0")
    ensures r.Success? ==> r.value.celeryBackendUrl == GetEnv(env.celeryBackendUrl, "redis://localhost:6379/1")
    ensures r.Success? ==> r.value.deribitBaseUrl == GetEnv(env.deribitBaseUrl, "https://www.deribit.com/api/v2")
  {
    DefaultTickersParse();
    match env.databaseUrl
    case None => Failure(DatabaseUrlNotSet)
    case Some(url) =>
      if url == "" then Failure(DatabaseUrlNotSet)
      else
        var tickers := ParseCsv(GetEnv(env.tickers, DefaultTickers));
        if tickers == [] then Failure(TickersEmpty)
        else Success(Settings(
          url,
          GetEnv(env.celeryBrokerUrl, "redis://localhost:6379/0"),
          GetEnv(env.celeryBackendUrl, "redis://localhost:6379/1"),
          GetEnv(env.deribitBaseUrl, "https://www.deribit.com/api/v2"),
          tickers))
  }
}
