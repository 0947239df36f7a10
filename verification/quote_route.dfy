/**
 * The `GET` handler of the quote route, minus the quote arithmetic: the `symbol` parameter
 * becomes a list of symbols, each symbol is looked up, and the lookups that failed are dropped.
 */
module QuoteRoute {
  import opened Wrappers
  import opened JsString
  import opened Sequences

  /** The symbols shown when the request names none that can be used. */
  const DefaultSymbols: seq<string> := ["NVDA", "AMD", "TSLA", "INTC"]

  /** The longest symbol kept, in UTF-16 code units. */
  const MaxSymbolLength: nat := 6

  predicate ShortEnough(s: string) {
    Utf16Length(s) <= MaxSymbolLength
  }

  /** Each piece trimmed. */
  function TrimAll(parts: seq<string>): (r: seq<string>)
    ensures |r| == |parts|
    ensures forall k :: 0 <= k < |parts| ==> r[k] == Trim(parts[k])
  {
    seq(|parts|, k requires 0 <= k < |parts| => Trim(parts[k]))
  }

  /** The pieces of a normalised, non-empty parameter that survive the length filter, in order. */
  function Pieces(p: string): (r: seq<string>)
    ensures forall k :: 0 <= k < |r| ==> ShortEnough(r[k]) && IsTrimmed(r[k])
  {
    var trimmed := TrimAll(Split(p, ','));
    assert forall k :: 0 <= k < |trimmed| ==> IsTrimmed(trimmed[k]);
    Filter(trimmed, ShortEnough)
  }

  /**
   * The symbol list. The list is never empty, and it is either the default list or a list of
   * short trimmed pieces of the normalised parameter; an absent or blank parameter gives the
   * default.
   */
  function ParseSymbols(param: Option<string>): (r: seq<string>)
    ensures |r| > 0
    ensures r == DefaultSymbols || forall k :: 0 <= k < |r| ==> ShortEnough(r[k]) && IsTrimmed(r[k])
    ensures param.None? || UpperTrim(param.value) == "" ==> r == DefaultSymbols
  {
    var p := if param.Some? then UpperTrim(param.value) else "";
    var list := if p != "" then Pieces(p) else DefaultSymbols;
    if |list| > 0 then list else DefaultSymbols
  }

  /**
   * Exactly the short pieces are kept, in order and with repetitions: the list is the trimmed
   * pieces filtered by length, and a trimmed piece is in it if and only if it is short enough,
   * unless no piece is, in which case the list is the default.
   */
  lemma ParseKeepsExactlyShortPieces(param: string)
    requires UpperTrim(param) != ""
    ensures var pieces := TrimAll(Split(UpperTrim(param), ','));
      var r := ParseSymbols(Some(param));
      if exists k :: 0 <= k < |pieces| && ShortEnough(pieces[k]) then
        r == Filter(pieces, ShortEnough)
        && (forall k :: 0 <= k < |pieces| && ShortEnough(pieces[k]) ==> pieces[k] in r)
        && (forall k :: 0 <= k < |r| ==> r[k] in pieces && ShortEnough(r[k]))
      else r == DefaultSymbols
  {
    var p := UpperTrim(param);
    var pieces := TrimAll(Split(p, ','));
    var kept := Filter(pieces, ShortEnough);
    assert kept == Pieces(p);
    var r := ParseSymbols(Some(param));
    assert r == if |kept| > 0 then kept else DefaultSymbols;
    if |kept| > 0 {
      assert kept[0] in pieces && ShortEnough(kept[0]);
    }
    if exists k :: 0 <= k < |pieces| && ShortEnough(pieces[k]) {
      var k :| 0 <= k < |pieces| && ShortEnough(pieces[k]);
      assert pieces[k] in kept;
      assert r == kept;
    }
  }

  /** A piece the route would produce unchanged: upper case, no surrounding white space, no comma, short enough. */
  predicate Clean(s: string) {
    UpperAscii(s) == s && IsTrimmed(s) && ',' !in s && ShortEnough(s)
  }

  /** Joining upper-case texts gives upper-case text. */
  lemma {:induction false} JoinUpper(parts: seq<string>, sep: char)
    requires |parts| > 0 && AsciiUpper(sep) == sep
    requires forall k :: 0 <= k < |parts| ==> UpperAscii(parts[k]) == parts[k]
    ensures UpperAscii(Join(parts, sep)) == Join(parts, sep)
  {
    if |parts| > 1 {
      JoinUpper(parts[1..], sep);
      var q := Join(parts[1..], sep);
      assert UpperAscii(parts[0] + [sep] + q) == UpperAscii(parts[0]) + UpperAscii([sep]) + UpperAscii(q);
    }
  }

  /**
   * The joined text starts with the first part and ends with the last; with more than one part,
   * a separator follows the first and precedes the last.
   */
  lemma {:induction false} JoinEnds(parts: seq<string>, sep: char)
    requires |parts| > 0
    ensures parts[0] <= Join(parts, sep)
    ensures var p := Join(parts, sep); var last := parts[|parts| - 1];
      |last| <= |p| && p[|p| - |last|..] == last
    ensures var p := Join(parts, sep); var last := parts[|parts| - 1];
      |parts| > 1 ==> |parts[0]| < |p| && p[|parts[0]|] == sep && |last| < |p| && p[|p| - |last| - 1] == sep
  {
    if |parts| > 1 {
      JoinEnds(parts[1..], sep);
      var q := Join(parts[1..], sep);
      var p := Join(parts, sep);
      var last := parts[|parts| - 1];
      assert p == parts[0] + [sep] + q;
      assert p[|p| - |q|..] == q;
      if |parts| == 2 {
        assert q == last;
      } else {
        assert p[|p| - |last| - 1] == q[|q| - |last| - 1];
      }
    }
  }

  /**
   * Joining clean pieces with commas and parsing the result gives the same pieces back, empty
   * pieces included, unless the list is the single empty piece (which joins to a blank parameter).
   */
  lemma ParseJoinRoundTrip(symbols: seq<string>)
    requires |symbols| > 0 && symbols != [""]
    requires forall k :: 0 <= k < |symbols| ==> Clean(symbols[k])
    ensures ParseSymbols(Some(Join(symbols, ','))) == symbols
  {
    var p := Join(symbols, ',');
    JoinIsNormal(symbols);
    SplitJoin(symbols, ',');
    assert Split(p, ',') == symbols;
    PiecesOfClean(symbols);
    assert Pieces(p) == symbols;
    ParseNormal(p);
  }

  /** A parameter already normalised, with at least one short piece, is parsed into its short pieces. */
  lemma ParseNormal(p: string)
    requires p != "" && UpperTrim(p) == p && |Pieces(p)| > 0
    ensures ParseSymbols(Some(p)) == Pieces(p)
  {
  }

  /** Clean pieces other than the single empty one join to a non-empty text that upper-casing and trimming leave alone. */
  lemma JoinIsNormal(symbols: seq<string>)
    requires |symbols| > 0 && symbols != [""]
    requires forall k :: 0 <= k < |symbols| ==> Clean(symbols[k])
    ensures Join(symbols, ',') != "" && UpperTrim(Join(symbols, ',')) == Join(symbols, ',')
  {
    JoinUpper(symbols, ',');
    JoinTrimmed(symbols, ',');
    TrimTrimmed(Join(symbols, ','));
  }

  /** Trimmed parts, other than the single empty one, joined by a non-white-space separator give a non-empty trimmed text. */
  lemma JoinTrimmed(parts: seq<string>, sep: char)
    requires |parts| > 0 && parts != [""] && !IsJsWhiteSpace(sep)
    requires forall k :: 0 <= k < |parts| ==> IsTrimmed(parts[k])
    ensures Join(parts, sep) != "" && IsTrimmed(Join(parts, sep))
  {
    var p := Join(parts, sep);
    JoinEnds(parts, sep);
    var first := parts[0];
    var last := parts[|parts| - 1];
    assert IsTrimmed(first) && IsTrimmed(last);
    if first != "" {
      assert p[0] == first[0];
    } else {
      assert |parts| > 1 && p[0] == sep;
    }
    if last != "" {
      assert p[|p| - 1] == last[|last| - 1];
    } else {
      assert |parts| > 1 && p[|p| - 1] == sep;
    }
  }

  lemma PiecesOfClean(symbols: seq<string>)
    requires forall k :: 0 <= k < |symbols| ==> Clean(symbols[k])
    ensures Filter(TrimAll(symbols), ShortEnough) == symbols
  {
    forall k | 0 <= k < |symbols|
      ensures Trim(symbols[k]) == symbols[k]
    {
      TrimTrimmed(symbols[k]);
    }
    assert TrimAll(symbols) == symbols;
    FilterKeepsAll(symbols, ShortEnough);
  }

  /** Pieces the filter lets through include empty ones: "AAPL,,MSFT" asks for "AAPL", "" and "MSFT". */
  lemma EmptyPieceKept(a: string, b: string)
    requires Clean(a) && Clean(b)
    ensures ParseSymbols(Some(a + ",," + b)) == [a, "", b]
  {
    assert Clean("");
    assert [a, "", b][1..] == ["", b] && ["", b][1..] == [b];
    assert Join(["", b], ',') == [','] + b;
    assert Join([a, "", b], ',') == a + [','] + ([','] + b) == a + ",," + b;
    ParseJoinRoundTrip([a, "", b]);
  }

  // ---------------------------------------------------------------------------
  // Looking the symbols up

  /**
   * The answer for a list of symbols: `fetch(s)` is the quote for `s`, None where the lookup
   * failed or found no chart. Failed lookups are dropped; every other quote is in the answer.
   */
  function QuotesFor<Q>(symbols: seq<string>, fetch: string -> Option<Q>): (r: seq<Q>)
    ensures |r| <= |symbols|
    ensures forall k :: 0 <= k < |r| ==> exists j :: 0 <= j < |symbols| && fetch(symbols[j]) == Some(r[k])
    ensures forall j :: 0 <= j < |symbols| && fetch(symbols[j]).Some? ==> fetch(symbols[j]).value in r
  {
    var results := seq(|symbols|, k requires 0 <= k < |symbols| => fetch(symbols[k]));
    var r := Somes(results);
    assert forall k :: 0 <= k < |r| ==> Some(r[k]) in results;
    assert forall j :: 0 <= j < |symbols| ==> results[j] == fetch(symbols[j]);
    r
  }

  /** Quotes keep the order of the symbols: the answer for two lists is the first's followed by the second's. */
  lemma QuotesForAppend<Q>(a: seq<string>, b: seq<string>, fetch: string -> Option<Q>)
    ensures QuotesFor(a + b, fetch) == QuotesFor(a, fetch) + QuotesFor(b, fetch)
  {
    var ra := seq(|a|, k requires 0 <= k < |a| => fetch(a[k]));
    var rb := seq(|b|, k requires 0 <= k < |b| => fetch(b[k]));
    assert seq(|a + b|, k requires 0 <= k < |a + b| => fetch((a + b)[k])) == ra + rb;
    SomesAppend(ra, rb);
  }

  /** When every lookup succeeds the answer has one quote per symbol, in symbol order. */
  lemma AllQuotesFound<Q>(symbols: seq<string>, fetch: string -> Option<Q>)
    requires forall k :: 0 <= k < |symbols| ==> fetch(symbols[k]).Some?
    ensures |QuotesFor(symbols, fetch)| == |symbols|
    ensures forall k :: 0 <= k < |symbols| ==> QuotesFor(symbols, fetch)[k] == fetch(symbols[k]).value
  {
    SomesAllPresent(seq(|symbols|, k requires 0 <= k < |symbols| => fetch(symbols[k])));
  }

  /** `GET /api/quote`: the quotes for the parsed symbol list. */
  function Get<Q>(param: Option<string>, fetch: string -> Option<Q>): (r: seq<Q>)
    ensures |r| <= |ParseSymbols(param)|
    ensures param.None? ==> |r| <= |DefaultSymbols|
  {
    QuotesFor(ParseSymbols(param), fetch)
  }
}
