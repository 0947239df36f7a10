/**
 * The `GET` handler of the news route: normalise the symbol and reject a missing one, default
 * the page and the source, fetch the items, and add a Chinese title and description to each,
 * one item after another, threading the translation cache through.
 */
module NewsRoute {
  import opened Wrappers
  import opened JsString
  import opened Keywords
  import opened TranslationCache
  import opened NewsProviders

  /** The error text of the 400 answer. */
  const MissingSymbolError: string := "請提供股票代號"

  /**
   * The query of one request. None stands for an absent parameter; for the page it also stands
   * for an empty one, which `|| "1"` replaces before any parsing.
   */
  datatype NewsRequest = NewsRequest(symbol: Option<string>, page: Option<PageValue>, source: Option<string>)

  /** Everything outside the process a request depends on: the two providers, the translation service and the clock. */
  datatype Services = Services(
    finnhub: string -> FinnhubReply,
    newsApi: (string, int) -> NewsApiReply,
    remote: string -> Option<string>,
    now: int,
    nowIso: string,
    ttlSeconds: int)

  /** An item with the translations of its title and description added. */
  datatype EnrichedItem = EnrichedItem(item: NewsItem, titleZh: string, descriptionZh: string)

  /** The answer: status 400 with an error, or the enriched items. */
  datatype NewsResponse = BadRequest(error: string) | Items(items: seq<EnrichedItem>)

  /** `translateText` with the service's answer for this very text. */
  function TranslateWith(cache: Cache, text: string, env: Services): (string, Cache) {
    Translate(cache, text, env.now, env.ttlSeconds, env.remote(text))
  }

  /** The texts an item is translated from: a missing title counts as "". */
  function TitleText(item: NewsItem): string {
    OrDefault(item.title, "")
  }

  /** One item's enrichment: its title is translated, then its description, with the cache the title left. */
  function EnrichOne(cache: Cache, item: NewsItem, env: Services): (r: (EnrichedItem, Cache))
    ensures r.0.item == item
  {
    var title := TranslateWith(cache, TitleText(item), env);
    var description := TranslateWith(title.1, item.description, env);
    (EnrichedItem(item, title.0, description.0), description.1)
  }

  /**
   * The per-item translation, as a left-to-right fold: the title of each item, then its
   * description, each call seeing the cache the previous one left.
   */
  function Enrich(cache: Cache, items: seq<NewsItem>, env: Services): (r: (seq<EnrichedItem>, Cache))
    ensures |r.0| == |items|
    ensures forall k :: 0 <= k < |items| ==> r.0[k].item == items[k]
    decreases |items|
  {
    if items == [] then ([], cache)
    else
      var first := EnrichOne(cache, items[0], env);
      var rest := Enrich(first.1, items[1..], env);
      ([first.0] + rest.0, rest.1)
  }

  /** Both translations of one item are key-free, and so is the cache after them, when the cache was. */
  lemma EnrichOneHasNoKeys(cache: Cache, item: NewsItem, env: Services)
    requires CacheHasNoKeys(cache)
    ensures var r := EnrichOne(cache, item, env);
      CacheHasNoKeys(r.1) && NoKeys(r.0.titleZh) && NoKeys(r.0.descriptionZh)
  {
    var title := TranslateWith(cache, TitleText(item), env);
    TranslateKeepsNoKeys(cache, TitleText(item), env.now, env.ttlSeconds, env.remote(TitleText(item)));
    TranslateKeepsNoKeys(title.1, item.description, env.now, env.ttlSeconds, env.remote(item.description));
  }

  /** Every translation in the answer is free of dictionary keys, provided the cache was. */
  lemma {:induction false} EnrichHasNoKeys(cache: Cache, items: seq<NewsItem>, env: Services)
    requires CacheHasNoKeys(cache)
    ensures var r := Enrich(cache, items, env);
      CacheHasNoKeys(r.1) && forall k :: 0 <= k < |r.0| ==> NoKeys(r.0[k].titleZh) && NoKeys(r.0[k].descriptionZh)
    decreases |items|
  {
    if items != [] {
      var first := EnrichOne(cache, items[0], env);
      var rest := Enrich(first.1, items[1..], env);
      EnrichOneHasNoKeys(cache, items[0], env);
      EnrichHasNoKeys(first.1, items[1..], env);
      var r := Enrich(cache, items, env);
      assert r == ([first.0] + rest.0, rest.1);
      forall k | 0 <= k < |r.0|
        ensures NoKeys(r.0[k].titleZh) && NoKeys(r.0[k].descriptionZh)
      {
        if k > 0 {
          assert r.0[k] == rest.0[k - 1];
        }
      }
    }
  }

  /** Neither end of any title or description is white space. */
  predicate TrimmedTexts(items: seq<NewsItem>) {
    forall k :: 0 <= k < |items| ==> IsTrimmed(TitleText(items[k])) && IsTrimmed(items[k].description)
  }

  /** An item with the translations it gets when no cache is involved. */
  function UncachedItem(item: NewsItem, remote: string -> Option<string>): EnrichedItem {
    EnrichedItem(item, Uncached(TitleText(item), remote), Uncached(item.description, remote))
  }

  /** The enrichment without a cache: every item with its uncached translations, in order. */
  function EnrichUncached(items: seq<NewsItem>, remote: string -> Option<string>): (r: seq<EnrichedItem>)
    ensures |r| == |items|
    ensures forall k :: 0 <= k < |items| ==> r[k] == UncachedItem(items[k], remote)
  {
    if items == [] then [] else [UncachedItem(items[0], remote)] + EnrichUncached(items[1..], remote)
  }

  /** For an item with trimmed texts, a coherent cache gives the uncached translations and stays coherent. */
  lemma EnrichOneTransparent(cache: Cache, item: NewsItem, env: Services)
    requires Coherent(cache, env.remote) && IsTrimmed(TitleText(item)) && IsTrimmed(item.description)
    ensures var r := EnrichOne(cache, item, env);
      Coherent(r.1, env.remote) && r.0 == UncachedItem(item, env.remote)
  {
    var title := TranslateWith(cache, TitleText(item), env);
    TranslateTransparent(cache, TitleText(item), env.now, env.ttlSeconds, env.remote);
    TranslateTransparent(title.1, item.description, env.now, env.ttlSeconds, env.remote);
  }

  /**
   * With a coherent cache and texts without surrounding white space, the answer is the one
   * computed without any cache and the cache stays coherent: the cache then cannot change any
   * answer, whatever the clock, the time-to-live or the order in which the translations run.
   */
  lemma {:induction false} EnrichTransparent(cache: Cache, items: seq<NewsItem>, env: Services)
    requires Coherent(cache, env.remote) && TrimmedTexts(items)
    ensures var r := Enrich(cache, items, env);
      Coherent(r.1, env.remote) && r.0 == EnrichUncached(items, env.remote)
    decreases |items|
  {
    if items != [] {
      var first := EnrichOne(cache, items[0], env);
      EnrichOneTransparent(cache, items[0], env);
      TrimmedTextsTail(items);
      EnrichTransparent(first.1, items[1..], env);
    }
  }

  lemma TrimmedTextsTail(items: seq<NewsItem>)
    requires items != [] && TrimmedTexts(items)
    ensures TrimmedTexts(items[1..])
  {
    forall k | 0 <= k < |items| - 1
      ensures IsTrimmed(TitleText(items[1..][k])) && IsTrimmed(items[1..][k].description)
    {
      assert items[1..][k] == items[k + 1];
    }
  }

  /**
   * The symbol as the handler uses it, or None when it is missing or blank: a used symbol is
   * non-empty, has no surrounding white space and no lower-case ASCII letter.
   */
  function NormalSymbol(symbol: Option<string>): (r: Option<string>)
    ensures r.None? <==> symbol.None? || UpperTrim(symbol.value) == ""
    ensures r.Some? ==> r.value != "" && IsTrimmed(r.value) && UpperAscii(r.value) == r.value
    ensures r.Some? ==> r.value == UpperTrim(symbol.value)
  {
    if symbol.Some? && UpperTrim(symbol.value) != "" then
      UpperTrimIdempotent(symbol.value);
      TrimTrimmed(UpperTrim(symbol.value));
      Some(UpperTrim(symbol.value))
    else None
  }

  /**
   * `GET /api/news` and the cache it leaves behind. A missing or blank symbol is a 400 and leaves
   * the cache alone; otherwise the answer holds one enriched item per fetched item, in order.
   */
  function Get(req: NewsRequest, cache: Cache, env: Services): (r: (NewsResponse, Cache))
    ensures NormalSymbol(req.symbol).None? <==> r.0.BadRequest?
    ensures r.0.BadRequest? ==> r.0.error == MissingSymbolError && r.1 == cache
    ensures r.0.Items? ==>
      var news := FetchNews(NormalSymbol(req.symbol).value, req.page.GetOr(Finite(1)), Some(OrDefault(req.source, "all")),
                            env.finnhub, env.newsApi, env.nowIso);
      |r.0.items| == |news| && forall k :: 0 <= k < |news| ==> r.0.items[k].item == news[k]
  {
    match NormalSymbol(req.symbol)
    case None => (BadRequest(MissingSymbolError), cache)
    case Some(symbol) =>
      var page := req.page.GetOr(Finite(1));
      var source := OrDefault(req.source, "all");
      var news := FetchNews(symbol, page, Some(source), env.finnhub, env.newsApi, env.nowIso);
      var enriched := Enrich(cache, news, env);
      (Items(enriched.0), enriched.1)
  }

  /** A blank symbol, however much white space it holds, is rejected. */
  lemma BlankSymbolRejected(symbol: string, page: Option<PageValue>, source: Option<string>, cache: Cache, env: Services)
    requires AllWhiteSpace(symbol)
    ensures Get(NewsRequest(Some(symbol), page, source), cache, env) == (BadRequest(MissingSymbolError), cache)
  {
    forall k | 0 <= k < |symbol|
      ensures IsJsWhiteSpace(UpperAscii(symbol)[k])
    {
      UpperAsciiFacts(symbol[k]);
    }
  }

  /** The symbol's case and surrounding white space do not matter: asking for the normalised symbol gives the same answer. */
  lemma SymbolNormalised(symbol: string, page: Option<PageValue>, source: Option<string>, cache: Cache, env: Services)
    ensures Get(NewsRequest(Some(symbol), page, source), cache, env)
         == Get(NewsRequest(Some(UpperTrim(symbol)), page, source), cache, env)
  {
    UpperTrimIdempotent(symbol);
  }

  /** A request without page and source is a request for page 1 of "all". */
  lemma DefaultsArePageOneOfAll(symbol: Option<string>, cache: Cache, env: Services)
    ensures Get(NewsRequest(symbol, None, None), cache, env) == Get(NewsRequest(symbol, Some(Finite(1)), Some("all")), cache, env)
    ensures Get(NewsRequest(symbol, None, Some("")), cache, env) == Get(NewsRequest(symbol, Some(Finite(1)), Some("all")), cache, env)
  {
  }

  /** Starting from a key-free cache, no translation in the answer contains a dictionary key as a whole word. */
  lemma GetHasNoKeys(req: NewsRequest, cache: Cache, env: Services)
    requires CacheHasNoKeys(cache)
    ensures var r := Get(req, cache, env);
      CacheHasNoKeys(r.1)
      && (r.0.Items? ==> forall k :: 0 <= k < |r.0.items| ==> NoKeys(r.0.items[k].titleZh) && NoKeys(r.0.items[k].descriptionZh))
  {
    if NormalSymbol(req.symbol).Some? {
      var news := FetchNews(NormalSymbol(req.symbol).value, req.page.GetOr(Finite(1)), Some(OrDefault(req.source, "all")),
                            env.finnhub, env.newsApi, env.nowIso);
      EnrichHasNoKeys(cache, news, env);
    }
  }
}
