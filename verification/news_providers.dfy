/**
 * The news sources of the news route: normalising Finnhub's company news, the synthetic
 * Yahoo Finance item, the NewsAPI mapping, and `fetchNews`, which guards the symbol, coerces
 * the page, routes between the providers and pages through Finnhub's list five items at a time.
 * Each provider's answer is a parameter.
 */
module NewsProviders {
  import opened Wrappers
  import opened JsString
  import opened Sequences

  /** One news item as the route returns it; fields the upstream JSON may leave out are optional. */
  datatype NewsItem = NewsItem(
    title: Option<string>,
    description: string,
    url: Option<string>,
    source: string,
    publishedAt: Option<string>,
    image: Option<string>)

  /**
   * One record of Finnhub's company-news answer. `published` is the ISO rendering of the
   * record's `datetime`, None when that field is absent or zero.
   */
  datatype FinnhubRecord = FinnhubRecord(
    headline: Option<string>,
    summary: Option<string>,
    url: Option<string>,
    source: Option<string>,
    published: Option<string>,
    image: Option<string>)

  /**
   * What asking Finnhub yields: Unavailable stands for a missing API token, a non-ok status,
   * a body that is not an array and any exception, all of which give no items.
   */
  datatype FinnhubReply = Unavailable | Records(records: seq<FinnhubRecord>)

  /** One NewsAPI article; `sourceName` is `source.name`. */
  datatype Article = Article(
    title: Option<string>,
    description: Option<string>,
    url: Option<string>,
    sourceName: Option<string>,
    publishedAt: Option<string>,
    urlToImage: Option<string>)

  /**
   * What asking NewsAPI yields: Fail stands for a non-ok status and any exception; Ok carries
   * the body's `articles`, None when the body has none.
   */
  datatype NewsApiReply = Fail | Ok(articles: Option<seq<Article>>)

  /** The `page` query value after `Number(...)`: a finite integer, or NaN and the infinities. */
  datatype PageValue = Finite(n: int) | NonFinite

  /** Items per Finnhub page. */
  const PageSize: nat := 5

  // ---------------------------------------------------------------------------
  // Finnhub

  /** One record as an item: missing text becomes "", a missing source "Finnhub", a missing time the current one. */
  function FromFinnhub(rec: FinnhubRecord, nowIso: string): NewsItem {
    NewsItem(
      Some(OrDefault(rec.headline, "")),
      OrDefault(rec.summary, ""),
      Some(OrDefault(rec.url, "")),
      OrDefault(rec.source, "Finnhub"),
      Some(rec.published.GetOr(nowIso)),
      rec.image)
  }

  /** An item worth showing: it has a non-empty title and a non-empty url. */
  predicate Usable(item: NewsItem) {
    item.title.Some? && item.title.value != "" && item.url.Some? && item.url.value != ""
  }

  function Normalise(recs: seq<FinnhubRecord>, nowIso: string): (r: seq<NewsItem>)
    ensures |r| == |recs|
    ensures forall k :: 0 <= k < |recs| ==> r[k] == FromFinnhub(recs[k], nowIso)
  {
    seq(|recs|, k requires 0 <= k < |recs| => FromFinnhub(recs[k], nowIso))
  }

  /**
   * `fetchNewsFromFinnhub`: the usable items among the normalised records. Every item it
   * returns is usable and stems from a record; every record with a headline and a url is kept.
   */
  function FinnhubItems(reply: FinnhubReply, nowIso: string): (r: seq<NewsItem>)
    ensures reply.Unavailable? ==> r == []
    ensures forall k :: 0 <= k < |r| ==> Usable(r[k])
    ensures reply.Records? ==> |r| <= |reply.records|
    ensures reply.Records? ==>
      forall k :: 0 <= k < |r| ==> exists j :: 0 <= j < |reply.records| && r[k] == FromFinnhub(reply.records[j], nowIso)
    ensures reply.Records? ==>
      forall j :: 0 <= j < |reply.records| && OrDefault(reply.records[j].headline, "") != "" && OrDefault(reply.records[j].url, "") != ""
        ==> FromFinnhub(reply.records[j], nowIso) in r
  {
    match reply
    case Unavailable => []
    case Records(recs) =>
      var all := Normalise(recs, nowIso);
      var r := Filter(all, Usable);
      assert forall k :: 0 <= k < |r| ==> r[k] in all;
      r
  }

  /** Normalising keeps upstream order: the items of two batches are those of the first followed by those of the second. */
  lemma FinnhubItemsAppend(a: seq<FinnhubRecord>, b: seq<FinnhubRecord>, nowIso: string)
    ensures FinnhubItems(Records(a + b), nowIso) == FinnhubItems(Records(a), nowIso) + FinnhubItems(Records(b), nowIso)
  {
    assert Normalise(a + b, nowIso) == Normalise(a, nowIso) + Normalise(b, nowIso);
    FilterAppend(Normalise(a, nowIso), Normalise(b, nowIso), Usable);
  }

  /** A record with a headline and a url is kept and its missing source reads "Finnhub"; one without either is dropped. */
  lemma FinnhubSingleRecord(rec: FinnhubRecord, nowIso: string)
    ensures var r := FinnhubItems(Records([rec]), nowIso);
      if OrDefault(rec.headline, "") != "" && OrDefault(rec.url, "") != "" then
        |r| == 1 && r[0].title == rec.headline && r[0].url == rec.url
        && (rec.source.None? ==> r[0].source == "Finnhub")
      else r == []
  {
    var r := FinnhubItems(Records([rec]), nowIso);
    if OrDefault(rec.headline, "") != "" && OrDefault(rec.url, "") != "" {
      assert FromFinnhub(rec, nowIso) in r;
    }
  }

  // ---------------------------------------------------------------------------
  // The synthetic item and NewsAPI

  const FallbackUrlPrefix: string := "https://finance.yahoo.com/quote/"

  /** `fetchNewsFallback`: one item that points at the symbol's Yahoo Finance quote page. */
  function Fallback(symbol: string, nowIso: string): (r: seq<NewsItem>)
    ensures |r| == 1 && Usable(r[0])
    ensures r[0].url.value == FallbackUrlPrefix + symbol && r[0].source == "Yahoo Finance"
    ensures |symbol| <= |r[0].title.value| && r[0].title.value[..|symbol|] == symbol
  {
    [NewsItem(
      Some(symbol + " 股票最新動向"),
      "了解 " + symbol + " 股票的最新市場動向和分析",
      Some(FallbackUrlPrefix + symbol),
      "Yahoo Finance",
      Some(nowIso),
      None)]
  }

  /** One article as an item: a missing description becomes "", a missing source name "Unknown". */
  function FromArticle(a: Article): NewsItem {
    NewsItem(a.title, OrDefault(a.description, ""), a.url, OrDefault(a.sourceName, "Unknown"), a.publishedAt, a.urlToImage)
  }

  /** The NewsAPI branch: the fallback item on failure, otherwise one item per article. */
  function NewsApiItems(reply: NewsApiReply, symbol: string, nowIso: string): (r: seq<NewsItem>)
    ensures reply.Fail? ==> r == Fallback(symbol, nowIso)
    ensures reply.Ok? ==> |r| == |reply.articles.GetOr([])|
    ensures reply.Ok? ==> forall k :: 0 <= k < |r| ==>
      var a := reply.articles.value[k];
      r[k].title == a.title && r[k].url == a.url && r[k].publishedAt == a.publishedAt && r[k].image == a.urlToImage
      && r[k].description == OrDefault(a.description, "") && r[k].source == OrDefault(a.sourceName, "Unknown")
  {
    match reply
    case Fail => Fallback(symbol, nowIso)
    case Ok(articles) =>
      var arts := articles.GetOr([]);
      seq(|arts|, k requires 0 <= k < |arts| => FromArticle(arts[k]))
  }

  // ---------------------------------------------------------------------------
  // fetchNews

  /** The page number used: a finite positive page as given, anything else 1. */
  function PageNumber(page: PageValue): (p: int)
    ensures p >= 1
    ensures page.Finite? && page.n >= 1 ==> p == page.n
  {
    if page.Finite? && page.n > 0 then page.n else 1
  }

  /** Page p (from 1) of a list, `slice(start, start + 5)` with start = (p - 1) * 5. */
  function PageOf<T>(items: seq<T>, p: int): (r: seq<T>)
    requires p >= 1
    ensures |r| <= PageSize
    ensures |r| == if (p - 1) * PageSize >= |items| then 0 else Min(PageSize, |items| - (p - 1) * PageSize)
    ensures forall k :: 0 <= k < |r| ==> r[k] == items[(p - 1) * PageSize + k]
  {
    var start := (p - 1) * PageSize;
    if start >= |items| then [] else items[start..Min(start + PageSize, |items|)]
  }

  function Min(a: int, b: int): int {
    if a <= b then a else b
  }

  /** Finnhub is asked when no source is given, or the source is "all" or "finnhub". */
  predicate ConsultsFinnhub(source: Option<string>) {
    source == None || source == Some("") || source == Some("all") || source == Some("finnhub")
  }

  /**
   * `fetchNews(symbol, page, source)`. `finnhub` answers for a symbol, `newsApi` for a symbol
   * and page number. With a non-empty symbol the result is a page of Finnhub's items when Finnhub
   * is asked and has any, nothing when only Finnhub was wanted, and NewsAPI's answer otherwise.
   */
  function FetchNews(symbol: string, page: PageValue, source: Option<string>,
                     finnhub: string -> FinnhubReply, newsApi: (string, int) -> NewsApiReply,
                     nowIso: string): (r: seq<NewsItem>)
    ensures symbol == "" ==> r == []
    ensures symbol != "" && ConsultsFinnhub(source) && |FinnhubItems(finnhub(symbol), nowIso)| > 0 ==>
      |r| <= PageSize && forall k :: 0 <= k < |r| ==> Usable(r[k]) && r[k] in FinnhubItems(finnhub(symbol), nowIso)
    ensures source == Some("finnhub") && |FinnhubItems(finnhub(symbol), nowIso)| == 0 ==> r == []
    ensures symbol != "" && ConsultsFinnhub(source) && |FinnhubItems(finnhub(symbol), nowIso)| > 0 ==>
      r == PageOf(FinnhubItems(finnhub(symbol), nowIso), PageNumber(page))
    ensures symbol != "" && source != Some("finnhub") && (!ConsultsFinnhub(source) || |FinnhubItems(finnhub(symbol), nowIso)| == 0) ==>
      r == NewsApiItems(newsApi(symbol, PageNumber(page)), symbol, nowIso)
  {
    if symbol == "" then []
    else
      var p := PageNumber(page);
      var fromFinnhub := if ConsultsFinnhub(source) then FinnhubItems(finnhub(symbol), nowIso) else [];
      if |fromFinnhub| > 0 then PageOf(fromFinnhub, p)
      else if source == Some("finnhub") then []
      else NewsApiItems(newsApi(symbol, p), symbol, nowIso)
  }

  /** Any source other than none, "", "all" and "finnhub" never consults Finnhub. */
  lemma OtherSourceSkipsFinnhub(symbol: string, page: PageValue, source: Option<string>,
                                finnhub: string -> FinnhubReply, finnhub2: string -> FinnhubReply,
                                newsApi: (string, int) -> NewsApiReply, nowIso: string)
    requires !ConsultsFinnhub(source)
    ensures FetchNews(symbol, page, source, finnhub, newsApi, nowIso) == FetchNews(symbol, page, source, finnhub2, newsApi, nowIso)
    ensures symbol != "" ==> FetchNews(symbol, page, source, finnhub, newsApi, nowIso) == NewsApiItems(newsApi(symbol, PageNumber(page)), symbol, nowIso)
  {
  }

  /** When Finnhub is asked and has items, NewsAPI is never consulted. */
  lemma FinnhubShadowsNewsApi(symbol: string, page: PageValue, source: Option<string>,
                              finnhub: string -> FinnhubReply,
                              newsApi: (string, int) -> NewsApiReply, newsApi2: (string, int) -> NewsApiReply, nowIso: string)
    requires ConsultsFinnhub(source) && |FinnhubItems(finnhub(symbol), nowIso)| > 0
    ensures FetchNews(symbol, page, source, finnhub, newsApi, nowIso) == FetchNews(symbol, page, source, finnhub, newsApi2, nowIso)
  {
  }

  /** A page that is not a finite positive number is read as page 1. */
  lemma BadPageIsFirstPage(symbol: string, page: PageValue, source: Option<string>,
                           finnhub: string -> FinnhubReply, newsApi: (string, int) -> NewsApiReply, nowIso: string)
    requires page.NonFinite? || page.n <= 0
    ensures FetchNews(symbol, page, source, finnhub, newsApi, nowIso) == FetchNews(symbol, Finite(1), source, finnhub, newsApi, nowIso)
  {
  }

  /**
   * Paging through Finnhub's list shows every item exactly where expected: item i is item
   * i mod 5 of page i / 5 + 1.
   */
  lemma PagesCoverFinnhub(symbol: string, source: Option<string>,
                          finnhub: string -> FinnhubReply, newsApi: (string, int) -> NewsApiReply, nowIso: string, i: nat)
    requires symbol != "" && ConsultsFinnhub(source)
    requires i < |FinnhubItems(finnhub(symbol), nowIso)|
    ensures var r := FetchNews(symbol, Finite(i / PageSize + 1), source, finnhub, newsApi, nowIso);
      i % PageSize < |r| && r[i % PageSize] == FinnhubItems(finnhub(symbol), nowIso)[i]
  {
    var items := FinnhubItems(finnhub(symbol), nowIso);
    var p := i / PageSize + 1;
    assert FetchNews(symbol, Finite(p), source, finnhub, newsApi, nowIso) == PageOf(items, p);
    PageOfCovers(items, i);
  }

  /** Item i of a list is item i mod 5 of page i / 5 + 1. */
  lemma PageOfCovers<T>(items: seq<T>, i: nat)
    requires i < |items|
    ensures i % PageSize < |PageOf(items, i / PageSize + 1)|
    ensures PageOf(items, i / PageSize + 1)[i % PageSize] == items[i]
  {
    var p := i / PageSize + 1;
    var start := (p - 1) * PageSize;
    assert start + i % PageSize == i && 0 <= i % PageSize < PageSize;
    assert |PageOf(items, p)| == Min(PageSize, |items| - start);
  }

  /** Past Finnhub's last page the answer is empty: NewsAPI is not asked instead. */
  lemma PastLastPageIsEmpty(symbol: string, page: int, source: Option<string>,
                            finnhub: string -> FinnhubReply, newsApi: (string, int) -> NewsApiReply, nowIso: string)
    requires symbol != "" && ConsultsFinnhub(source) && page >= 1
    requires 0 < |FinnhubItems(finnhub(symbol), nowIso)| <= (page - 1) * PageSize
    ensures FetchNews(symbol, Finite(page), source, finnhub, newsApi, nowIso) == []
  {
  }

  /** Twelve Finnhub items: page 2 holds items 5-9, page 3 items 10 and 11, page 4 nothing. */
  lemma TwelveItemsPaged(symbol: string, source: Option<string>,
                         finnhub: string -> FinnhubReply, newsApi: (string, int) -> NewsApiReply, nowIso: string)
    requires symbol != "" && ConsultsFinnhub(source)
    requires |FinnhubItems(finnhub(symbol), nowIso)| == 12
    ensures FetchNews(symbol, Finite(2), source, finnhub, newsApi, nowIso) == FinnhubItems(finnhub(symbol), nowIso)[5..10]
    ensures FetchNews(symbol, Finite(3), source, finnhub, newsApi, nowIso) == FinnhubItems(finnhub(symbol), nowIso)[10..12]
    ensures FetchNews(symbol, Finite(4), source, finnhub, newsApi, nowIso) == []
  {
  }

  /** On the NewsAPI branch a failure yields exactly the synthetic Yahoo Finance item. */
  lemma NewsApiFailureFallsBack(symbol: string, page: PageValue, source: Option<string>,
                                finnhub: string -> FinnhubReply, newsApi: (string, int) -> NewsApiReply, nowIso: string)
    requires symbol != "" && source != Some("finnhub")
    requires !ConsultsFinnhub(source) || |FinnhubItems(finnhub(symbol), nowIso)| == 0
    requires newsApi(symbol, PageNumber(page)).Fail?
    ensures var r := FetchNews(symbol, page, source, finnhub, newsApi, nowIso);
      |r| == 1 && r[0].title == Some(symbol + " 股票最新動向") && r[0].url == Some(FallbackUrlPrefix + symbol)
      && r[0].source == "Yahoo Finance"
  {
  }
}
