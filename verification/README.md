# Stock news and quote routes, modelled in Dafny

This project models the server side of a small stock dashboard built on Next.js. It covers two API routes.

`GET /api/news?symbol=…&page=…&source=…` works in four steps:
- It normalises the ticker symbol. A blank symbol is rejected with status 400.
- It picks a provider:
  - Finnhub, paged in-process at 5 items per page;
  - NewsAPI, which pages upstream;
  - a synthetic "Yahoo Finance" item when NewsAPI fails.
- It translates every item's title and description to Traditional Chinese.
- The translation asks a remote service, then runs a fixed English-to-Chinese keyword pass over whatever text results. That pass is a whole-word, case-insensitive regex replace, one dictionary entry after another. The result is kept in a process-local cache under the trimmed text, with a time-to-live.

`GET /api/quote?symbol=…` splits a comma-separated symbol list, keeps the pieces of at most 6 UTF-16 code units, and falls back to a default list. It looks every symbol up and drops the failed lookups.

The modules follow the source:

| file | module | models |
|---|---|---|
| `wrappers.dfy` | `Wrappers` | `Option`, standing for `undefined`/`null` |
| `sequences.dfy` | `Sequences` | `Array.prototype.filter` and `filter(Boolean)` over optional values |
| `jsstring.dfy` | `JsString` | the JavaScript string primitives the routes use: `\w`, ASCII case mapping, `trim`, UTF-16 `.length`, `split`, `x \|\| d`; and `join`, which only the page uses to build the quote request (`src/app/page.tsx:27`) and the quote round-trip lemma uses |
| `keywords.dfy` | `Keywords` | the keyword dictionary and the regex replace passes |
| `keyword_examples.dfy` | `KeywordExamples` | worked texts for the keyword pass |
| `translation_cache.dfy` | `TranslationCache` | `translateText` and its cache |
| `news_providers.dfy` | `NewsProviders` | `fetchNewsFromFinnhub`, `fetchNewsFallback`, `fetchNews` |
| `news_route.dfy` | `NewsRoute` | the news `GET` handler and its enrichment of the items |
| `quote_route.dfy` | `QuoteRoute` | symbol parsing and null filtering in the quote `GET` handler |

Everything outside the process is a parameter:
- the Finnhub answer for a symbol;
- the NewsAPI answer for a symbol and page;
- the translation service's answer for a text;
- the clock reading and the current time as an ISO string;
- the configured time-to-live;
- the quote lookup.

Three details of the code shape the model:
- **The untrimmed text is sent for translation.** `translateText` sends `text` as given to the translation service. It trims the text only to make the cache key (`src/app/api/news/route.ts:68,77`). So texts that differ only in surrounding white space share one cache entry. In the model's sequential fold, that entry holds the translation of whichever text missed first (`TranslationCache.RepeatWithinTtl`). Under the concurrent `Promise.all` of `src/app/api/news/route.ts:205-211`, two such texts in one request can both miss; each gets its own translation, and the store that finishes last decides the entry.
- **NewsAPI is called without a credential check.** When `NEWS_API_KEY` is unset, the code sends an empty `Authorization` header and takes whatever comes back (`src/app/api/news/route.ts:174`). The NewsAPI answer is a parameter of the model either way.
- **`fetchNewsFallback` always yields one item.** Its `try` block builds a literal array and cannot throw, so its empty-list `catch` (`src/app/api/news/route.ts:146-148`) is unreachable.

## Model

| member | source | states |
|---|---|---|
| Sequences.Filter | src/app/api/quote/route.ts:38 | every kept element is an input element that passes the test, every passing input element is kept, and there are no more of them than inputs |
| Sequences.FilterAppend | src/app/api/news/route.ts:129 | filtering works element by element: filtering two lists joined is filtering each and joining the results |
| Sequences.Somes | src/app/api/quote/route.ts:52 | `filter(Boolean)` over lookup results: every value kept was present, every present value is kept, absent ones are dropped |
| JsString.IsWordChar | src/app/api/news/route.ts:91 | the regex class `\w` behind `\b`: the ASCII letters of both cases, the digits and "_", and nothing else |
| JsString.IsJsWhiteSpace | src/app/api/news/route.ts:68 | the characters `trim()` removes: the ECMAScript white space and line terminators, tab to carriage return, space, no-break space, the Unicode space separators, U+2028, U+2029 and U+FEFF |
| JsString.TrimStart | src/app/api/news/route.ts:68 | removes only leading white space, and all of it: a suffix whose cut-off prefix is all white space and which does not start with white space |
| JsString.TrimEnd | src/app/api/news/route.ts:68 | removes only trailing white space, and all of it: a prefix whose cut-off suffix is all white space and which does not end with white space |
| JsString.Trim | src/app/api/news/route.ts:68 | `text.trim()` is an infix of the text whose cut-off ends are white space and whose own ends are not |
| JsString.TrimTrimmed | src/app/api/quote/route.ts:38 | trimming text without surrounding white space is the identity, so a trimmed piece is trimmed again to itself |
| JsString.UpperAscii | src/app/api/news/route.ts:196 | `toUpperCase()` on ASCII letters: same length, each character mapped to its upper case, others unchanged |
| JsString.UpperTrim | src/app/api/quote/route.ts:36 | the symbol normalisation `toUpperCase().trim()` of both routes |
| JsString.OrDefault | src/app/api/news/route.ts:202-203 | JavaScript `x \|\| d` for an optional string: an absent or empty value gives `d` |
| JsString.UpperTrimIdempotent | src/app/api/news/route.ts:196 | `toUpperCase().trim()` applied to its own result changes nothing |
| JsString.Utf16Length | src/app/api/quote/route.ts:38 | `.length` counts at least one and at most two code units per character |
| JsString.Split | src/app/api/quote/route.ts:38 | `split(",")` gives at least one piece and no piece contains a comma |
| JsString.JoinSplit | src/app/api/quote/route.ts:38 | splitting loses nothing: joining the pieces with the separator gives the original text back |
| JsString.SplitJoin | src/app/api/quote/route.ts:38 | the split pieces are unique: separator-free pieces joined with the separator split back into exactly those pieces |
| JsString.Join | src/app/page.tsx:27 | `symbolList.join(",")`, with which the page builds the quote request: the pieces in order with one separator between neighbours |
| Keywords.Dictionary | src/app/api/news/route.ts:12-59 | the 46 English keys and their Chinese replacements, in the object's insertion order |
| Keywords.MatchesAt | src/app/api/news/route.ts:91 | `\bkey\b` with flag `i` matches at a position: the key fits there up to ASCII case, and word characters change on both its ends |
| Keywords.ReplaceFrom | src/app/api/news/route.ts:91-92 | the global regex replace from position i on: at a match emit the replacement and resume after the match, otherwise copy one character |
| Keywords.ReplaceAll | src/app/api/news/route.ts:91-92 | the global, case-insensitive, whole-word regex replace of one dictionary key by its Chinese text, scanning from the start |
| Keywords.Pass | src/app/api/news/route.ts:91-92 | entry n of the dictionary as one global replace of its key by its Chinese text |
| Keywords.ApplyRange | src/app/api/news/route.ts:90-93 | a run of consecutive dictionary entries applied in turn, each on the previous output |
| Keywords.ApplyDictionary | src/app/api/news/route.ts:90-93 | the whole keyword pass: every dictionary entry's replace, in insertion order, each on the previous output |
| Keywords.MatchesAtIsWholeWord | src/app/api/news/route.ts:91 | for every dictionary-shaped key, `\bkey\b` with flag `i` matches at a position exactly when the key occurs there as a whole word, up to case |
| Keywords.ReplaceFromWithoutMatch | src/app/api/news/route.ts:92 | a global replace whose pattern matches nowhere returns the text unchanged |
| Keywords.ApplyDictionaryWithoutTerms | src/app/api/news/route.ts:90-93 | text in which no dictionary key occurs as a whole word comes out of the keyword pass unchanged |
| Keywords.ApplyRangeWithoutWordChars | src/app/api/news/route.ts:90-93 | text without ASCII word characters, such as a Chinese translation, passes every dictionary entry unchanged |
| Keywords.ApplyRangeSplit | src/app/api/news/route.ts:90 | the entries are applied in sequence, so any run of them splits into a first part followed by the rest |
| Keywords.ReplaceAllRemovesEveryOccurrence | src/app/api/news/route.ts:91-92 | after one entry's global replace its key occurs nowhere as a whole word, in any case |
| Keywords.ReplaceAllCreatesNoOccurrence | src/app/api/news/route.ts:91-92 | a replace with Chinese text never creates a whole-word occurrence of another key that was absent |
| Keywords.ApplyRangeKeepsAbsent | src/app/api/news/route.ts:90-93 | a key absent as a whole word stays absent through any run of dictionary entries |
| Keywords.NoKeyLeft | src/app/api/news/route.ts:90-93 | no dictionary key, in any case, occurs as a whole word in the keyword pass's output |
| Keywords.KeywordPassIdempotent | src/app/api/news/route.ts:90-93 | running the keyword pass over its own output changes nothing |
| Keywords.ShadowedEntryNeverFires | src/app/api/news/route.ts:90-93 | an entry whose key contains an earlier entry's key as a whole word never changes any text: the earlier entry has already rewritten that word |
| Keywords.PhraseEntriesNeverFire | src/app/api/news/route.ts:40-41 | the "bull market" and "bear market" entries are dead, because the "market" entry on line 15 runs first |
| Keywords.MatchesAtIgnoresCase | src/app/api/news/route.ts:91 | flag `i`: lower-casing the text neither creates nor removes a match |
| Keywords.ReplaceFromIgnoresCase | src/app/api/news/route.ts:92 | replacing in lower-cased text gives the lower-cased result of replacing in the original |
| Keywords.ApplyRangeIgnoresCase | src/app/api/news/route.ts:90-93 | any run of dictionary entries commutes with lower-casing the text |
| Keywords.KeywordPassIgnoresCase | src/app/api/news/route.ts:90-93 | texts that differ only in ASCII letter case give outputs that differ only in ASCII letter case |
| Keywords.ReplaceAllAtOnlyMatch | src/app/api/news/route.ts:92 | a key that matches at exactly one position is replaced there and the text around it is copied |
| Keywords.ReplaceAllFiresOnce | src/app/api/news/route.ts:92 | the same conclusion, from letter conditions that are easy to check on concrete text: the key matches at m, its first letter does not occur before m in either case, and one of its letters does not occur after the match in either case |
| KeywordExamples.SkipPass | src/app/api/news/route.ts:91-92 | an entry leaves text alone when the text lacks one of the key's letters in both cases |
| KeywordExamples.StockEntryExamples | src/app/api/news/route.ts:13 | "STOCK" becomes "股票", while "stocking" and "stocks" are not whole-word occurrences and stay |
| KeywordExamples.StockRallyExample | src/app/api/news/route.ts:13-18 | "Stock rally " followed by any text that lacks, in either case, the letters a b d f g h k l m p r v w becomes "股票 上漲 " followed by that same text |
| KeywordExamples.StockRallyContinues | src/app/api/news/route.ts:13-18 | the headline "Stock rally continues" becomes "股票 上漲 continues" |
| KeywordExamples.BullMarketExample | src/app/api/news/route.ts:12-59 | "bull market" becomes "牛 市場", not "牛市": "market" is rewritten first, then "bull" on its own |
| TranslationCache.Live | src/app/api/news/route.ts:69-70 | a cache entry is used when it exists under the key and is younger than the time-to-live, in milliseconds |
| TranslationCache.Working | src/app/api/news/route.ts:74-87 | the text the keyword pass starts from: the service's translatedText when it answered with status 200 and a non-empty text, otherwise the input as given |
| TranslationCache.Fresh | src/app/api/news/route.ts:74-93 | what a cache miss computes: the keyword pass over the working text |
| TranslationCache.Translate | src/app/api/news/route.ts:65-101 | empty text gives "" and leaves the cache alone; on a hit (a live entry under the trimmed text) the stored translation is returned and the cache is unchanged; on a miss the keyword pass over the service's answer, or over the text when the service gave nothing usable, is returned and stored under the trimmed text with the current time; no other entry changes |
| TranslationCache.FreshHasNoKeys | src/app/api/news/route.ts:74-93 | whatever the service answers, or when it fails, a freshly computed translation contains no dictionary key as a whole word |
| TranslationCache.TranslateKeepsNoKeys | src/app/api/news/route.ts:65-101 | while the cache holds only key-free translations, every answer is key-free and the cache stays key-free |
| TranslationCache.RepeatWithinTtl | src/app/api/news/route.ts:68-72 | a text that trims to the same key, asked again before the time-to-live has passed, gets the first answer and leaves the cache unchanged, whatever the service says now |
| TranslationCache.RepeatWithinADay | src/app/api/news/route.ts:63-72 | with the default time-to-live of 86400 seconds, the same text asked again within 86,400,000 ms of a missing call gets that call's translation and the cache does not change |
| TranslationCache.ExpiredEntryRecomputed | src/app/api/news/route.ts:69-97 | an entry at least as old as the time-to-live is ignored: the translation is recomputed and restamped |
| TranslationCache.NonPositiveTtlNeverHits | src/app/api/news/route.ts:63-72 | with a time-to-live of zero or less, no entry stamped in the past is ever used |
| TranslationCache.TranslateTransparent | src/app/api/news/route.ts:65-101 | for text without surrounding white space, a cache that agrees with the service changes no answer and keeps agreeing |
| TranslationCache.EmptyCacheInvariants | src/app/api/news/route.ts:62 | the cache the process starts with satisfies both cache invariants |
| NewsProviders.FromFinnhub | src/app/api/news/route.ts:121-128 | one Finnhub record as an item: headline, summary and url default to "", the source to "Finnhub", a missing time to the current one |
| NewsProviders.Normalise | src/app/api/news/route.ts:120-128 | the `map` over Finnhub records: one item per record, in order, each the record's own conversion |
| NewsProviders.Usable | src/app/api/news/route.ts:129 | the `filter((i) => i.title && i.url)` test: the item has a non-empty title and a non-empty url |
| NewsProviders.FinnhubItems | src/app/api/news/route.ts:109-133 | an unavailable Finnhub gives no items; every item kept has a title and a url and comes from a record; every record with a headline and a url is kept |
| NewsProviders.FinnhubItemsAppend | src/app/api/news/route.ts:120-129 | the items keep upstream order: the items for two batches of records are the first batch's followed by the second's |
| NewsProviders.FinnhubSingleRecord | src/app/api/news/route.ts:121-129 | a record with headline and url becomes one item with that title and url and the source "Finnhub" when it has none; any other record is dropped |
| NewsProviders.Fallback | src/app/api/news/route.ts:135-149 | exactly one usable item: its title starts with the symbol, its url is the symbol's Yahoo Finance quote page, its source is "Yahoo Finance" |
| NewsProviders.FromArticle | src/app/api/news/route.ts:182-189 | one NewsAPI article as an item: title, url, time and image as given, a missing description as "", a missing source name as "Unknown" |
| NewsProviders.NewsApiItems | src/app/api/news/route.ts:179-191 | a failed NewsAPI call gives the fallback item; otherwise one item per article, in order, with a missing description read as "" and a missing source name as "Unknown" |
| NewsProviders.PageNumber | src/app/api/news/route.ts:156 | the page used is at least 1 and equals any finite positive page given |
| NewsProviders.PageOf | src/app/api/news/route.ts:162-163 | page p holds at most 5 items: the items from position (p-1)·5 on, as many as remain up to 5 |
| NewsProviders.ConsultsFinnhub | src/app/api/news/route.ts:159 | Finnhub is asked when the source is absent, empty, "all" or "finnhub" |
| NewsProviders.FetchNews | src/app/api/news/route.ts:153-193 | an empty symbol gives nothing; when Finnhub is consulted and has items, the answer is the requested 5-item page of Finnhub's list; source "finnhub" with no Finnhub items gives nothing; in every other case, including no source or "all" with Finnhub empty, the answer is NewsAPI's for the same page |
| NewsProviders.OtherSourceSkipsFinnhub | src/app/api/news/route.ts:159-166 | a source other than none, "", "all" or "finnhub" never depends on Finnhub and gives NewsAPI's answer |
| NewsProviders.FinnhubShadowsNewsApi | src/app/api/news/route.ts:159-164 | when Finnhub is consulted and has items, the answer does not depend on NewsAPI |
| NewsProviders.BadPageIsFirstPage | src/app/api/news/route.ts:156 | a non-finite page, or one of zero or less, is page 1 |
| NewsProviders.PageOfCovers | src/app/api/news/route.ts:162-163 | every item appears in the paging: item i is entry i mod 5 of page i div 5 + 1 |
| NewsProviders.PagesCoverFinnhub | src/app/api/news/route.ts:159-164 | paging through the answers shows every Finnhub item, each on its expected page and position |
| NewsProviders.PastLastPageIsEmpty | src/app/api/news/route.ts:159-165 | past Finnhub's last page the answer is empty; NewsAPI is not asked instead |
| NewsProviders.TwelveItemsPaged | src/app/api/news/route.ts:151-163 | with 12 Finnhub items, page 2 is items 6-10, page 3 is items 11-12 and page 4 is empty |
| NewsProviders.NewsApiFailureFallsBack | src/app/api/news/route.ts:168-192 | when the request reaches NewsAPI and the call fails, the answer is the single synthetic Yahoo Finance item for the symbol |
| NewsRoute.TitleText | src/app/api/news/route.ts:207 | `item.title \|\| ""`: the text whose translation becomes `titleZh` |
| NewsRoute.EnrichOne | src/app/api/news/route.ts:206-209 | each enriched item carries the original item unchanged |
| NewsRoute.Enrich | src/app/api/news/route.ts:205-211 | one enriched item per fetched item, in the fetched order |
| NewsRoute.EnrichOneHasNoKeys | src/app/api/news/route.ts:207-208 | starting from a key-free cache, an item's title and description translations are key-free, and so is the cache after them |
| NewsRoute.EnrichHasNoKeys | src/app/api/news/route.ts:205-211 | starting from a key-free cache, every translation in the answer is key-free, and so is the cache after them |
| NewsRoute.EnrichUncached | src/app/api/news/route.ts:205-211 | the reference enrichment without any cache: item k gets the uncached translations of its own title and description |
| NewsRoute.EnrichOneTransparent | src/app/api/news/route.ts:206-209 | with a cache that agrees with the service, an item with trimmed texts gets exactly its uncached translations |
| NewsRoute.EnrichTransparent | src/app/api/news/route.ts:205-211 | with trimmed texts and a cache that agrees with the service, the sequential fold equals the cache-free reference; the order in which the translations run cannot matter |
| NewsRoute.NormalSymbol | src/app/api/news/route.ts:196-197 | a symbol is used exactly when it is present and non-empty after upper-casing and trimming; a used symbol is non-empty, has no surrounding white space and no lower-case ASCII letter |
| NewsRoute.Get | src/app/api/news/route.ts:195-212 | a missing or blank symbol, and nothing else, gives the 400 error and leaves the cache alone; otherwise one enriched item per fetched item, in order |
| NewsRoute.BlankSymbolRejected | src/app/api/news/route.ts:196-198 | a symbol made only of white space is rejected with "請提供股票代號" and the cache is unchanged |
| NewsRoute.SymbolNormalised | src/app/api/news/route.ts:196 | case and surrounding white space of the symbol do not affect the answer |
| NewsRoute.DefaultsArePageOneOfAll | src/app/api/news/route.ts:202-203 | an absent page and an absent or empty source mean page 1 of source "all" |
| NewsRoute.GetHasNoKeys | src/app/api/news/route.ts:195-212 | starting from a key-free cache, no title or description translation in any answer contains a dictionary key as a whole word |
| QuoteRoute.DefaultSymbols | src/app/api/quote/route.ts:3 | the four symbols asked for when no usable symbol is given: NVDA, AMD, TSLA, INTC |
| QuoteRoute.ShortEnough | src/app/api/quote/route.ts:38 | the `s.length <= 6` test on a trimmed piece, with the length in UTF-16 code units |
| QuoteRoute.TrimAll | src/app/api/quote/route.ts:38 | one trimmed piece per piece, in order |
| QuoteRoute.Pieces | src/app/api/quote/route.ts:38 | every piece kept is trimmed and at most 6 code units long |
| QuoteRoute.ParseSymbols | src/app/api/quote/route.ts:36-40 | the list is never empty; it is the default list or a list of short trimmed pieces; an absent or blank parameter gives the default |
| QuoteRoute.ParseKeepsExactlyShortPieces | src/app/api/quote/route.ts:37-40 | the symbols are the trimmed pieces of the normalised parameter that are short enough, in their order and with repetitions, or the default list when no piece is short |
| QuoteRoute.ParseJoinRoundTrip | src/app/api/quote/route.ts:36-40 | clean symbols joined with commas parse back to the same list, empty symbols included, for every list except the single empty symbol (which joins to a blank parameter) |
| QuoteRoute.EmptyPieceKept | src/app/api/quote/route.ts:38 | "A,,B" asks for "A", "" and "B": the length filter lets empty pieces through |
| QuoteRoute.QuotesFor | src/app/api/quote/route.ts:43-52 | every quote in the answer comes from a symbol's lookup, and every successful lookup's quote is in the answer |
| QuoteRoute.QuotesForAppend | src/app/api/quote/route.ts:43-52 | the quotes keep the symbols' order: the answer for two lists is the first's followed by the second's |
| QuoteRoute.AllQuotesFound | src/app/api/quote/route.ts:43-52 | when every lookup succeeds, there is one quote per symbol, in symbol order |
| QuoteRoute.Get | src/app/api/quote/route.ts:35-52 | no more quotes than requested symbols, and no more than the four defaults when no symbol is given |

## Left out

- The network and HTTP layer are parameters or left out: `fetch`, `revalidate`, request headers, JSON parsing and response status codes. Every way `fetchNewsFromFinnhub` can fail is one `Unavailable` reply. These failures are a missing `FINNHUB_API_KEY`, a non-OK status, a non-array body and an exception. NewsAPI's non-OK status and any exception are likewise one `Fail` reply.
- The 500 answers of both handlers are left out (`src/app/api/news/route.ts:213-215`, `src/app/api/quote/route.ts:53-59`). The news handler reaches its 500 when an upstream JSON field that should be a string is some other truthy value. For a title or description, `text.trim()` (line 68) throws. For `translatedText`, `translated.replace` (line 92) throws outside the `try`. The model's string-typed parameters exclude such values. With all fields strings, no modelled step throws.
- `getDateString` and the Finnhub date window are left out. They are date arithmetic on the clock, and only the Finnhub request uses them; that request is a parameter here.
- `new Date(a.datetime * 1000).toISOString()` and `new Date().toISOString()` are not modelled. A record's time is already a string, and the current time is the `nowIso` parameter.
- `translateText` reads `Date.now()` twice, once for the expiry check and once for the stamp. The model uses one clock reading per call.
- The time-to-live is an integer. A `TRANSLATION_TTL_SECONDS` that is not a number gives `NaN` in the source, and then nothing is ever live; the model has no `NaN`.
- The model's cache is unbounded and every miss stores its entry. A full engine `Map` is not modelled. V8 caps a `Map` at 2^24 entries, and beyond that `set` throws; the `catch` at `src/app/api/news/route.ts:96-98` swallows the error, so the translation is returned without being stored.
- `Promise.all` runs the translations concurrently; the model runs them as a left-to-right fold over one cache. `NewsRoute.EnrichTransparent` shows when the order cannot matter: trimmed texts and a cache that agrees with the service. Interleavings with a clock that moves during a request are not modelled.
- Pages are `Finite(n)` for an integer `n`, or `NonFinite` for `NaN` and the infinities. A fractional page p such as "2.5" is not modelled. There `slice` truncates its indices, giving the 5-item window from ⌊(p−1)·5⌋; NewsAPI would receive the fractional page as given.
- The string-to-number parse of `pageParam` is not modelled either: the request carries the parsed value.
- `toUpperCase` is modelled on the ASCII letters only, and non-ASCII characters are left as they are. JavaScript maps some of them to longer or ASCII text ("ß" to "SS", "ﬁ" to "FI", "ı" to "I"). So the `length <= 6` filter and the symbol passed on can differ from the source: "straße" becomes "STRASSE", 7 code units, and the quote route drops it, while the model keeps "STRAßE".
- `fetchQuote` (`src/app/api/quote/route.ts:5-33`) is a parameter. The chart lookup, the rounding arithmetic and its exceptions are out of scope; an exception becomes `None`, like a missing chart.
- The pages and the layout of the app are not part of this model, apart from the comma join with which the page builds the quote request (`JsString.Join`).
- NewsRoute.Get: its contract gives the items and the 400 path. What the translations are is stated by `NewsRoute.GetHasNoKeys` and `NewsRoute.EnrichTransparent`, not by `Get` itself.
- QuoteRoute.Get: its contract bounds the number of quotes. Which quotes appear is stated by `QuoteRoute.QuotesFor` and `QuoteRoute.AllQuotesFound`.
