/**
 * The translation of one title or description in the news route (`translateText`): a
 * process-local cache keyed by the trimmed text with a time-to-live, a remote translation
 * service whose answer is a parameter, and the keyword pass over whatever text results.
 */
module TranslationCache {
  import opened Wrappers
  import opened JsString
  import opened Keywords

  /** The time-to-live, in seconds, when TRANSLATION_TTL_SECONDS is not set. */
  const DefaultTtlSeconds: int := 86400

  /** A remembered translation and the clock reading, in milliseconds, when it was stored. */
  datatype Entry = Entry(translated: string, ts: int)

  type Cache = map<string, Entry>

  /**
   * The text the keyword pass starts from. `reply` is the remote service's answer: Some(t) when
   * it answered with status 200 and translatedText t, None when the request failed or answered
   * otherwise. An empty translatedText is falsy and leaves the input in place.
   */
  function Working(text: string, reply: Option<string>): string {
    if reply.Some? && reply.value != "" then reply.value else text
  }

  /** What a cache miss computes: the keyword pass over the working text. */
  function Fresh(text: string, reply: Option<string>): string {
    ApplyDictionary(Working(text, reply))
  }

  /** The cache holds `key` and its entry is younger than the time-to-live at time `now`. */
  predicate Live(cache: Cache, key: string, now: int, ttlSeconds: int) {
    key in cache && now - cache[key].ts < ttlSeconds * 1000
  }

  /** No dictionary key occurs in `t` as a whole word. */
  predicate NoKeys(t: string) {
    forall n :: 0 <= n < |Dictionary| ==> Absent(t, Dictionary[n].0)
  }

  /** Every remembered translation is free of dictionary keys. */
  predicate CacheHasNoKeys(cache: Cache) {
    forall k :: k in cache ==> NoKeys(cache[k].translated)
  }

  /**
   * `translateText(text)` at clock reading `now`: the translation returned and the cache after
   * the call. The empty text short-circuits; a live entry under the trimmed text is returned
   * as stored and the cache is left alone (a hit); otherwise the untrimmed text is translated,
   * passed through the keyword pass and stored under its trimmed form with the current time (a miss).
   */
  function Translate(cache: Cache, text: string, now: int, ttlSeconds: int, reply: Option<string>): (r: (string, Cache))
    ensures text == "" ==> r == ("", cache)
    ensures forall k :: k in cache && k != Trim(text) ==> k in r.1 && r.1[k] == cache[k]
    ensures forall k :: k in r.1 ==> k in cache || (text != "" && k == Trim(text))
    ensures text != "" ==> Trim(text) in r.1 && r.1[Trim(text)].translated == r.0
    ensures text != "" && ttlSeconds > 0 && (Trim(text) in cache ==> cache[Trim(text)].ts <= now) ==> Live(r.1, Trim(text), now, ttlSeconds)
    ensures text != "" && Live(cache, Trim(text), now, ttlSeconds) ==> r == (cache[Trim(text)].translated, cache)
    ensures text != "" && !Live(cache, Trim(text), now, ttlSeconds) ==>
      r == (Fresh(text, reply), cache[Trim(text) := Entry(Fresh(text, reply), now)])
  {
    if text == "" then ("", cache)
    else
      var key := Trim(text);
      if Live(cache, key, now, ttlSeconds) then (cache[key].translated, cache)
      else
        var t := Fresh(text, reply);
        (t, cache[key := Entry(t, now)])
  }

  // ---------------------------------------------------------------------------
  // The keyword pass always runs, so no translation carries a dictionary key

  /** Every result of a cache miss is free of dictionary keys. */
  lemma FreshHasNoKeys(text: string, reply: Option<string>)
    ensures NoKeys(Fresh(text, reply))
  {
    forall n | 0 <= n < |Dictionary|
      ensures Absent(Fresh(text, reply), Dictionary[n].0)
    {
      NoKeyLeft(Working(text, reply), n);
    }
  }

  /** A cache of key-free translations returns a key-free translation and stays key-free. */
  lemma TranslateKeepsNoKeys(cache: Cache, text: string, now: int, ttlSeconds: int, reply: Option<string>)
    requires CacheHasNoKeys(cache)
    ensures NoKeys(Translate(cache, text, now, ttlSeconds, reply).0)
    ensures CacheHasNoKeys(Translate(cache, text, now, ttlSeconds, reply).1)
  {
    FreshHasNoKeys(text, reply);
    if text == "" {
      forall n | 0 <= n < |Dictionary|
        ensures Absent("", Dictionary[n].0)
      {
      }
    }
  }

  // ---------------------------------------------------------------------------
  // Time-to-live

  /**
   * A second call whose text trims to the same key, made before the entry stored by a first
   * missing call expires, returns the first call's translation and changes nothing, whatever
   * the remote service would answer now. Texts differing only in surrounding white space share
   * the entry, although the stored translation was computed from the first text as given.
   */
  lemma RepeatWithinTtl(cache: Cache, text: string, again: string, now: int, later: int, ttlSeconds: int,
                        reply: Option<string>, reply2: Option<string>)
    requires text != "" && again != "" && Trim(again) == Trim(text)
    requires !Live(cache, Trim(text), now, ttlSeconds)
    requires now <= later < now + ttlSeconds * 1000
    ensures var first := Translate(cache, text, now, ttlSeconds, reply);
            Translate(first.1, again, later, ttlSeconds, reply2) == first
  {
  }

  /**
   * With the default time-to-live of a day, a text asked for again within 86,400,000 ms of a
   * missing call gets that call's translation, and the cache does not change.
   */
  lemma RepeatWithinADay(cache: Cache, text: string, now: int, later: int, reply: Option<string>, reply2: Option<string>)
    requires text != "" && !Live(cache, Trim(text), now, DefaultTtlSeconds)
    requires now <= later < now + 86_400_000
    ensures var first := Translate(cache, text, now, DefaultTtlSeconds, reply);
            Translate(first.1, text, later, DefaultTtlSeconds, reply2) == first
  {
    RepeatWithinTtl(cache, text, text, now, later, DefaultTtlSeconds, reply, reply2);
  }

  /** Once the time-to-live has passed, the stored translation is ignored and recomputed from the service's answer. */
  lemma ExpiredEntryRecomputed(cache: Cache, text: string, now: int, ttlSeconds: int, reply: Option<string>)
    requires text != "" && Trim(text) in cache
    requires now - cache[Trim(text)].ts >= ttlSeconds * 1000
    ensures Translate(cache, text, now, ttlSeconds, reply).0 == Fresh(text, reply)
    ensures Translate(cache, text, now, ttlSeconds, reply).1[Trim(text)] == Entry(Fresh(text, reply), now)
  {
  }

  /** With a non-positive time-to-live no entry is ever used: every call recomputes. */
  lemma NonPositiveTtlNeverHits(cache: Cache, text: string, now: int, ttlSeconds: int, reply: Option<string>)
    requires text != "" && ttlSeconds <= 0
    requires forall k :: k in cache ==> cache[k].ts <= now
    ensures Translate(cache, text, now, ttlSeconds, reply).0 == Fresh(text, reply)
  {
  }

  // ---------------------------------------------------------------------------
  // The cache is invisible for trimmed texts when it holds what the service says

  /** The translation without any cache, for a service that answers each text deterministically. */
  function Uncached(text: string, remote: string -> Option<string>): string {
    if text == "" then "" else Fresh(text, remote(text))
  }

  /** Every entry is the uncached translation of its key. */
  predicate Coherent(cache: Cache, remote: string -> Option<string>) {
    forall k :: k in cache ==> cache[k].translated == Uncached(k, remote)
  }

  /**
   * For a text without surrounding white space, a coherent cache answers exactly what the
   * uncached computation answers, and stays coherent, at any clock reading and time-to-live.
   */
  lemma TranslateTransparent(cache: Cache, text: string, now: int, ttlSeconds: int, remote: string -> Option<string>)
    requires Coherent(cache, remote) && IsTrimmed(text)
    ensures Translate(cache, text, now, ttlSeconds, remote(text)).0 == Uncached(text, remote)
    ensures Coherent(Translate(cache, text, now, ttlSeconds, remote(text)).1, remote)
  {
    TrimTrimmed(text);
    var r := Translate(cache, text, now, ttlSeconds, remote(text));
    if text != "" && !Live(cache, text, now, ttlSeconds) {
      forall k | k in r.1
        ensures r.1[k].translated == Uncached(k, remote)
      {
        if k != text {
          assert r.1[k] == cache[k];
        }
      }
    }
  }

  /** The empty cache the process starts with is coherent and key-free. */
  lemma EmptyCacheInvariants(remote: string -> Option<string>)
    ensures Coherent(map[], remote) && CacheHasNoKeys(map[])
  {
  }
}
