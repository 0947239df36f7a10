/**
 * The keyword pass of the news route: for each dictionary entry, in order, the text is
 * rewritten with `text.replace(new RegExp("\\b" + en + "\\b", "gi"), zh)`.
 *
 * A global regex replace scans left to right; where the pattern matches at position i it
 * emits the replacement and resumes after the match, otherwise it copies one character and
 * resumes at i + 1. Word boundaries are judged on the string being rewritten, not on the
 * output. Without the `u` flag `\b` uses the ASCII word class and `i` folds case; since every
 * key is ASCII, folding ASCII letters only is exact for these patterns.
 */
module Keywords {
  import opened JsString

  /** A regex source string; every key of the dictionary is non-empty. */
  type Key = k: string | |k| > 0 witness "a"

  /** Equality of two characters under the `i` flag. */
  predicate SameFold(a: char, b: char) {
    AsciiLower(a) == AsciiLower(b)
  }

  predicate FoldMatch(s: string, i: nat, pat: string)
    requires i + |pat| <= |s|
  {
    forall k :: 0 <= k < |pat| ==> SameFold(s[i + k], pat[k])
  }

  /** Position j holds a word character (positions outside the string do not). */
  predicate WordAt(s: string, j: int) {
    0 <= j < |s| && IsWordChar(s[j])
  }

  /** `\b` at position j: exactly one of the two neighbouring positions is a word character. */
  predicate BoundaryAt(s: string, j: int) {
    WordAt(s, j - 1) != WordAt(s, j)
  }

  /** The regex `\b pat \b` (flag `i`) matches `s` starting at position i. */
  predicate MatchesAt(s: string, i: nat, pat: string) {
    i + |pat| <= |s| && BoundaryAt(s, i) && FoldMatch(s, i, pat) && BoundaryAt(s, i + |pat|)
  }

  /** The output of the global replace for the part of `s` from position i on. */
  function ReplaceFrom(s: string, pat: Key, rep: string, i: nat): string
    requires i <= |s|
    decreases |s| - i
  {
    if i == |s| then []
    else if MatchesAt(s, i, pat) then rep + ReplaceFrom(s, pat, rep, i + |pat|)
    else [s[i]] + ReplaceFrom(s, pat, rep, i + 1)
  }

  /** `s.replace(/\bpat\b/gi, rep)`. */
  function ReplaceAll(s: string, pat: Key, rep: string): string {
    ReplaceFrom(s, pat, rep, 0)
  }

  /** A key that begins and ends with a word character and is all ASCII. */
  predicate Worded(p: string) {
    |p| > 0 && IsWordChar(p[0]) && IsWordChar(p[|p| - 1]) && forall k :: 0 <= k < |p| ==> IsAscii(p[k])
  }

  /** A non-empty replacement with no ASCII character (the Chinese side of the dictionary). */
  predicate Foreign(r: string) {
    |r| > 0 && forall k :: 0 <= k < |r| ==> !IsAscii(r[k])
  }

  /** A dictionary entry (English key, Chinese replacement); every entry of the source has this shape. */
  type Term = t: (string, string) | Worded(t.0) && Foreign(t.1) witness ("a", "牛")

  /** The dictionary at lines 12-59 of the news route, in source-line (= enumeration) order. */
  const Dictionary: seq<Term> :=
    ((DictionaryLines13To16 + DictionaryLines17To20 + DictionaryLines21To24)
     + (DictionaryLines25To28 + DictionaryLines29To32 + DictionaryLines33To36))
    + ((DictionaryLines37To40 + DictionaryLines41To44 + DictionaryLines45To48)
       + (DictionaryLines49To52 + DictionaryLines53To56 + DictionaryLines57To58))

  const DictionaryLines13To16: seq<Term> := [
    ("stock", "股票"),
    ("share", "股份"),
    ("market", "市場"),
    ("trading", "交易")
  ]

  const DictionaryLines17To20: seq<Term> := [
    ("price", "價格"),
    ("rally", "上漲"),
    ("surge", "飆升"),
    ("plunge", "暴跌")
  ]

  const DictionaryLines21To24: seq<Term> := [
    ("decline", "下跌"),
    ("gain", "漲幅"),
    ("loss", "虧損"),
    ("investor", "投資者")
  ]

  const DictionaryLines25To28: seq<Term> := [
    ("wall street", "華爾街"),
    ("earnings", "收益"),
    ("profit", "利潤"),
    ("revenue", "收入")
  ]

  const DictionaryLines29To32: seq<Term> := [
    ("forecast", "預測"),
    ("outlook", "展望"),
    ("upgrade", "升級"),
    ("downgrade", "降級")
  ]

  const DictionaryLines33To36: seq<Term> := [
    ("ipo", "首次公開募股"),
    ("merger", "合併"),
    ("acquisition", "收購"),
    ("bankruptcy", "破產")
  ]

  const DictionaryLines37To40: seq<Term> := [
    ("inflation", "通脹"),
    ("interest rate", "利率"),
    ("federal reserve", "美聯儲"),
    ("bull market", "牛市")
  ]

  const DictionaryLines41To44: seq<Term> := [
    ("bear market", "熊市"),
    ("volatility", "波動性"),
    ("dividend", "股息"),
    ("split", "分拆")
  ]

  const DictionaryLines45To48: seq<Term> := [
    ("sector", "行業"),
    ("tech", "科技"),
    ("financial", "金融"),
    ("healthcare", "醫療")
  ]

  const DictionaryLines49To52: seq<Term> := [
    ("energy", "能源"),
    ("consumer", "消費"),
    ("industrial", "工業"),
    ("bull", "牛")
  ]

  const DictionaryLines53To56: seq<Term> := [
    ("bear", "熊"),
    ("breakout", "突破"),
    ("support", "支撐"),
    ("resistance", "阻力")
  ]

  const DictionaryLines57To58: seq<Term> := [
    ("momentum", "動力"),
    ("sentiment", "情緒")
  ]

  /** The replace-all of dictionary entry n. */
  function Pass(s: string, n: nat): string
    requires n < |Dictionary|
  {
    ReplaceAll(s, Dictionary[n].0, Dictionary[n].1)
  }

  /** Entries a, a+1, ..., b-1 applied in turn, each to the previous one's output. */
  function ApplyRange(s: string, a: nat, b: nat): string
    requires a <= b <= |Dictionary|
    decreases b - a
  {
    if a == b then s else ApplyRange(Pass(s, a), a + 1, b)
  }

  /** The whole keyword pass (lines 90-93 of the news route). */
  function ApplyDictionary(s: string): string {
    ApplyRange(s, 0, |Dictionary|)
  }

  // ---------------------------------------------------------------------------
  // Whole-word matching

  /** A whole-word occurrence of `p` at i: the characters agree up to case and no word character touches either end. */
  predicate WholeWordAt(s: string, i: nat, p: string) {
    i + |p| <= |s| && FoldMatch(s, i, p)
    && (i == 0 || !IsWordChar(s[i - 1]))
    && (i + |p| == |s| || !IsWordChar(s[i + |p|]))
  }

  /** No whole-word occurrence of `q` anywhere in `s`. */
  predicate Absent(s: string, q: string) {
    forall i :: 0 <= i <= |s| ==> !WholeWordAt(s, i, q)
  }

  /** Characters equal up to case are in the same word class and are both ASCII or both not. */
  lemma FoldKeepsClass(a: char, b: char)
    ensures SameFold(a, b) ==> IsWordChar(a) == IsWordChar(b) && IsAscii(a) == IsAscii(b)
  {
    AsciiLowerFacts(a);
    AsciiLowerFacts(b);
  }

  /** For a key that starts and ends with a word character, `\bkey\b` matches exactly the whole-word occurrences. */
  lemma MatchesAtIsWholeWord(s: string, i: nat, p: string)
    requires Worded(p)
    ensures MatchesAt(s, i, p) <==> WholeWordAt(s, i, p)
  {
    if i + |p| <= |s| && FoldMatch(s, i, p) {
      FoldKeepsClass(s[i], p[0]);
      FoldKeepsClass(s[i + |p| - 1], p[|p| - 1]);
    }
  }

  /** A key occurring as a whole word inside a whole-word occurrence of a longer key occurs as a whole word in the text. */
  lemma WholeWordInside(t: string, i: nat, long: string, j: nat, short: string)
    requires Worded(long) && Worded(short)
    requires WholeWordAt(t, i, long) && WholeWordAt(long, j, short)
    ensures WholeWordAt(t, i + j, short)
  {
    forall k | 0 <= k < |short|
      ensures SameFold(t[i + j + k], short[k])
    {
      assert SameFold(t[i + j + k], long[j + k]);
    }
    if j > 0 {
      FoldKeepsClass(t[i + j - 1], long[j - 1]);
    }
    if j + |short| < |long| {
      FoldKeepsClass(t[i + j + |short|], long[j + |short|]);
    }
  }

  // ---------------------------------------------------------------------------
  // Replace-all: text without a match is unchanged

  /** Where the pattern matches nowhere from i on, the rest of the text is copied unchanged. */
  lemma {:induction false} ReplaceFromWithoutMatch(s: string, p: Key, rep: string, i: nat)
    requires i <= |s|
    requires forall j :: i <= j <= |s| ==> !MatchesAt(s, j, p)
    ensures ReplaceFrom(s, p, rep, i) == s[i..]
    decreases |s| - i
  {
    if i < |s| {
      ReplaceFromWithoutMatch(s, p, rep, i + 1);
      assert s[i..] == [s[i]] + s[i + 1..];
    }
  }

  /** Text in which no dictionary key matches anywhere comes out of the passes a..b-1 unchanged. */
  lemma {:induction false} ApplyRangeWithoutTerms(s: string, a: nat, b: nat)
    requires a <= b <= |Dictionary|
    requires forall n, i :: a <= n < b && 0 <= i <= |s| ==> !MatchesAt(s, i, Dictionary[n].0)
    ensures ApplyRange(s, a, b) == s
    decreases b - a
  {
    if a < b {
      ReplaceFromWithoutMatch(s, Dictionary[a].0, Dictionary[a].1, 0);
      ApplyRangeWithoutTerms(s, a + 1, b);
    }
  }

  /** The keyword pass returns text that contains no key as a whole word unchanged. */
  lemma ApplyDictionaryWithoutTerms(s: string)
    requires forall n, i :: 0 <= n < |Dictionary| && 0 <= i <= |s| ==> !WholeWordAt(s, i, Dictionary[n].0)
    ensures ApplyDictionary(s) == s
  {
    forall n, i | 0 <= n < |Dictionary| && 0 <= i <= |s|
      ensures !MatchesAt(s, i, Dictionary[n].0)
    {
      MatchesAtIsWholeWord(s, i, Dictionary[n].0);
    }
    ApplyRangeWithoutTerms(s, 0, |Dictionary|);
  }

  /** Text that every pass in a..b-1 leaves alone comes out of the whole run unchanged. */
  lemma {:induction false} ApplyRangeFixed(s: string, a: nat, b: nat)
    requires a <= b <= |Dictionary|
    requires forall n :: a <= n < b ==> Pass(s, n) == s
    ensures ApplyRange(s, a, b) == s
    decreases b - a
  {
    if a < b {
      ApplyRangeFixed(s, a + 1, b);
    }
  }

  /** Text with no ASCII word character (Chinese text, say) passes through every entry unchanged. */
  lemma ApplyRangeWithoutWordChars(s: string, a: nat, b: nat)
    requires a <= b <= |Dictionary|
    requires forall k :: 0 <= k < |s| ==> !IsWordChar(s[k])
    ensures ApplyRange(s, a, b) == s
  {
    forall n, i | a <= n < b && 0 <= i <= |s|
      ensures !MatchesAt(s, i, Dictionary[n].0)
    {
      if i + |Dictionary[n].0| <= |s| {
        FoldKeepsClass(s[i], Dictionary[n].0[0]);
      }
    }
    ApplyRangeWithoutTerms(s, a, b);
  }

  /** The passes a..b-1 may be run as a..m-1 followed by m..b-1. */
  lemma {:induction false} ApplyRangeSplit(s: string, a: nat, m: nat, b: nat)
    requires a <= m <= b <= |Dictionary|
    ensures ApplyRange(s, a, b) == ApplyRange(ApplyRange(s, a, m), m, b)
    decreases m - a
  {
    if a < m {
      ApplyRangeSplit(Pass(s, a), a + 1, m, b);
    }
  }

  // ---------------------------------------------------------------------------
  // Replace-all: every whole-word occurrence goes, and none is created

  /** An occurrence of `q` at j in output text `t` whose left neighbour before position 0 is a word character iff `leftWord`. */
  predicate OccursAfter(t: string, j: nat, q: string, leftWord: bool) {
    j + |q| <= |t| && FoldMatch(t, j, q)
    && (if j == 0 then !leftWord else !IsWordChar(t[j - 1]))
    && (j + |q| == |t| || !IsWordChar(t[j + |q|]))
  }

  /**
   * What the output already emitted before the suffix for position i can look like: a word
   * character only when s[i-1] is one (a copy), otherwise s[i-1] and s[i] are not both word
   * characters (a copy of a non-word character, the start, or a replacement after a match).
   */
  predicate Context(s: string, i: nat, leftWord: bool) {
    (leftWord ==> WordAt(s, i - 1)) && (!leftWord ==> !WordAt(s, i - 1) || !WordAt(s, i))
  }

  /** An all-ASCII start of the output is copied from the input; the character after it is a copy or starts a match. */
  lemma {:induction false} CopiedPrefix(s: string, p: Key, rep: string, i: nat, k: nat)
    requires Foreign(rep) && i <= |s|
    requires k <= |ReplaceFrom(s, p, rep, i)|
    requires forall x :: 0 <= x < k ==> IsAscii(ReplaceFrom(s, p, rep, i)[x])
    ensures i + k <= |s| && ReplaceFrom(s, p, rep, i)[..k] == s[i..i + k]
    ensures k == |ReplaceFrom(s, p, rep, i)| ==> i + k == |s|
    ensures k < |ReplaceFrom(s, p, rep, i)| ==>
      i + k < |s| && (ReplaceFrom(s, p, rep, i)[k] == s[i + k] || MatchesAt(s, i + k, p))
    decreases k
  {
    var t := ReplaceFrom(s, p, rep, i);
    if i < |s| {
      if MatchesAt(s, i, p) {
        assert t[0] == rep[0] && !IsAscii(t[0]);
        assert k == 0;
      } else if k > 0 {
        var u := ReplaceFrom(s, p, rep, i + 1);
        assert t == [s[i]] + u;
        assert forall x :: 0 <= x < k - 1 ==> u[x] == t[x + 1];
        CopiedPrefix(s, p, rep, i + 1, k - 1);
        assert t[..k] == [s[i]] + u[..k - 1];
      }
    }
  }

  /** An occurrence at the very start of the output for a copied position is a whole-word occurrence in the input. */
  lemma OccurrenceAtCopyIsInInput(s: string, p: Key, rep: string, q: string, i: nat, leftWord: bool)
    requires Foreign(rep) && Worded(p) && Worded(q)
    requires i <= |s| && Context(s, i, leftWord)
    ensures OccursAfter(ReplaceFrom(s, p, rep, i), 0, q, leftWord) ==> WholeWordAt(s, i, q)
  {
    var t := ReplaceFrom(s, p, rep, i);
    if OccursAfter(t, 0, q, leftWord) {
      forall x | 0 <= x < |q|
        ensures IsAscii(t[x])
      {
        FoldKeepsClass(t[x], q[x]);
      }
      CopiedPrefix(s, p, rep, i, |q|);
      assert forall x :: 0 <= x < |q| ==> t[x] == s[i + x];
      FoldKeepsClass(s[i], q[0]);
      FoldKeepsClass(s[i + |q| - 1], q[|q| - 1]);
      if |q| < |t| && t[|q|] != s[i + |q|] {
        FoldKeepsClass(s[i + |q|], p[0]);
      }
    }
  }

  /**
   * The output suffix for position i holds no occurrence of `q`, when `q` is the key itself
   * or `q` has no whole-word occurrence in the input from i on.
   */
  lemma {:induction false} NoOccurrenceInOutput(s: string, p: Key, rep: string, q: string, i: nat, leftWord: bool, j: nat)
    requires Worded(p) && Foreign(rep) && Worded(q)
    requires i <= |s| && Context(s, i, leftWord)
    requires q == p || forall k :: i <= k <= |s| ==> !WholeWordAt(s, k, q)
    ensures !OccursAfter(ReplaceFrom(s, p, rep, i), j, q, leftWord)
    decreases |s| - i, 1
  {
    if i < |s| {
      if MatchesAt(s, i, p) {
        NoOccurrenceAfterMatch(s, p, rep, q, i, leftWord, j);
      } else if j == 0 {
        NoOccurrenceAtCopy(s, p, rep, q, i, leftWord);
      } else {
        NoOccurrenceAfterCopy(s, p, rep, q, i, leftWord, j);
      }
    }
  }

  /** The case of NoOccurrenceInOutput where the key matches at i and the replacement is emitted. */
  lemma {:induction false} NoOccurrenceAfterMatch(s: string, p: Key, rep: string, q: string, i: nat, leftWord: bool, j: nat)
    requires Worded(p) && Foreign(rep) && Worded(q)
    requires i < |s| && MatchesAt(s, i, p)
    requires q == p || forall k :: i <= k <= |s| ==> !WholeWordAt(s, k, q)
    ensures !OccursAfter(ReplaceFrom(s, p, rep, i), j, q, leftWord)
    decreases |s| - i, 0
  {
    var t := ReplaceFrom(s, p, rep, i);
    var u := ReplaceFrom(s, p, rep, i + |p|);
    assert t == rep + u;
    if j < |rep| {
      FoldKeepsClass(t[j], q[0]);
    } else {
      assert OccursAfter(t, j, q, leftWord) ==> OccursAfter(u, j - |rep|, q, false);
      NoOccurrenceInOutput(s, p, rep, q, i + |p|, false, j - |rep|);
    }
  }

  /** The case of NoOccurrenceInOutput where s[i] is copied and the occurrence would start with the copy. */
  lemma NoOccurrenceAtCopy(s: string, p: Key, rep: string, q: string, i: nat, leftWord: bool)
    requires Worded(p) && Foreign(rep) && Worded(q)
    requires i < |s| && Context(s, i, leftWord) && !MatchesAt(s, i, p)
    requires q == p || forall k :: i <= k <= |s| ==> !WholeWordAt(s, k, q)
    ensures !OccursAfter(ReplaceFrom(s, p, rep, i), 0, q, leftWord)
  {
    OccurrenceAtCopyIsInInput(s, p, rep, q, i, leftWord);
    MatchesAtIsWholeWord(s, i, p);
  }

  /** The case of NoOccurrenceInOutput where s[i] is copied and the occurrence would start after the copy. */
  lemma {:induction false} NoOccurrenceAfterCopy(s: string, p: Key, rep: string, q: string, i: nat, leftWord: bool, j: nat)
    requires Worded(p) && Foreign(rep) && Worded(q)
    requires i < |s| && !MatchesAt(s, i, p) && j > 0
    requires q == p || forall k :: i <= k <= |s| ==> !WholeWordAt(s, k, q)
    ensures !OccursAfter(ReplaceFrom(s, p, rep, i), j, q, leftWord)
    decreases |s| - i, 0
  {
    var t := ReplaceFrom(s, p, rep, i);
    var u := ReplaceFrom(s, p, rep, i + 1);
    assert t == [s[i]] + u;
    OccursAfterCopy(t, s[i], u, j, q, leftWord);
    NoOccurrenceInOutput(s, p, rep, q, i + 1, IsWordChar(s[i]), j - 1);
  }

  /** An occurrence after a leading character c is an occurrence in the rest, whose left neighbour is c. */
  lemma OccursAfterCopy(t: string, c: char, u: string, j: nat, q: string, leftWord: bool)
    requires t == [c] + u && j > 0
    ensures OccursAfter(t, j, q, leftWord) ==> OccursAfter(u, j - 1, q, IsWordChar(c))
  {
    if OccursAfter(t, j, q, leftWord) {
      forall k | 0 <= k < |q|
        ensures SameFold(u[j - 1 + k], q[k])
      {
        assert t[j + k] == u[j - 1 + k];
      }
    }
  }

  /** Replace-all is complete: afterwards the key has no whole-word occurrence left. */
  lemma ReplaceAllRemovesEveryOccurrence(s: string, p: Key, rep: string)
    requires Worded(p) && Foreign(rep)
    ensures Absent(ReplaceAll(s, p, rep), p)
  {
    var t := ReplaceAll(s, p, rep);
    forall j | 0 <= j <= |t|
      ensures !WholeWordAt(t, j, p)
    {
      NoOccurrenceInOutput(s, p, rep, p, 0, false, j);
    }
  }

  /** Replace-all creates no new whole-word occurrence of any other key. */
  lemma ReplaceAllCreatesNoOccurrence(s: string, p: Key, rep: string, q: string)
    requires Worded(p) && Foreign(rep) && Worded(q)
    requires Absent(s, q)
    ensures Absent(ReplaceAll(s, p, rep), q)
  {
    var t := ReplaceAll(s, p, rep);
    forall j | 0 <= j <= |t|
      ensures !WholeWordAt(t, j, q)
    {
      NoOccurrenceInOutput(s, p, rep, q, 0, false, j);
    }
  }

  /** Once a key is absent as a whole word, the dictionary passes keep it absent. */
  lemma {:induction false} ApplyRangeKeepsAbsent(s: string, q: string, a: nat, b: nat)
    requires Worded(q) && Absent(s, q)
    requires a <= b <= |Dictionary|
    ensures Absent(ApplyRange(s, a, b), q)
    decreases b - a
  {
    if a < b {
      ReplaceAllCreatesNoOccurrence(s, Dictionary[a].0, Dictionary[a].1, q);
      ApplyRangeKeepsAbsent(Pass(s, a), q, a + 1, b);
    }
  }

  /** Every key is gone from the keyword pass's output: entry n removes it, and no later entry brings it back. */
  lemma NoKeyLeft(s: string, n: nat)
    requires n < |Dictionary|
    ensures Absent(ApplyDictionary(s), Dictionary[n].0)
  {
    var before := ApplyRange(s, 0, n);
    ApplyRangeSplit(s, 0, n, |Dictionary|);
    ApplyRangeSplit(before, n, n + 1, |Dictionary|);
    ReplaceAllRemovesEveryOccurrence(before, Dictionary[n].0, Dictionary[n].1);
    ApplyRangeKeepsAbsent(Pass(before, n), Dictionary[n].0, n + 1, |Dictionary|);
  }

  /** Running the keyword pass on its own output changes nothing. */
  lemma KeywordPassIdempotent(s: string)
    ensures ApplyDictionary(ApplyDictionary(s)) == ApplyDictionary(s)
  {
    var t := ApplyDictionary(s);
    forall n, i | 0 <= n < |Dictionary| && 0 <= i <= |t|
      ensures !WholeWordAt(t, i, Dictionary[n].0)
    {
      NoKeyLeft(s, n);
    }
    ApplyDictionaryWithoutTerms(t);
  }

  /**
   * Order dependence: an entry whose key contains an earlier entry's key as a whole word never
   * fires, because the earlier pass has already rewritten every such word.
   */
  lemma ShadowedEntryNeverFires(s: string, m: nat, n: nat, j: nat)
    requires m < n < |Dictionary|
    requires WholeWordAt(Dictionary[n].0, j, Dictionary[m].0)
    ensures Pass(ApplyRange(s, 0, n), n) == ApplyRange(s, 0, n)
  {
    var long := Dictionary[n].0;
    var short := Dictionary[m].0;
    var before := ApplyRange(s, 0, m);
    ApplyRangeSplit(s, 0, m, n);
    ReplaceAllRemovesEveryOccurrence(before, short, Dictionary[m].1);
    ApplyRangeKeepsAbsent(Pass(before, m), short, m + 1, n);
    var t := ApplyRange(s, 0, n);
    forall i | 0 <= i <= |t|
      ensures !MatchesAt(t, i, long)
    {
      MatchesAtIsWholeWord(t, i, long);
      if WholeWordAt(t, i, long) {
        WholeWordInside(t, i, long, j, short);
      }
    }
    ReplaceFromWithoutMatch(t, long, Dictionary[n].1, 0);
  }

  /** The "bull market" and "bear market" entries (lines 40-41) never change the text: "market" (line 15) runs first. */
  lemma PhraseEntriesNeverFire(s: string)
    ensures Dictionary[27].0 == "bull market" && Dictionary[28].0 == "bear market"
    ensures Pass(ApplyRange(s, 0, 27), 27) == ApplyRange(s, 0, 27)
    ensures Pass(ApplyRange(s, 0, 28), 28) == ApplyRange(s, 0, 28)
  {
    assert Dictionary[2].0 == "market";
    assert WholeWordAt(Dictionary[27].0, 5, Dictionary[2].0);
    assert WholeWordAt(Dictionary[28].0, 5, Dictionary[2].0);
    ShadowedEntryNeverFires(s, 2, 27, 5);
    ShadowedEntryNeverFires(s, 2, 28, 5);
  }

  // ---------------------------------------------------------------------------
  // Case-insensitivity

  /** Lower-casing the text moves no match: the `i` flag compares folded characters and `\b` ignores case. */
  lemma MatchesAtIgnoresCase(s: string, i: nat, p: string)
    ensures MatchesAt(LowerAscii(s), i, p) == MatchesAt(s, i, p)
  {
    var l := LowerAscii(s);
    forall j | 0 <= j < |s|
      ensures IsWordChar(l[j]) == IsWordChar(s[j]) && AsciiLower(l[j]) == AsciiLower(s[j])
    {
      AsciiLowerFacts(s[j]);
    }
    if i + |p| <= |s| {
      assert FoldMatch(l, i, p) == FoldMatch(s, i, p);
    }
  }

  /** Replacing in lower-cased text gives the lower-cased result of replacing in the original text. */
  lemma {:induction false} ReplaceFromIgnoresCase(s: string, p: Key, rep: string, i: nat)
    requires Foreign(rep) && i <= |s|
    ensures ReplaceFrom(LowerAscii(s), p, rep, i) == LowerAscii(ReplaceFrom(s, p, rep, i))
    decreases |s| - i
  {
    if i < |s| {
      MatchesAtIgnoresCase(s, i, p);
      if MatchesAt(s, i, p) {
        ReplaceFromIgnoresCase(s, p, rep, i + |p|);
        LowerAsciiAppend(rep, ReplaceFrom(s, p, rep, i + |p|));
        LowerAsciiKeepsNonAscii(rep);
      } else {
        ReplaceFromIgnoresCase(s, p, rep, i + 1);
        LowerAsciiAppend([s[i]], ReplaceFrom(s, p, rep, i + 1));
      }
    }
  }

  /** The passes a..b-1 commute with lower-casing. */
  lemma {:induction false} ApplyRangeIgnoresCase(s: string, a: nat, b: nat)
    requires a <= b <= |Dictionary|
    ensures ApplyRange(LowerAscii(s), a, b) == LowerAscii(ApplyRange(s, a, b))
    decreases b - a
  {
    if a < b {
      ReplaceFromIgnoresCase(s, Dictionary[a].0, Dictionary[a].1, 0);
      ApplyRangeIgnoresCase(Pass(s, a), a + 1, b);
    }
  }

  /**
   * The keyword pass is case-insensitive: texts that differ only in the case of ASCII letters
   * come out differing only in the case of ASCII letters, and lower-casing first changes nothing.
   */
  lemma KeywordPassIgnoresCase(s: string, t: string)
    requires LowerAscii(s) == LowerAscii(t)
    ensures ApplyDictionary(LowerAscii(s)) == LowerAscii(ApplyDictionary(s))
    ensures LowerAscii(ApplyDictionary(s)) == LowerAscii(ApplyDictionary(t))
  {
    ApplyRangeIgnoresCase(s, 0, |Dictionary|);
    ApplyRangeIgnoresCase(t, 0, |Dictionary|);
  }

  // ---------------------------------------------------------------------------
  // Tools for concrete texts

  /** Inside a single word, a key can only match the whole word. */
  lemma MatchInsideWord(w: string, i: nat, p: Key)
    requires forall k :: 0 <= k < |w| ==> IsWordChar(w[k])
    ensures MatchesAt(w, i, p) ==> i == 0 && |p| == |w|
  {
  }

  /** Up to the first place the key's initial letter occurs, the text is copied. */
  lemma {:induction false} ReplaceFromCopiesUntil(s: string, p: Key, rep: string, i: nat, m: nat)
    requires i <= m <= |s|
    requires 'a' <= p[0] <= 'z' && p[0] !in s[i..m] && AsciiUpper(p[0]) !in s[i..m]
    ensures ReplaceFrom(s, p, rep, i) == s[i..m] + ReplaceFrom(s, p, rep, m)
    decreases m - i
  {
    if i < m {
      assert s[i] in s[i..m];
      assert !SameFold(s[i], p[0]);
      assert s[i + 1..m] == s[i..m][1..];
      ReplaceFromCopiesUntil(s, p, rep, i + 1, m);
      assert s[i..m] == [s[i]] + s[i + 1..m];
    }
  }

  /** From i on the text is copied when it lacks, in both cases, some letter of the key. */
  lemma ReplaceFromSkipsMissingLetter(s: string, p: Key, rep: string, i: nat, c: char)
    requires i <= |s|
    requires 'a' <= c <= 'z' && c in p && c !in s[i..] && AsciiUpper(c) !in s[i..]
    ensures ReplaceFrom(s, p, rep, i) == s[i..]
  {
    var k :| 0 <= k < |p| && p[k] == c;
    forall j | i <= j <= |s|
      ensures !MatchesAt(s, j, p)
    {
      if j + |p| <= |s| {
        assert s[j + k] in s[i..];
        assert !SameFold(s[j + k], p[k]);
      }
    }
    ReplaceFromWithoutMatch(s, p, rep, i);
  }
  /** Up to the first match at or after i, the text is copied. */
  lemma {:induction false} CopiesUntilMatch(s: string, p: Key, rep: string, i: nat, m: nat)
    requires i <= m <= |s|
    requires forall j :: i <= j < m ==> !MatchesAt(s, j, p)
    ensures ReplaceFrom(s, p, rep, i) == s[i..m] + ReplaceFrom(s, p, rep, m)
    decreases m - i
  {
    if i < m {
      CopiesUntilMatch(s, p, rep, i + 1, m);
      assert s[i..m] == [s[i]] + s[i + 1..m];
    }
  }

  /** A key that matches at exactly one position is replaced there, and the text around it is copied. */
  lemma ReplaceAllAtOnlyMatch(s: string, p: Key, rep: string, m: nat)
    requires MatchesAt(s, m, p)
    requires forall j :: 0 <= j <= |s| && j != m ==> !MatchesAt(s, j, p)
    ensures ReplaceAll(s, p, rep) == s[..m] + rep + s[m + |p|..]
  {
    CopiesUntilMatch(s, p, rep, 0, m);
    ReplaceFromWithoutMatch(s, p, rep, m + |p|);
    assert s[0..m] == s[..m];
  }

  /**
   * A key whose initial letter does not occur before position m, that matches at m, and one
   * of whose letters does not occur after the match, is replaced exactly there.
   */
  lemma ReplaceAllFiresOnce(s: string, p: Key, rep: string, m: nat, c: char)
    requires MatchesAt(s, m, p)
    requires 'a' <= p[0] <= 'z' && p[0] !in s[..m] && AsciiUpper(p[0]) !in s[..m]
    requires 'a' <= c <= 'z' && c in p && c !in s[m + |p|..] && AsciiUpper(c) !in s[m + |p|..]
    ensures ReplaceAll(s, p, rep) == s[..m] + rep + s[m + |p|..]
  {
    assert s[0..m] == s[..m];
    ReplaceFromCopiesUntil(s, p, rep, 0, m);
    ReplaceFromSkipsMissingLetter(s, p, rep, m + |p|, c);
  }

}
