/**
 * Worked texts for the keyword pass of the news route. Each pass that cannot fire is
 * discharged by a letter of its key that the text lacks; the passes that fire are unfolded.
 */
module KeywordExamples {
  import opened JsString
  import opened Keywords

  /** A pass leaves text alone when the text lacks, in both cases, some letter of the entry's key. */
  lemma SkipPass(t: string, n: nat, c: char)
    requires n < |Dictionary|
    requires 'a' <= c <= 'z' && c in Dictionary[n].0 && c !in t && AsciiUpper(c) !in t
    ensures Pass(t, n) == t
  {
    ReplaceFromSkipsMissingLetter(t, Dictionary[n].0, Dictionary[n].1, 0, c);
  }

  /** "stock" matches in any case, but not as the start of a longer word. */
  lemma StockEntryExamples()
    ensures Pass("STOCK", 0) == "股票"
    ensures Pass("stocking", 0) == "stocking"
    ensures Pass("stocks", 0) == "stocks"
  {
    var p := Dictionary[0].0;
    var rep := Dictionary[0].1;
    assert p == "stock" && rep == "股票";
    assert MatchesAt("STOCK", 0, p);
    assert ReplaceFrom("STOCK", p, rep, 5) == [];
    forall j | 0 <= j <= 8
      ensures !MatchesAt("stocking", j, p)
    {
      MatchInsideWord("stocking", j, p);
    }
    ReplaceFromWithoutMatch("stocking", p, rep, 0);
    forall j | 0 <= j <= 6
      ensures !MatchesAt("stocks", j, p)
    {
      MatchInsideWord("stocks", j, p);
    }
    ReplaceFromWithoutMatch("stocks", p, rep, 0);
  }

  /** No character of the text, lower-cased, is one of the letters. */
  predicate Lacks(t: string, letters: string) {
    forall k :: 0 <= k < |t| ==> AsciiLower(t[k]) !in letters
  }

  /** Every letter is a lower-case ASCII letter. */
  predicate LowerLetters(letters: string) {
    forall k :: 0 <= k < |letters| ==> 'a' <= letters[k] <= 'z'
  }

  /** The text contains none of the letters, in either case. */
  predicate Avoids(t: string, letters: string) {
    forall c :: c in letters ==> c !in t && AsciiUpper(c) !in t
  }

  /** For lower-case letters, lacking them character by character is avoiding them in either case. */
  lemma LacksAvoids(t: string, letters: string)
    requires LowerLetters(letters) && Lacks(t, letters)
    ensures Avoids(t, letters)
  {
    forall c | c in letters
      ensures c !in t && AsciiUpper(c) !in t
    {
      var i :| 0 <= i < |letters| && letters[i] == c;
      assert AsciiLower(c) == c && AsciiLower(AsciiUpper(c)) == c;
    }
  }

  /** Lacking some letters means lacking any of them. */
  lemma LacksFewer(t: string, letters: string, fewer: string)
    requires Lacks(t, letters)
    requires forall i :: 0 <= i < |fewer| ==> fewer[i] in letters
    ensures Lacks(t, fewer)
  {
  }

  lemma LacksAppend(a: string, b: string, letters: string)
    requires Lacks(a, letters) && Lacks(b, letters)
    ensures Lacks(a + b, letters)
  {
    forall k | 0 <= k < |a + b|
      ensures AsciiLower((a + b)[k]) !in letters
    {
      if k >= |a| {
        assert (a + b)[k] == b[k - |a|];
      }
    }
  }

  /** A text without word characters lacks every lower-case letter. */
  lemma NoWordCharsLack(w: string, letters: string)
    requires forall k :: 0 <= k < |w| ==> !IsWordChar(w[k])
    requires LowerLetters(letters)
    ensures Lacks(w, letters)
  {
    forall k | 0 <= k < |w|
      ensures AsciiLower(w[k]) !in letters
    {
      AsciiLowerFacts(w[k]);
    }
  }

  /** Entries a..k-1 change nothing, entry k maps s to t, and entries k+1..b-1 map t to u. */
  lemma FiresAt(s: string, t: string, u: string, a: nat, k: nat, b: nat)
    requires a <= k < b <= |Dictionary|
    requires ApplyRange(s, a, k) == s && Pass(s, k) == t && ApplyRange(t, k + 1, b) == u
    ensures ApplyRange(s, a, b) == u
  {
    ApplyRangeSplit(s, a, k, b);
    ApplyRangeSplit(s, k, k + 1, b);
  }

  /**
   * "Stock rally continues" and its kin: "Stock" (line 13) and "rally" (line 18) are rewritten,
   * and whatever follows is left alone as long as it cannot spell any other key.
   */
  lemma StockRallyExample(w: string)
    requires Lacks(w, "abdfghklmprvw")
    ensures ApplyDictionary("Stock rally " + w) == "股票 上漲 " + w
  {
    StockRallySteps("Stock rally " + w, "股票 rally " + w, "股票 上漲 " + w, w);
  }

  /** The headline "Stock rally continues" itself. */
  lemma StockRallyContinues()
    ensures ApplyDictionary("Stock rally continues") == "股票 上漲 continues"
  {
    var w := "continues";
    assert Lacks(w, "abdfghklmprvw");
    StockRallyExample(w);
    assert "Stock rally " + w == "Stock rally continues";
    assert "股票 上漲 " + w == "股票 上漲 continues";
  }

  /** The stages of the example: the input s, the text t after entry 0 and the text u after entry 5. */
  lemma StockRallySteps(s: string, t: string, u: string, w: string)
    requires Lacks(w, "abdfghklmprvw")
    requires s == "Stock rally " + w && t == "股票 rally " + w && u == "股票 上漲 " + w
    ensures ApplyRange(s, 0, |Dictionary|) == u
  {
    LacksFewer(w, "abdfghklmprvw", "k");
    LacksFewer(w, "abdfghklmprvw", "dhmp");
    LacksFewer(w, "abdfghklmprvw", "r");
    LacksFewer(w, "abdfghklmprvw", "abdfghlmprvw");
    StockRallyFirstPass(s, t, w);
    StockRallyHead(t, w);
    StockRallyFifthPass(t, u, w);
    StockRallyTail(u, w);
    FiresAt(t, u, u, 1, 5, |Dictionary|);
    FiresAt(s, t, u, 0, 0, |Dictionary|);
  }

  /** Entry 0 turns the capitalised "Stock" into "股票". */
  lemma StockRallyFirstPass(s: string, t: string, w: string)
    requires Lacks(w, "k")
    requires s == "Stock rally " + w && t == "股票 rally " + w
    ensures Pass(s, 0) == t
  {
    LacksAvoids(w, "k");
    assert Dictionary[0] == ("stock", "股票");
    assert s[..5] == "Stock";
    assert s[5..] == " rally " + w;
    assert 'k' !in " rally " && 'K' !in " rally ";
    ReplaceAllFiresOnce(s, "stock", "股票", 0, 'k');
    assert s[..0] + "股票" + s[5..] == t;
  }

  /** Entry 5 turns "rally" into "上漲". */
  lemma StockRallyFifthPass(t: string, u: string, w: string)
    requires Lacks(w, "r")
    requires t == "股票 rally " + w && u == "股票 上漲 " + w
    ensures Pass(t, 5) == u
  {
    LacksAvoids(w, "r");
    assert Dictionary[5] == ("rally", "上漲");
    assert t[..3] == "股票 ";
    assert t[3..8] == "rally";
    assert t[8..] == " " + w;
    ReplaceAllFiresOnce(t, "rally", "上漲", 3, 'r');
  }

  /** Entries 1-4 find nothing in "股票 rally ...". */
  lemma StockRallyHead(t: string, w: string)
    requires Lacks(w, "dhmp")
    requires t == "股票 rally " + w
    ensures ApplyRange(t, 1, 5) == t
  {
    assert Lacks("股票 rally ", "dhmp");
    LacksAppend("股票 rally ", w, "dhmp");
    StockRallyPasses1To4(t);
    ApplyRangeFixed(t, 1, 5);
  }

  /** Entries 6-45 find nothing in "股票 上漲 ...". */
  lemma StockRallyTail(u: string, w: string)
    requires Lacks(w, "abdfghlmprvw")
    requires u == "股票 上漲 " + w
    ensures ApplyRange(u, 6, |Dictionary|) == u
  {
    StockRallyTranslatedLacks();
    LacksAppend("股票 上漲 ", w, "abdfghlmprvw");
    StockRallyTailFixed(u);
  }

  lemma StockRallyTranslatedLacks()
    ensures Lacks("股票 上漲 ", "abdfghlmprvw")
  {
    var t := "股票 上漲 ";
    assert forall k :: 0 <= k < |t| ==> !IsWordChar(t[k]);
    NoWordCharsLack(t, "abdfghlmprvw");
  }

  lemma StockRallyTailFixed(t: string)
    requires Lacks(t, "abdfghlmprvw")
    ensures ApplyRange(t, 6, |Dictionary|) == t
  {
    StockRallyPasses6To10(t);
    StockRallyPasses11To15(t);
    StockRallyPasses16To20(t);
    StockRallyPasses21To25(t);
    StockRallyPasses26To30(t);
    StockRallyPasses31To35(t);
    StockRallyPasses36To40(t);
    StockRallyPasses41To45(t);
    ApplyRangeFixed(t, 6, |Dictionary|);
  }

  /** Entries 1-4 leave alone a text that lacks the listed letters. */
  lemma StockRallyPasses1To4(t: string)
    requires Lacks(t, "dhmp")
    ensures forall n :: 1 <= n < 5 ==> Pass(t, n) == t
  {
    LacksAvoids(t, "dhmp");
    forall n | 1 <= n < 5
      ensures Pass(t, n) == t
    {
      match n
      case 1 => SkipPass(t, 1, 'h');
      case 2 => SkipPass(t, 2, 'm');
      case 3 => SkipPass(t, 3, 'd');
      case 4 => SkipPass(t, 4, 'p');
    }
  }

  /** Entries 6-10 leave alone a text that lacks the listed letters. */
  lemma StockRallyPasses6To10(t: string)
    requires Lacks(t, "dglpr")
    ensures forall n :: 6 <= n < 11 ==> Pass(t, n) == t
  {
    LacksAvoids(t, "dglpr");
    forall n | 6 <= n < 11
      ensures Pass(t, n) == t
    {
      match n
      case 6 => SkipPass(t, 6, 'r');
      case 7 => SkipPass(t, 7, 'p');
      case 8 => SkipPass(t, 8, 'd');
      case 9 => SkipPass(t, 9, 'g');
      case 10 => SkipPass(t, 10, 'l');
    }
  }

  /** Entries 11-15 leave alone a text that lacks the listed letters. */
  lemma StockRallyPasses11To15(t: string)
    requires Lacks(t, "aprvw")
    ensures forall n :: 11 <= n < 16 ==> Pass(t, n) == t
  {
    LacksAvoids(t, "aprvw");
    forall n | 11 <= n < 16
      ensures Pass(t, n) == t
    {
      match n
      case 11 => SkipPass(t, 11, 'v');
      case 12 => SkipPass(t, 12, 'w');
      case 13 => SkipPass(t, 13, 'a');
      case 14 => SkipPass(t, 14, 'p');
      case 15 => SkipPass(t, 15, 'r');
    }
  }

  /** Entries 16-20 leave alone a text that lacks the listed letters. */
  lemma StockRallyPasses16To20(t: string)
    requires Lacks(t, "dflp")
    ensures forall n :: 16 <= n < 21 ==> Pass(t, n) == t
  {
    LacksAvoids(t, "dflp");
    forall n | 16 <= n < 21
      ensures Pass(t, n) == t
    {
      match n
      case 16 => SkipPass(t, 16, 'f');
      case 17 => SkipPass(t, 17, 'l');
      case 18 => SkipPass(t, 18, 'p');
      case 19 => SkipPass(t, 19, 'd');
      case 20 => SkipPass(t, 20, 'p');
    }
  }

  /** Entries 21-25 leave alone a text that lacks the listed letters. */
  lemma StockRallyPasses21To25(t: string)
    requires Lacks(t, "abfmr")
    ensures forall n :: 21 <= n < 26 ==> Pass(t, n) == t
  {
    LacksAvoids(t, "abfmr");
    forall n | 21 <= n < 26
      ensures Pass(t, n) == t
    {
      match n
      case 21 => SkipPass(t, 21, 'm');
      case 22 => SkipPass(t, 22, 'a');
      case 23 => SkipPass(t, 23, 'b');
      case 24 => SkipPass(t, 24, 'f');
      case 25 => SkipPass(t, 25, 'r');
    }
  }

  /** Entries 26-30 leave alone a text that lacks the listed letters. */
  lemma StockRallyPasses26To30(t: string)
    requires Lacks(t, "bdfv")
    ensures forall n :: 26 <= n < 31 ==> Pass(t, n) == t
  {
    LacksAvoids(t, "bdfv");
    forall n | 26 <= n < 31
      ensures Pass(t, n) == t
    {
      match n
      case 26 => SkipPass(t, 26, 'f');
      case 27 => SkipPass(t, 27, 'b');
      case 28 => SkipPass(t, 28, 'b');
      case 29 => SkipPass(t, 29, 'v');
      case 30 => SkipPass(t, 30, 'd');
    }
  }

  /** Entries 31-35 leave alone a text that lacks the listed letters. */
  lemma StockRallyPasses31To35(t: string)
    requires Lacks(t, "fhpr")
    ensures forall n :: 31 <= n < 36 ==> Pass(t, n) == t
  {
    LacksAvoids(t, "fhpr");
    forall n | 31 <= n < 36
      ensures Pass(t, n) == t
    {
      match n
      case 31 => SkipPass(t, 31, 'p');
      case 32 => SkipPass(t, 32, 'r');
      case 33 => SkipPass(t, 33, 'h');
      case 34 => SkipPass(t, 34, 'f');
      case 35 => SkipPass(t, 35, 'h');
    }
  }

  /** Entries 36-40 leave alone a text that lacks the listed letters. */
  lemma StockRallyPasses36To40(t: string)
    requires Lacks(t, "bdmr")
    ensures forall n :: 36 <= n < 41 ==> Pass(t, n) == t
  {
    LacksAvoids(t, "bdmr");
    forall n | 36 <= n < 41
      ensures Pass(t, n) == t
    {
      match n
      case 36 => SkipPass(t, 36, 'r');
      case 37 => SkipPass(t, 37, 'm');
      case 38 => SkipPass(t, 38, 'd');
      case 39 => SkipPass(t, 39, 'b');
      case 40 => SkipPass(t, 40, 'b');
    }
  }

  /** Entries 41-45 leave alone a text that lacks the listed letters. */
  lemma StockRallyPasses41To45(t: string)
    requires Lacks(t, "bmpr")
    ensures forall n :: 41 <= n < 46 ==> Pass(t, n) == t
  {
    LacksAvoids(t, "bmpr");
    forall n | 41 <= n < 46
      ensures Pass(t, n) == t
    {
      match n
      case 41 => SkipPass(t, 41, 'b');
      case 42 => SkipPass(t, 42, 'p');
      case 43 => SkipPass(t, 43, 'r');
      case 44 => SkipPass(t, 44, 'm');
      case 45 => SkipPass(t, 45, 'm');
    }
  }

  /**
   * "bull market": the "market" entry (line 15) rewrites first, so the "bull market" entry
   * (line 40) never sees its phrase and "bull" (line 52) is translated on its own.
   */
  lemma BullMarketExample(w: string)
    requires forall k :: 0 <= k < |w| ==> !IsWordChar(w[k])
    ensures ApplyDictionary("bull market" + w) == "牛 市場" + w
  {
    BullMarketSteps("bull market" + w, "bull 市場" + w, "牛 市場" + w, w);
  }

  /** The stages of the example: the input s, the text t after entry 2 and the text u after entry 39. */
  lemma BullMarketSteps(s: string, t: string, u: string, w: string)
    requires forall k :: 0 <= k < |w| ==> !IsWordChar(w[k])
    requires s == "bull market" + w && t == "bull 市場" + w && u == "牛 市場" + w
    ensures ApplyRange(s, 0, |Dictionary|) == u
  {
    NoWordCharsLack(w, "s");
    NoWordCharsLack(w, "m");
    NoWordCharsLack(w, "acdefghimoprstvw");
    NoWordCharsLack(w, "b");
    BullMarketHead(s, w);
    BullMarketMarketPass(s, t, w);
    BullMarketMiddle(t, w);
    BullMarketBullPass(t, u, w);
    BullMarketTail(u, w);
    FiresAt(t, u, u, 3, 39, |Dictionary|);
    FiresAt(s, t, u, 0, 2, |Dictionary|);
  }

  /** Entries 0 and 1 find nothing in "bull market ...". */
  lemma BullMarketHead(s: string, w: string)
    requires Lacks(w, "s")
    requires s == "bull market" + w
    ensures ApplyRange(s, 0, 2) == s
  {
    assert Lacks("bull market", "s");
    LacksAppend("bull market", w, "s");
    LacksAvoids(s, "s");
    SkipPass(s, 0, 's');
    SkipPass(s, 1, 's');
    assert forall n :: 0 <= n < 2 ==> Pass(s, n) == s;
    ApplyRangeFixed(s, 0, 2);
  }

  /** Entry 2 turns "market" into "市場". */
  lemma BullMarketMarketPass(s: string, t: string, w: string)
    requires forall k :: 0 <= k < |w| ==> !IsWordChar(w[k])
    requires Lacks(w, "m")
    requires s == "bull market" + w && t == "bull 市場" + w
    ensures Pass(s, 2) == t
  {
    LacksAvoids(w, "m");
    assert Dictionary[2] == ("market", "市場");
    assert s[..5] == "bull ";
    assert s[5..11] == "market";
    assert s[11..] == w;
    assert !WordAt(s, 11);
    ReplaceAllFiresOnce(s, "market", "市場", 5, 'm');
  }

  /** Entries 3-38, "bull market" (27) among them, find nothing in "bull 市場 ...". */
  lemma BullMarketMiddle(t: string, w: string)
    requires Lacks(w, "acdefghimoprstvw")
    requires t == "bull 市場" + w
    ensures ApplyRange(t, 3, 39) == t
  {
    BullMarketPrefixLacks();
    LacksAppend("bull 市場", w, "acdefghimoprstvw");
    BullMarketMiddleFixed(t);
  }

  lemma BullMarketPrefixLacks()
    ensures Lacks("bull 市場", "acdefghimoprstvw")
  {
    assert Lacks("bull ", "acdefghimoprstvw");
    var z := "市場";
    assert forall k :: 0 <= k < |z| ==> !IsWordChar(z[k]);
    NoWordCharsLack(z, "acdefghimoprstvw");
    LacksAppend("bull ", z, "acdefghimoprstvw");
    assert "bull " + z == "bull 市場";
  }


  lemma BullMarketMiddleFixed(t: string)
    requires Lacks(t, "acdefghimoprstvw")
    ensures ApplyRange(t, 3, 39) == t
  {
    BullMarketPasses3To7(t);
    BullMarketPasses8To12(t);
    BullMarketPasses13To17(t);
    BullMarketPasses18To22(t);
    BullMarketPasses23To27(t);
    BullMarketPasses28To30(t);
    BullMarketPasses31To35(t);
    BullMarketPasses36To38(t);
    ApplyRangeFixed(t, 3, 39);
  }

  /** Entry 39 turns "bull" into "牛". */
  lemma BullMarketBullPass(t: string, u: string, w: string)
    requires Lacks(w, "b")
    requires t == "bull 市場" + w && u == "牛 市場" + w
    ensures Pass(t, 39) == u
  {
    LacksAvoids(w, "b");
    assert Dictionary[39] == ("bull", "牛");
    assert t[..4] == "bull";
    assert t[4..] == " 市場" + w;
    ReplaceAllFiresOnce(t, "bull", "牛", 0, 'b');
  }

  /** What is left has no word character, so entries 40-45 find nothing. */
  lemma BullMarketTail(u: string, w: string)
    requires forall k :: 0 <= k < |w| ==> !IsWordChar(w[k])
    requires u == "牛 市場" + w
    ensures ApplyRange(u, 40, |Dictionary|) == u
  {
    assert forall k :: 0 <= k < |u| ==> !IsWordChar(u[k]) by {
      assert forall k :: 0 <= k < 4 ==> !IsWordChar(u[k]);
      assert forall k :: 4 <= k < |u| ==> u[k] == w[k - 4];
    }
    ApplyRangeWithoutWordChars(u, 40, |Dictionary|);
  }

  /** Entries 3-7 leave alone a text that lacks the listed letters. */
  lemma BullMarketPasses3To7(t: string)
    requires Lacks(t, "prst")
    ensures forall n :: 3 <= n < 8 ==> Pass(t, n) == t
  {
    LacksAvoids(t, "prst");
    forall n | 3 <= n < 8
      ensures Pass(t, n) == t
    {
      match n
      case 3 => SkipPass(t, 3, 't');
      case 4 => SkipPass(t, 4, 'p');
      case 5 => SkipPass(t, 5, 'r');
      case 6 => SkipPass(t, 6, 's');
      case 7 => SkipPass(t, 7, 'p');
    }
  }

  /** Entries 8-12 leave alone a text that lacks the listed letters. */
  lemma BullMarketPasses8To12(t: string)
    requires Lacks(t, "dgiow")
    ensures forall n :: 8 <= n < 13 ==> Pass(t, n) == t
  {
    LacksAvoids(t, "dgiow");
    forall n | 8 <= n < 13
      ensures Pass(t, n) == t
    {
      match n
      case 8 => SkipPass(t, 8, 'd');
      case 9 => SkipPass(t, 9, 'g');
      case 10 => SkipPass(t, 10, 'o');
      case 11 => SkipPass(t, 11, 'i');
      case 12 => SkipPass(t, 12, 'w');
    }
  }

  /** Entries 13-17 leave alone a text that lacks the listed letters. */
  lemma BullMarketPasses13To17(t: string)
    requires Lacks(t, "efopr")
    ensures forall n :: 13 <= n < 18 ==> Pass(t, n) == t
  {
    LacksAvoids(t, "efopr");
    forall n | 13 <= n < 18
      ensures Pass(t, n) == t
    {
      match n
      case 13 => SkipPass(t, 13, 'e');
      case 14 => SkipPass(t, 14, 'p');
      case 15 => SkipPass(t, 15, 'r');
      case 16 => SkipPass(t, 16, 'f');
      case 17 => SkipPass(t, 17, 'o');
    }
  }

  /** Entries 18-22 leave alone a text that lacks the listed letters. */
  lemma BullMarketPasses18To22(t: string)
    requires Lacks(t, "adimp")
    ensures forall n :: 18 <= n < 23 ==> Pass(t, n) == t
  {
    LacksAvoids(t, "adimp");
    forall n | 18 <= n < 23
      ensures Pass(t, n) == t
    {
      match n
      case 18 => SkipPass(t, 18, 'p');
      case 19 => SkipPass(t, 19, 'd');
      case 20 => SkipPass(t, 20, 'i');
      case 21 => SkipPass(t, 21, 'm');
      case 22 => SkipPass(t, 22, 'a');
    }
  }

  /** Entries 23-27 leave alone a text that lacks the listed letters. */
  lemma BullMarketPasses23To27(t: string)
    requires Lacks(t, "afim")
    ensures forall n :: 23 <= n < 28 ==> Pass(t, n) == t
  {
    LacksAvoids(t, "afim");
    forall n | 23 <= n < 28
      ensures Pass(t, n) == t
    {
      match n
      case 23 => SkipPass(t, 23, 'a');
      case 24 => SkipPass(t, 24, 'i');
      case 25 => SkipPass(t, 25, 'i');
      case 26 => SkipPass(t, 26, 'f');
      case 27 => SkipPass(t, 27, 'm');
    }
  }

  /** Entries 28-30 leave alone a text that lacks the listed letters. */
  lemma BullMarketPasses28To30(t: string)
    requires Lacks(t, "dev")
    ensures forall n :: 28 <= n < 31 ==> Pass(t, n) == t
  {
    LacksAvoids(t, "dev");
    forall n | 28 <= n < 31
      ensures Pass(t, n) == t
    {
      match n
      case 28 => SkipPass(t, 28, 'e');
      case 29 => SkipPass(t, 29, 'v');
      case 30 => SkipPass(t, 30, 'd');
    }
  }

  /** Entries 31-35 leave alone a text that lacks the listed letters. */
  lemma BullMarketPasses31To35(t: string)
    requires Lacks(t, "fhst")
    ensures forall n :: 31 <= n < 36 ==> Pass(t, n) == t
  {
    LacksAvoids(t, "fhst");
    forall n | 31 <= n < 36
      ensures Pass(t, n) == t
    {
      match n
      case 31 => SkipPass(t, 31, 's');
      case 32 => SkipPass(t, 32, 's');
      case 33 => SkipPass(t, 33, 't');
      case 34 => SkipPass(t, 34, 'f');
      case 35 => SkipPass(t, 35, 'h');
    }
  }

  /** Entries 36-38 leave alone a text that lacks the listed letters. */
  lemma BullMarketPasses36To38(t: string)
    requires Lacks(t, "cei")
    ensures forall n :: 36 <= n < 39 ==> Pass(t, n) == t
  {
    LacksAvoids(t, "cei");
    forall n | 36 <= n < 39
      ensures Pass(t, n) == t
    {
      match n
      case 36 => SkipPass(t, 36, 'e');
      case 37 => SkipPass(t, 37, 'c');
      case 38 => SkipPass(t, 38, 'i');
    }
  }
}
