/**
 * The JavaScript string primitives the routes rely on, over `seq<char>`:
 * the regex word class (no `u` flag), ASCII case mapping, `String.prototype.trim`,
 * `.length` in UTF-16 code units, `split` on a single character, and `x || d`.
 */
module JsString {
  import opened Wrappers

  /** `\w` without the `u` flag: ASCII letters, digits and underscore. */
  predicate IsWordChar(c: char) {
    ('a' <= c <= 'z') || ('A' <= c <= 'Z') || ('0' <= c <= '9') || c == '_'
  }

  predicate IsAscii(c: char) {
    c as int < 128
  }

  function AsciiLower(c: char): char {
    if 'A' <= c <= 'Z' then (c as int + 32) as char else c
  }

  function AsciiUpper(c: char): char {
    if 'a' <= c <= 'z' then (c as int - 32) as char else c
  }

  /** Lower-casing keeps a character's word-class and its ASCII-ness, and is idempotent. */
  lemma AsciiLowerFacts(c: char)
    ensures IsWordChar(AsciiLower(c)) == IsWordChar(c)
    ensures IsAscii(AsciiLower(c)) == IsAscii(c)
    ensures AsciiLower(AsciiLower(c)) == AsciiLower(c)
    ensures !IsAscii(c) ==> AsciiLower(c) == c
  {
  }

  function LowerAscii(s: string): (r: string)
    ensures |r| == |s|
    ensures forall k :: 0 <= k < |s| ==> r[k] == AsciiLower(s[k])
  {
    seq(|s|, k requires 0 <= k < |s| => AsciiLower(s[k]))
  }

  /** Lower-casing works character by character, so it distributes over concatenation. */
  lemma LowerAsciiAppend(a: string, b: string)
    ensures LowerAscii(a + b) == LowerAscii(a) + LowerAscii(b)
  {
  }

  /** Text without ASCII characters is unaffected by ASCII lower-casing. */
  lemma LowerAsciiKeepsNonAscii(s: string)
    requires forall k :: 0 <= k < |s| ==> !IsAscii(s[k])
    ensures LowerAscii(s) == s
  {
  }

  /** `toUpperCase()`, restricted to the ASCII letters. */
  function UpperAscii(s: string): (r: string)
    ensures |r| == |s|
    ensures forall k :: 0 <= k < |s| ==> r[k] == AsciiUpper(s[k])
  {
    seq(|s|, k requires 0 <= k < |s| => AsciiUpper(s[k]))
  }

  /** The WhiteSpace and LineTerminator code points that `String.prototype.trim` strips. */
  predicate IsJsWhiteSpace(c: char) {
    c == '\t' || c == '\n' || c == '\U{000B}' || c == '\U{000C}' || c == '\r' || c == ' '
    || c == '\U{00A0}' || c == '\U{1680}' || ('\U{2000}' <= c <= '\U{200A}')
    || c == '\U{2028}' || c == '\U{2029}' || c == '\U{202F}' || c == '\U{205F}'
    || c == '\U{3000}' || c == '\U{FEFF}'
  }

  predicate AllWhiteSpace(s: string) {
    forall k :: 0 <= k < |s| ==> IsJsWhiteSpace(s[k])
  }

  /** Neither end of `s` is white space. */
  predicate IsTrimmed(s: string) {
    s == [] || (!IsJsWhiteSpace(s[0]) && !IsJsWhiteSpace(s[|s| - 1]))
  }

  /** `s` without its leading white space: a suffix whose cut-off part is all white space. */
  function TrimStart(s: string): (r: string)
    ensures |r| <= |s| && r == s[|s| - |r|..]
    ensures AllWhiteSpace(s[..|s| - |r|])
    ensures r == [] || !IsJsWhiteSpace(r[0])
  {
    if s != [] && IsJsWhiteSpace(s[0]) then TrimStart(s[1..]) else s
  }

  /** `s` without its trailing white space: a prefix whose cut-off part is all white space. */
  function TrimEnd(s: string): (r: string)
    ensures |r| <= |s| && r == s[..|r|]
    ensures AllWhiteSpace(s[|r|..])
    ensures r == [] || !IsJsWhiteSpace(r[|r| - 1])
  {
    if s != [] && IsJsWhiteSpace(s[|s| - 1]) then TrimEnd(s[..|s| - 1]) else s
  }

  /** `String.prototype.trim`: the infix of `s` left after removing white space from both ends. */
  function Trim(s: string): (r: string)
    ensures IsTrimmed(r)
    ensures exists i, j :: 0 <= i <= j <= |s| && r == s[i..j] && AllWhiteSpace(s[..i]) && AllWhiteSpace(s[j..])
  {
    var a := TrimStart(s);
    var r := TrimEnd(a);
    var i := |s| - |a|;
    assert r == s[i..i + |r|];
    assert s[i + |r|..] == a[|r|..];
    r
  }

  /** Trimming text that is already trimmed changes nothing; in particular `Trim` is idempotent. */
  lemma TrimTrimmed(s: string)
    requires IsTrimmed(s)
    ensures Trim(s) == s
  {
  }

  /** `.length`: the number of UTF-16 code units, two for a character outside the Basic Multilingual Plane. */
  function Utf16Length(s: string): (n: nat)
    ensures |s| <= n <= 2 * |s|
  {
    if s == [] then 0
    else (if s[0] as int > 0xFFFF then 2 else 1) + Utf16Length(s[1..])
  }

  /** `s.split(sep)` for a one-character separator: the maximal runs between separators, empty runs included. */
  function Split(s: string, sep: char): (r: seq<string>)
    ensures |r| >= 1
    ensures forall k :: 0 <= k < |r| ==> sep !in r[k]
  {
    if s == [] then [""]
    else
      var rest := Split(s[1..], sep);
      if s[0] == sep then [""] + rest
      else [[s[0]] + rest[0]] + rest[1..]
  }

  /** `parts.join(sep)`. */
  function Join(parts: seq<string>, sep: char): string
    requires |parts| >= 1
  {
    if |parts| == 1 then parts[0] else parts[0] + [sep] + Join(parts[1..], sep)
  }

  /** Splitting loses nothing: joining the pieces back gives the original string. */
  lemma {:induction false} JoinSplit(s: string, sep: char)
    ensures Join(Split(s, sep), sep) == s
  {
    if s != [] {
      JoinSplit(s[1..], sep);
      var rest := Split(s[1..], sep);
      if s[0] != sep {
        if |rest| == 1 {
          assert Split(s, sep) == [[s[0]] + rest[0]];
        } else {
          assert Split(s, sep) == [[s[0]] + rest[0]] + rest[1..];
          assert Split(s, sep)[1..] == rest[1..];
        }
      } else {
        assert Split(s, sep)[1..] == rest;
      }
    }
  }

  /** The pieces are determined: any separator-free pieces that join to `s` are exactly its split. */
  lemma {:induction false} SplitJoin(parts: seq<string>, sep: char)
    requires |parts| >= 1
    requires forall k :: 0 <= k < |parts| ==> sep !in parts[k]
    ensures Split(Join(parts, sep), sep) == parts
    decreases |Join(parts, sep)|
  {
    var s := Join(parts, sep);
    if s == [] {
      assert parts == [""];
    } else if parts[0] == [] {
      assert |parts| > 1;
      assert s == [sep] + Join(parts[1..], sep);
      assert s[1..] == Join(parts[1..], sep);
      SplitJoin(parts[1..], sep);
      assert parts == [""] + parts[1..];
    } else {
      var shorter := [parts[0][1..]] + parts[1..];
      assert shorter[1..] == parts[1..];
      assert Join(shorter, sep) == s[1..];
      SplitJoin(shorter, sep);
      assert s[0] == parts[0][0] && s[0] != sep;
      assert [s[0]] + shorter[0] == parts[0];
      assert parts == [parts[0]] + parts[1..];
    }
  }

  /** JavaScript `x || d` for an optional string: `undefined`, `null` and `""` all give `d`. */
  function OrDefault(x: Option<string>, d: string): string {
    if x.Some? && x.value != "" then x.value else d
  }

  /** The normalisation both routes apply to the `symbol` parameter: `toUpperCase().trim()`. */
  function UpperTrim(s: string): string {
    Trim(UpperAscii(s))
  }

  /** Upper-casing maps white space to itself and leaves upper-cased text alone. */
  lemma UpperAsciiFacts(c: char)
    ensures AsciiUpper(AsciiUpper(c)) == AsciiUpper(c)
    ensures IsJsWhiteSpace(AsciiUpper(c)) == IsJsWhiteSpace(c)
  {
  }

  /** Every character of an upper-cased text is its own upper case. */
  lemma UpperAsciiStable(s: string)
    ensures UpperAscii(UpperAscii(s)) == UpperAscii(s)
  {
    forall k | 0 <= k < |s|
      ensures AsciiUpper(AsciiUpper(s[k])) == AsciiUpper(s[k])
    {
      UpperAsciiFacts(s[k]);
    }
  }

  /** Normalising a symbol twice is normalising it once. */
  lemma UpperTrimIdempotent(s: string)
    ensures UpperTrim(UpperTrim(s)) == UpperTrim(s)
  {
    var u := UpperAscii(s);
    var t := Trim(u);
    var i, j :| 0 <= i <= j <= |u| && t == u[i..j];
    UpperAsciiStable(s);
    assert UpperAscii(t) == UpperAscii(u)[i..j];
    TrimTrimmed(t);
  }
}
