/** SQL `LIKE` with an explicit escape character (ISO/IEC 9075-2, section 8.5), and the two
    pattern builders of the filter renderer: user text is escaped and wrapped with `%`. */
module Like {

  datatype TextMatchMode = Contains | Prefix | Suffix

  /** Whether `text` matches `pattern`. A trailing lone escape character matches nothing. */
  predicate Matches(text: string, pattern: string, esc: char)
    decreases |pattern|, |text|
  {
    if pattern == "" then
      text == ""
    else if pattern[0] == esc then
      |pattern| > 1 && text != "" && text[0] == pattern[1] && Matches(text[1..], pattern[2..], esc)
    else if pattern[0] == '%' then
      Matches(text, pattern[1..], esc) || (text != "" && Matches(text[1..], pattern, esc))
    else if pattern[0] == '_' then
      text != "" && Matches(text[1..], pattern[1..], esc)
    else
      text != "" && text[0] == pattern[0] && Matches(text[1..], pattern[1..], esc)
  }

  predicate IsMeta(c: char, esc: char) {
    c == esc || c == '%' || c == '_'
  }

  /** Prefixes every metacharacter with the escape character, in one left-to-right pass. */
  function Escape(value: string, esc: char): string {
    if value == "" then ""
    else (if IsMeta(value[0], esc) then [esc, value[0]] else [value[0]]) + Escape(value[1..], esc)
  }

  function Pattern(mode: TextMatchMode, value: string, esc: char): string {
    match mode
    case Prefix => Escape(value, esc) + "%"
    case Suffix => "%" + Escape(value, esc)
    case Contains => "%" + Escape(value, esc) + "%"
  }

  const BACKSLASH := '\\'
  const BANG := '!'

  // What a text match means, without patterns.

  predicate StartsWith(text: string, value: string) {
    value <= text
  }

  predicate EndsWith(text: string, value: string) {
    |value| <= |text| && text[|text| - |value|..] == value
  }

  predicate Occurs(text: string, value: string) {
    exists k :: 0 <= k <= |text| && StartsWith(text[k..], value)
  }

  predicate TextMatches(mode: TextMatchMode, text: string, value: string) {
    match mode
    case Prefix => StartsWith(text, value)
    case Suffix => EndsWith(text, value)
    case Contains => Occurs(text, value)
  }

  /** An escaped literal in front of a pattern consumes exactly itself. */
  lemma {:induction false} EscapedLiteral(text: string, value: string, rest: string, esc: char)
    requires esc != '%' && esc != '_'
    ensures Matches(text, Escape(value, esc) + rest, esc)
       <==> value <= text && Matches(text[|value|..], rest, esc)
  {
    if value == "" {
      assert Escape(value, esc) + rest == rest;
      assert text[0..] == text;
    } else {
      var head := if IsMeta(value[0], esc) then [esc, value[0]] else [value[0]];
      var pattern := Escape(value, esc) + rest;
      assert pattern == head + (Escape(value[1..], esc) + rest);
      if text == "" {
        assert !Matches(text, pattern, esc);
      } else {
        assert pattern[|head|..] == Escape(value[1..], esc) + rest;
        assert Matches(text, pattern, esc) <==> text[0] == value[0] && Matches(text[1..], pattern[|head|..], esc);
        EscapedLiteral(text[1..], value[1..], rest, esc);
        assert value <= text <==> value[0] == text[0] && value[1..] <= text[1..] by {
          assert value == [value[0]] + value[1..] && text == [text[0]] + text[1..];
        }
        if value <= text {
          assert text[1..][|value[1..]|..] == text[|value|..];
        }
      }
    }
  }

  /** `%` skips any number of characters. */
  lemma {:induction false} PercentSkips(text: string, rest: string, esc: char)
    requires esc != '%'
    ensures Matches(text, "%" + rest, esc) <==> exists k :: 0 <= k <= |text| && Matches(text[k..], rest, esc)
    decreases |text|
  {
    var pattern := "%" + rest;
    assert pattern[1..] == rest && text[0..] == text;
    if text != "" {
      PercentSkips(text[1..], rest, esc);
      if k :| 0 <= k <= |text[1..]| && Matches(text[1..][k..], rest, esc) {
        assert text[1..][k..] == text[k + 1..];
      }
      if k :| 0 < k <= |text| && Matches(text[k..], rest, esc) {
        assert text[1..][k - 1..] == text[k..];
      }
    }
  }

  lemma PercentMatchesAll(text: string, esc: char)
    requires esc != '%'
    ensures Matches(text, "%", esc)
  {
  }

  /** LIKE against the escaped pattern is prefix, suffix or substring, for every value,
      every text and every usable escape character. */
  lemma LikePatternIsTextMatch(mode: TextMatchMode, text: string, value: string, esc: char)
    requires esc != '%' && esc != '_'
    ensures Matches(text, Pattern(mode, value, esc), esc) <==> TextMatches(mode, text, value)
  {
    var escaped := Escape(value, esc);
    match mode
    case Prefix =>
      EscapedLiteral(text, value, "%", esc);
      if value <= text { PercentMatchesAll(text[|value|..], esc); }
    case Suffix =>
      PercentSkips(text, escaped, esc);
      forall k | 0 <= k <= |text|
        ensures Matches(text[k..], escaped, esc) <==> text[k..] == value
      {
        assert escaped + "" == escaped;
        EscapedLiteral(text[k..], value, "", esc);
        if value <= text[k..] { assert Matches(text[k..][|value|..], "", esc) <==> text[k..][|value|..] == ""; }
      }
    case Contains =>
      assert Pattern(mode, value, esc) == "%" + (escaped + "%");
      PercentSkips(text, escaped + "%", esc);
      forall k | 0 <= k <= |text|
        ensures Matches(text[k..], escaped + "%", esc) <==> StartsWith(text[k..], value)
      {
        EscapedLiteral(text[k..], value, "%", esc);
        if value <= text[k..] { PercentMatchesAll(text[k..][|value|..], esc); }
      }
  }

  /** Without escaping the statement is false: `_` in user text would match any character. */
  lemma UnescapedPatternOvermatches()
    ensures Matches("a", "_" + "%", BACKSLASH) && !TextMatches(Prefix, "a", "_")
  {
  }

  // Case folding. Every dialect folds the text and the pattern character by character before matching.

  function FoldAll(fold: char -> char, s: string): (r: string)
    ensures |r| == |s| && forall i :: 0 <= i < |s| ==> r[i] == fold(s[i])
  {
    if s == "" then "" else [fold(s[0])] + FoldAll(fold, s[1..])
  }

  predicate KeepsMetaAt(fold: char -> char, esc: char, c: char) {
    (IsMeta(c, esc) ==> fold(c) == c) && (IsMeta(fold(c), esc) ==> IsMeta(c, esc))
  }

  /** A fold that fixes the metacharacters and sends nothing else onto them. */
  ghost predicate KeepsMeta(fold: char -> char, esc: char) {
    forall c: char :: KeepsMetaAt(fold, esc, c)
  }

  lemma {:induction false} FoldEscape(fold: char -> char, value: string, esc: char)
    requires KeepsMeta(fold, esc)
    ensures FoldAll(fold, Escape(value, esc)) == Escape(FoldAll(fold, value), esc)
  {
    if value != "" {
      FoldEscape(fold, value[1..], esc);
      assert FoldAll(fold, value)[1..] == FoldAll(fold, value[1..]);
      var head := if IsMeta(value[0], esc) then [esc, value[0]] else [value[0]];
      assert Escape(value, esc) == head + Escape(value[1..], esc);
      FoldConcat(fold, head, Escape(value[1..], esc));
      assert KeepsMetaAt(fold, esc, value[0]) && KeepsMetaAt(fold, esc, esc);
      assert IsMeta(fold(value[0]), esc) <==> IsMeta(value[0], esc);
    }
  }

  lemma FoldConcat(fold: char -> char, a: string, b: string)
    ensures FoldAll(fold, a + b) == FoldAll(fold, a) + FoldAll(fold, b)
  {
  }

  /** Folding both sides of the rendered LIKE, pattern included, is the text match on folded text. */
  lemma FoldedLikeIsTextMatch(fold: char -> char, mode: TextMatchMode, text: string, value: string, esc: char)
    requires esc != '%' && esc != '_' && KeepsMeta(fold, esc)
    ensures Matches(FoldAll(fold, text), FoldAll(fold, Pattern(mode, value, esc)), esc)
       <==> TextMatches(mode, FoldAll(fold, text), FoldAll(fold, value))
  {
    FoldEscape(fold, value, esc);
    var escaped := Escape(value, esc);
    assert KeepsMetaAt(fold, esc, '%');
    assert FoldAll(fold, "%") == "%";
    FoldConcat(fold, escaped, "%");
    FoldConcat(fold, "%", escaped);
    FoldConcat(fold, "%" + escaped, "%");
    assert FoldAll(fold, Pattern(mode, value, esc)) == Pattern(mode, FoldAll(fold, value), esc);
    LikePatternIsTextMatch(mode, FoldAll(fold, text), FoldAll(fold, value), esc);
  }
}
