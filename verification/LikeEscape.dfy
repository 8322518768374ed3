// The title search of the note service: user text is escaped, wrapped in '%' and handed to
// ILIKE. The escaping is correct when the resulting pattern means "contains the text".
module LikeEscape {

  // strings.ReplaceAll: left to right, non-overlapping.
  function ReplaceAll(s: string, needle: string, subst: string): string
    requires needle != ""
    decreases |s|
  {
    if |s| < |needle| then s
    else if s[..|needle|] == needle then subst + ReplaceAll(s[|needle|..], needle, subst)
    else [s[0]] + ReplaceAll(s[1..], needle, subst)
  }

  // The three passes of escapeLike, in the order of the source: the backslash goes first.
  function EscapeLike(s: string): string {
    var s1 := ReplaceAll(s, "\\", "\\\\");
    var s2 := ReplaceAll(s1, "%", "\\%");
    ReplaceAll(s2, "_", "\\_")
  }

  // The independent reference: one pass, one character at a time.
  function EscapeChar(c: char): string {
    if c == '\\' || c == '%' || c == '_' then ['\\', c] else [c]
  }

  function EscapeOnePass(s: string): string {
    if s == "" then "" else EscapeChar(s[0]) + EscapeOnePass(s[1..])
  }

  // LIKE with the default escape character (section 9.7.1 of the PostgreSQL manual): '%' matches
  // any sequence, '_' any single character, and a backslash makes the next character literal.
  // ILIKE compares characters after a per-character case fold. A pattern that ends in a lone
  // backslash is an error in PostgreSQL; it matches nothing here, and EscapedPatternIsWellFormed
  // shows that the service never builds one.
  predicate Like(text: string, pattern: string, fold: char -> char)
    decreases |pattern| + |text|
  {
    if pattern == "" then text == ""
    else if pattern[0] == '%' then
      Like(text, pattern[1..], fold) || (text != "" && Like(text[1..], pattern, fold))
    else if pattern[0] == '_' then
      text != "" && Like(text[1..], pattern[1..], fold)
    else if pattern[0] == '\\' then
      |pattern| > 1 && text != "" && fold(text[0]) == fold(pattern[1]) && Like(text[1..], pattern[2..], fold)
    else
      text != "" && fold(text[0]) == fold(pattern[0]) && Like(text[1..], pattern[1..], fold)
  }

  // Every backslash escapes a following character.
  predicate WellFormed(pattern: string)
    decreases |pattern|
  {
    if pattern == "" then true
    else if pattern[0] == '\\' then |pattern| > 1 && WellFormed(pattern[2..])
    else WellFormed(pattern[1..])
  }

  predicate SameFolded(a: string, b: string, fold: char -> char) {
    |a| == |b| && forall k | 0 <= k < |a| :: fold(a[k]) == fold(b[k])
  }

  // s occurs in text as a contiguous substring starting at i, up to the case fold.
  predicate OccursAt(s: string, text: string, i: int, fold: char -> char) {
    0 <= i <= |text| - |s| && SameFolded(s, text[i..i + |s|], fold)
  }

  ghost predicate Contains(text: string, s: string, fold: char -> char) {
    exists i :: OccursAt(s, text, i, fold)
  }

  function SearchPattern(title: string): string {
    "%" + EscapeLike(title) + "%"
  }

  // ------------------------------------------------------------------ the passes

  // A pass with a one-character needle works on each character separately.
  lemma {:induction false} ReplaceAllConcat(a: string, b: string, needle: string, subst: string)
    requires |needle| == 1
    ensures ReplaceAll(a + b, needle, subst) == ReplaceAll(a, needle, subst) + ReplaceAll(b, needle, subst)
  {
    if a == "" {
      assert a + b == b;
    } else {
      assert (a + b)[..1] == a[..1];
      assert (a + b)[1..] == a[1..] + b;
      ReplaceAllConcat(a[1..], b, needle, subst);
    }
  }

  lemma ReplaceAllChar(c: char, needle: string, subst: string)
    requires |needle| == 1
    ensures ReplaceAll([c], needle, subst) == if c == needle[0] then subst else [c]
  {
    assert [c][..1] == [c] && [c][1..] == "";
    assert needle == [needle[0]];
  }

  lemma ReplaceAllPair(c: char, d: char, needle: string, subst: string)
    requires |needle| == 1
    ensures ReplaceAll([c, d], needle, subst) ==
            (if c == needle[0] then subst else [c]) + (if d == needle[0] then subst else [d])
  {
    assert [c, d] == [c] + [d];
    ReplaceAllConcat([c], [d], needle, subst);
    ReplaceAllChar(c, needle, subst);
    ReplaceAllChar(d, needle, subst);
  }

  lemma EscapeLikeChar(c: char)
    ensures EscapeLike([c]) == EscapeChar(c)
  {
    ReplaceAllChar(c, "\\", "\\\\");
    ReplaceAllChar(c, "%", "\\%");
    ReplaceAllChar(c, "_", "\\_");
    ReplaceAllPair('\\', '\\', "%", "\\%");
    ReplaceAllPair('\\', '\\', "_", "\\_");
    ReplaceAllPair('\\', '%', "_", "\\_");
  }

  lemma {:induction false} EscapeLikeIsOnePass(s: string)
    ensures EscapeLike(s) == EscapeOnePass(s)
  {
    if s != "" {
      var c, rest := s[0], s[1..];
      assert s == [c] + rest;
      ReplaceAllConcat([c], rest, "\\", "\\\\");
      var c1, rest1 := ReplaceAll([c], "\\", "\\\\"), ReplaceAll(rest, "\\", "\\\\");
      ReplaceAllConcat(c1, rest1, "%", "\\%");
      ReplaceAllConcat(ReplaceAll(c1, "%", "\\%"), ReplaceAll(rest1, "%", "\\%"), "_", "\\_");
      EscapeLikeChar(c);
      EscapeLikeIsOnePass(rest);
    }
  }

  // ------------------------------------------------------------------ the matcher

  // An escaped text in front of a pattern matches exactly that text, up to the fold.
  lemma {:induction false} EscapedPrefixIsLiteral(s: string, pattern: string, text: string, fold: char -> char)
    ensures Like(text, EscapeOnePass(s) + pattern, fold) <==>
            |s| <= |text| && SameFolded(s, text[..|s|], fold) && Like(text[|s|..], pattern, fold)
  {
    if s == "" {
      assert EscapeOnePass(s) + pattern == pattern;
      assert text[|s|..] == text;
    } else {
      var p := EscapeOnePass(s) + pattern;
      var rest := EscapeOnePass(s[1..]) + pattern;
      assert p == EscapeChar(s[0]) + rest;
      assert p[|EscapeChar(s[0])|..] == rest;
      if text != "" {
        EscapedPrefixIsLiteral(s[1..], pattern, text[1..], fold);
        if |s| <= |text| {
          assert text[1..][..|s| - 1] == text[..|s|][1..];
          assert text[1..][|s| - 1..] == text[|s|..];
          assert SameFolded(s, text[..|s|], fold) <==>
                 fold(s[0]) == fold(text[0]) && SameFolded(s[1..], text[..|s|][1..], fold) by {
            SameFoldedCons(s, text[..|s|], fold);
          }
        }
      }
    }
  }

  lemma SameFoldedCons(a: string, b: string, fold: char -> char)
    requires a != "" && b != ""
    ensures SameFolded(a, b, fold) <==> fold(a[0]) == fold(b[0]) && SameFolded(a[1..], b[1..], fold)
  {
    if fold(a[0]) == fold(b[0]) && SameFolded(a[1..], b[1..], fold) {
      forall k | 0 <= k < |a| ensures fold(a[k]) == fold(b[k]) {
        if k > 0 {
          assert a[k] == a[1..][k - 1] && b[k] == b[1..][k - 1];
        }
      }
    }
  }

  lemma {:induction false} PercentMatchesEverything(text: string, fold: char -> char)
    ensures Like(text, "%", fold)
  {
    assert "%"[1..] == "";
    if text != "" {
      PercentMatchesEverything(text[1..], fold);
    }
  }

  // '%' skips any number of characters.
  lemma {:induction false} PercentSkips(text: string, pattern: string, fold: char -> char)
    ensures Like(text, "%" + pattern, fold) <==>
            exists i :: 0 <= i <= |text| && Like(text[i..], pattern, fold)
  {
    var p := "%" + pattern;
    assert p[1..] == pattern;
    assert text[0..] == text;
    if text != "" {
      PercentSkips(text[1..], pattern, fold);
      if i :| 0 <= i <= |text| && Like(text[i..], pattern, fold) {
        if i > 0 {
          assert text[1..][i - 1..] == text[i..];
        }
      }
      if i :| 0 <= i <= |text[1..]| && Like(text[1..][i..], pattern, fold) {
        assert text[1..][i..] == text[i + 1..];
      }
    }
  }

  // ------------------------------------------------------------------ main results

  // The pattern the service builds matches a title exactly when the title contains the text the
  // user typed: wildcards and backslashes in the text have lost their meaning.
  lemma SearchPatternMeansContains(title: string, query: string, fold: char -> char)
    ensures Like(title, SearchPattern(query), fold) <==> Contains(title, query, fold)
  {
    EscapeLikeIsOnePass(query);
    var tail := EscapeOnePass(query) + "%";
    assert SearchPattern(query) == "%" + tail;
    PercentSkips(title, tail, fold);
    forall i | 0 <= i <= |title|
      ensures Like(title[i..], tail, fold) <==> OccursAt(query, title, i, fold)
    {
      EscapedPrefixIsLiteral(query, "%", title[i..], fold);
      if |query| <= |title[i..]| {
        PercentMatchesEverything(title[i..][|query|..], fold);
        assert title[i..][..|query|] == title[i..i + |query|];
      }
    }
  }

  lemma {:induction false} EscapeOnePassIsWellFormed(s: string, pattern: string)
    requires WellFormed(pattern)
    ensures WellFormed(EscapeOnePass(s) + pattern)
  {
    if s == "" {
      assert EscapeOnePass(s) + pattern == pattern;
    } else {
      var p := EscapeOnePass(s) + pattern;
      var rest := EscapeOnePass(s[1..]) + pattern;
      assert p == EscapeChar(s[0]) + rest;
      assert p[|EscapeChar(s[0])|..] == rest;
      EscapeOnePassIsWellFormed(s[1..], pattern);
    }
  }

  lemma EscapedPatternIsWellFormed(query: string)
    ensures WellFormed(SearchPattern(query))
  {
    EscapeLikeIsOnePass(query);
    assert "%"[1..] == "";
    EscapeOnePassIsWellFormed(query, "%");
    assert SearchPattern(query)[1..] == EscapeOnePass(query) + "%";
  }

  // The escape loses nothing: two texts with the same escaped form are the same text.
  lemma {:induction false} EscapeLikeIsInjective(a: string, b: string)
    requires EscapeLike(a) == EscapeLike(b)
    ensures a == b
  {
    EscapeLikeIsOnePass(a);
    EscapeLikeIsOnePass(b);
    OnePassInjective(a, b);
  }

  lemma {:induction false} OnePassInjective(a: string, b: string)
    requires EscapeOnePass(a) == EscapeOnePass(b)
    ensures a == b
  {
    if a != "" && b != "" {
      assert EscapeOnePass(a)[0] == EscapeChar(a[0])[0];
      assert EscapeOnePass(b)[0] == EscapeChar(b[0])[0];
      assert a[0] == b[0] by {
        if EscapeOnePass(a)[0] == '\\' {
          assert EscapeOnePass(a)[1] == a[0];
          assert EscapeOnePass(b)[1] == b[0];
        }
      }
      var n := |EscapeChar(a[0])|;
      assert EscapeOnePass(a)[n..] == EscapeOnePass(a[1..]);
      assert EscapeOnePass(b)[n..] == EscapeOnePass(b[1..]);
      OnePassInjective(a[1..], b[1..]);
      assert a == [a[0]] + a[1..] && b == [b[0]] + b[1..];
    }
  }
}
