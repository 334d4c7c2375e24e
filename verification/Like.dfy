/** SQL `LIKE` with `ESCAPE '\'`, and the two ways the backend turns free text into a pattern. */
module Like {

  // ----- The matcher -----

  /** ASCII case folding, the only folding SQLite's built-in `LIKE` does. */
  function Lower(c: char): char {
    if 'A' <= c <= 'Z' then c + ' ' else c
  }

  predicate SameChar(a: char, b: char) {
    Lower(a) == Lower(b)
  }

  /** Two characters match if they are equal or the two cases of one ASCII letter. */
  lemma SameCharIff(a: char, b: char)
    ensures SameChar(a, b) <==>
            || a == b
            || ('A' <= a <= 'Z' && b as int == a as int + 32)
            || ('A' <= b <= 'Z' && a as int == b as int + 32)
  {
  }

  /** `s LIKE p ESCAPE '\'`, by backtracking over `%`. A dangling escape matches nothing. */
  predicate LikeMatch(p: string, s: string)
    decreases |p| + |s|
  {
    if p == "" then s == ""
    else if p[0] == '%' then
      LikeMatch(p[1..], s) || (s != "" && LikeMatch(p, s[1..]))
    else if p[0] == '_' then
      s != "" && LikeMatch(p[1..], s[1..])
    else if p[0] == '\\' then
      |p| >= 2 && s != "" && SameChar(p[1], s[0]) && LikeMatch(p[2..], s[1..])
    else
      s != "" && SameChar(p[0], s[0]) && LikeMatch(p[1..], s[1..])
  }

  // ----- What a search is meant to find -----

  /** Equality up to ASCII case. */
  predicate SameText(a: string, b: string) {
    |a| == |b| && forall i :: 0 <= i < |a| ==> SameChar(a[i], b[i])
  }

  predicate StartsWith(s: string, t: string) {
    |t| <= |s| && SameText(t, s[..|t|])
  }

  /** `s` contains `t` up to ASCII case. */
  predicate Contains(s: string, t: string) {
    exists k :: 0 <= k <= |s| && StartsWith(s[k..], t)
  }

  // ----- Escaping -----

  /** Replace every occurrence of one character by a string. */
  function ReplaceChar(s: string, c: char, sub: string): string {
    if s == "" then ""
    else (if s[0] == c then sub else [s[0]]) + ReplaceChar(s[1..], c, sub)
  }

  /** The contact search's escaping: backslash first, then the two wildcards. */
  function EscapeLike(term: string): string {
    ReplaceChar(ReplaceChar(ReplaceChar(term, '\\', "\\\\"), '%', "\\%"), '_', "\\_")
  }

  /** The thread query's escaping: the two wildcards only. */
  function EscapeWildcards(term: string): string {
    ReplaceChar(ReplaceChar(term, '%', "\\%"), '_', "\\_")
  }

  /** The pattern both callers build around an escaped term. */
  function Anywhere(escaped: string): string {
    "%" + escaped + "%"
  }

  function EscapeChar(c: char, alsoBackslash: bool): string {
    if c == '%' || c == '_' || (alsoBackslash && c == '\\') then ['\\', c] else [c]
  }

  /** One pass over the term, escaping character by character. */
  function EscapeEach(term: string, alsoBackslash: bool): string {
    if term == "" then ""
    else EscapeChar(term[0], alsoBackslash) + EscapeEach(term[1..], alsoBackslash)
  }

  lemma {:induction false} ReplaceCharConcat(a: string, b: string, c: char, sub: string)
    ensures ReplaceChar(a + b, c, sub) == ReplaceChar(a, c, sub) + ReplaceChar(b, c, sub)
  {
    if a == "" {
      assert a + b == b;
    } else {
      assert (a + b)[1..] == a[1..] + b;
      ReplaceCharConcat(a[1..], b, c, sub);
    }
  }

  lemma ReplaceOne(c: char, d: char, sub: string)
    ensures ReplaceChar([d], c, sub) == if d == c then sub else [d]
  {
    assert ReplaceChar([d][1..], c, sub) == "";
  }

  lemma ReplaceTwo(c: char, d: char, e: char, sub: string)
    requires d != c
    ensures ReplaceChar([d, e], c, sub) == [d] + if e == c then sub else [e]
  {
    assert [d, e] == [d] + [e];
    ReplaceCharConcat([d], [e], c, sub);
    ReplaceOne(c, d, sub);
    ReplaceOne(c, e, sub);
  }

  /** The two successive replaces are one pass escaping the wildcards. */
  lemma {:induction false} EscapeWildcardsIsOnePass(term: string)
    ensures EscapeWildcards(term) == EscapeEach(term, false)
  {
    if term != "" {
      var c, rest := term[0], term[1..];
      var first := ReplaceChar([c], '%', "\\%");
      assert term == [c] + rest;
      ReplaceCharConcat([c], rest, '%', "\\%");
      ReplaceCharConcat(first, ReplaceChar(rest, '%', "\\%"), '_', "\\_");
      ReplaceOne('%', c, "\\%");
      ReplaceOne('_', c, "\\_");
      ReplaceTwo('_', '\\', '%', "\\_");
      EscapeWildcardsIsOnePass(rest);
    }
  }

  /** The three successive replaces are one pass escaping all three special characters. */
  lemma {:induction false} EscapeLikeIsOnePass(term: string)
    ensures EscapeLike(term) == EscapeEach(term, true)
  {
    if term != "" {
      var c, rest := term[0], term[1..];
      assert term == [c] + rest;
      var first := ReplaceChar([c], '\\', "\\\\");
      ReplaceOne('\\', c, "\\\\");
      ReplaceCharConcat([c], rest, '\\', "\\\\");
      var rest1 := ReplaceChar(rest, '\\', "\\\\");
      ReplaceCharConcat(first, rest1, '%', "\\%");
      ReplaceCharConcat(ReplaceChar(first, '%', "\\%"), ReplaceChar(rest1, '%', "\\%"), '_', "\\_");
      ReplaceOne('%', c, "\\%");
      ReplaceOne('_', c, "\\_");
      ReplaceTwo('%', '\\', '\\', "\\%");
      ReplaceTwo('_', '\\', '\\', "\\_");
      ReplaceTwo('_', '\\', '%', "\\_");
      EscapeLikeIsOnePass(rest);
    }
  }

  // ----- Exactness of the contact search -----

  lemma {:induction false} PercentMatchesAll(s: string)
    ensures LikeMatch("%", s)
  {
    if s != "" {
      PercentMatchesAll(s[1..]);
    } else {
      assert LikeMatch("%"[1..], s);
    }
  }

  /** A leading `%` tries the rest of the pattern at every position. */
  lemma {:induction false} PercentTriesEverySuffix(p: string, s: string)
    ensures LikeMatch("%" + p, s) <==> exists k :: 0 <= k <= |s| && LikeMatch(p, s[k..])
  {
    var q := "%" + p;
    assert q[1..] == p;
    assert s[0..] == s;
    if s != "" {
      PercentTriesEverySuffix(p, s[1..]);
      forall k | 0 <= k <= |s| - 1 ensures s[1..][k..] == s[k + 1..] {}
      if k :| 0 <= k <= |s| && LikeMatch(p, s[k..]) {
        if k > 0 {
          assert LikeMatch(p, s[1..][k - 1..]);
        }
      }
      if LikeMatch(q, s[1..]) {
        var k :| 0 <= k <= |s[1..]| && LikeMatch(p, s[1..][k..]);
        assert LikeMatch(p, s[k + 1..]);
      }
    }
  }

  lemma {:induction false} StartsWithStep(s: string, t: string)
    requires t != ""
    ensures StartsWith(s, t) <==> s != "" && SameChar(t[0], s[0]) && StartsWith(s[1..], t[1..])
  {
    if s != "" && SameChar(t[0], s[0]) && StartsWith(s[1..], t[1..]) {
      forall i | 0 <= i < |t| ensures SameChar(t[i], s[..|t|][i]) {
        if i > 0 {
          assert SameChar(t[1..][i - 1], s[1..][..|t| - 1][i - 1]);
        }
      }
    }
    if StartsWith(s, t) {
      assert SameChar(t[0], s[..|t|][0]);
      forall i | 0 <= i < |t| - 1 ensures SameChar(t[1..][i], s[1..][..|t| - 1][i]) {
        assert SameChar(t[i + 1], s[..|t|][i + 1]);
      }
    }
  }

  /** A term with every special character escaped matches itself, character by character. */
  lemma {:induction false} EscapedTermMatchesItself(t: string, p: string, s: string, alsoBackslash: bool)
    requires alsoBackslash || '\\' !in t
    ensures LikeMatch(EscapeEach(t, alsoBackslash) + p, s) <==> StartsWith(s, t) && LikeMatch(p, s[|t|..])
  {
    var e := EscapeEach(t, alsoBackslash) + p;
    if t == "" {
      assert e == p && s[0..] == s;
    } else {
      var h := EscapeChar(t[0], alsoBackslash);
      var tail := EscapeEach(t[1..], alsoBackslash) + p;
      assert e == h + tail && e[|h|..] == tail;
      StartsWithStep(s, t);
      if s != "" {
        EscapedTermMatchesItself(t[1..], p, s[1..], alsoBackslash);
        if |s| >= |t| {
          assert s[1..][|t| - 1..] == s[|t|..];
        }
      }
    }
  }

  lemma AnywhereFindsTerm(t: string, s: string, alsoBackslash: bool)
    requires alsoBackslash || '\\' !in t
    ensures LikeMatch(Anywhere(EscapeEach(t, alsoBackslash)), s) <==> Contains(s, t)
  {
    var e := EscapeEach(t, alsoBackslash) + "%";
    assert Anywhere(EscapeEach(t, alsoBackslash)) == "%" + e;
    PercentTriesEverySuffix(e, s);
    forall k | 0 <= k <= |s| ensures LikeMatch(e, s[k..]) <==> StartsWith(s[k..], t) {
      EscapedTermMatchesItself(t, "%", s[k..], alsoBackslash);
      if StartsWith(s[k..], t) {
        PercentMatchesAll(s[k..][|t|..]);
      }
    }
  }

  /** The escaped contact search finds a term in exactly the strings that contain it. */
  lemma SearchIsExact(term: string, s: string)
    ensures LikeMatch(Anywhere(EscapeLike(term)), s) <==> Contains(s, term)
  {
    EscapeLikeIsOnePass(term);
    AnywhereFindsTerm(term, s, true);
  }

  // ----- Exactness of the thread query -----

  /**
    A string that the wildcard-only pattern of `t` accepts although, once `t` holds a backslash,
    the string does not contain `t`: each backslash has swallowed the character after it.
   */
  function Accepted(t: string): string
    ensures |Accepted(t)| <= |t|
  {
    if t == "" then ""
    else if t[0] != '\\' then [t[0]] + Accepted(t[1..])
    else if |t| == 1 then "%"
    else if t[1] == '%' then "\\" + Accepted(t[2..])
    else if t[1] == '_' then "\\x" + Accepted(t[2..])
    else [t[1]] + Accepted(t[2..])
  }

  /** A backslash and the character after it, escaped. */
  lemma EscapedPair(t: string)
    requires |t| >= 2 && t[0] == '\\'
    ensures EscapeEach(t, false) == ['\\'] + EscapeChar(t[1], false) + EscapeEach(t[2..], false)
  {
    assert t[1..][1..] == t[2..];
    assert EscapeEach(t[1..], false) == EscapeChar(t[1], false) + EscapeEach(t[2..], false);
  }

  lemma EscapedMatches(c: char, p: string, s: string)
    requires LikeMatch(p, s)
    ensures LikeMatch(['\\', c] + p, [c] + s)
  {
    assert (['\\', c] + p)[2..] == p && ([c] + s)[1..] == s;
  }

  lemma CharMatches(c: char, p: string, s: string)
    requires LikeMatch(p, s) && c != '\\'
    ensures LikeMatch(EscapeChar(c, false) + p, [c] + s)
  {
    if c == '%' || c == '_' {
      EscapedMatches(c, p, s);
    } else {
      assert ([c] + p)[1..] == p && ([c] + s)[1..] == s;
    }
  }

  lemma WildcardMatches(p: string, s: string)
    requires LikeMatch(p, s)
    ensures LikeMatch("%" + p, s) && LikeMatch("_" + p, "x" + s)
  {
    assert ("%" + p)[1..] == p && ("_" + p)[1..] == p && ("x" + s)[1..] == s;
  }

  /** A backslash escapes the escape, or the character itself. */
  lemma AfterBackslash(c: char, p: string, s: string)
    requires LikeMatch(p, s)
    ensures LikeMatch(['\\'] + EscapeChar(c, false) + p,
                      (if c == '%' then "\\" else if c == '_' then "\\x" else [c]) + s)
  {
    hide LikeMatch;
    WildcardMatches(p, s);
    if c == '%' {
      EscapedMatches('\\', "%" + p, s);
      Adjoined('\\', ['\\', '%'], "%", p);
    } else if c == '_' {
      EscapedMatches('\\', "_" + p, "x" + s);
      Adjoined('\\', ['\\', '_'], "_", p);
      Adjoined('\\', "\\x", "x", s);
    } else {
      EscapedMatches(c, p, s);
      assert ['\\', c] == ['\\'] + [c];
    }
  }

  lemma Adjoined(c: char, pair: string, single: string, p: string)
    ensures pair == [c] + single ==> pair + p == [c] + (single + p) && [c] + pair + p == [c, c] + (single + p)
  {
  }

  lemma LoneBackslash(t: string)
    requires t == "\\"
    ensures LikeMatch(EscapeEach(t, false) + "%", Accepted(t))
  {
    assert t[1..] == "";
    assert EscapeEach(t, false) == ['\\'] + "";
    assert EscapeEach(t, false) + "%" == ['\\', '%'] + "";
    assert Accepted(t) == ['%'] + "";
    EscapedMatches('%', "", "");
  }

  lemma {:induction false} AcceptedMatches(t: string)
    ensures LikeMatch(EscapeEach(t, false) + "%", Accepted(t))
  {
    hide LikeMatch;
    if t == "" {
      PercentMatchesAll("");
      assert "" + "%" == "%";
    } else if t[0] != '\\' {
      var p := EscapeEach(t[1..], false) + "%";
      AcceptedMatches(t[1..]);
      CharMatches(t[0], p, Accepted(t[1..]));
      assert EscapeEach(t, false) + "%" == EscapeChar(t[0], false) + p;
    } else if |t| == 1 {
      LoneBackslash(t);
    } else {
      var p, s := EscapeEach(t[2..], false) + "%", Accepted(t[2..]);
      AcceptedMatches(t[2..]);
      EscapedPair(t);
      AfterBackslash(t[1], p, s);
      hide EscapeEach, EscapeChar;
      assert EscapeEach(t, false) + "%" == ['\\'] + EscapeChar(t[1], false) + p;
    }
  }

  lemma {:induction false} AcceptedDiffers(t: string)
    requires '\\' in t
    ensures !SameText(t, Accepted(t))
  {
    if t[0] != '\\' {
      AcceptedDiffers(t[1..]);
      if SameText(t, Accepted(t)) {
        assert Accepted(t)[1..] == Accepted(t[1..]);
        forall i | 0 <= i < |t[1..]| ensures SameChar(t[1..][i], Accepted(t[1..])[i]) {
          assert SameChar(t[i + 1], Accepted(t)[i + 1]);
        }
      }
    }
  }

  /** Escaping the wildcards alone is exact precisely for the terms without a backslash. */
  lemma WildcardEscapingIsExactIff(term: string)
    ensures (forall s :: LikeMatch(Anywhere(EscapeWildcards(term)), s) <==> Contains(s, term)) <==> '\\' !in term
  {
    EscapeWildcardsIsOnePass(term);
    if '\\' !in term {
      forall s ensures LikeMatch(Anywhere(EscapeWildcards(term)), s) <==> Contains(s, term) {
        AnywhereFindsTerm(term, s, false);
      }
    } else {
      var s := Accepted(term);
      var p := EscapeEach(term, false) + "%";
      assert Anywhere(EscapeWildcards(term)) == "%" + p;
      AcceptedMatches(term);
      PercentTriesEverySuffix(p, s);
      assert s[0..] == s;
      AcceptedDiffers(term);
      forall k | 0 <= k <= |s| ensures !StartsWith(s[k..], term) {
        if |term| <= |s[k..]| {
          assert s[k..][..|term|] == s;
        }
      }
      assert !Contains(s, term) && LikeMatch(Anywhere(EscapeWildcards(term)), s);
    }
  }
}
