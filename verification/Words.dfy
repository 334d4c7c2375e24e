/** Whitespace splitting of header text. */
module Words {

  /** The characters with Unicode's `White_Space` property. */
  predicate IsSpace(c: char) {
    || '\t' <= c <= '\r'
    || c == ' '
    || c == '\U{85}'
    || c == '\U{A0}'
    || c == '\U{1680}'
    || '\U{2000}' <= c <= '\U{200A}'
    || c == '\U{2028}' || c == '\U{2029}'
    || c == '\U{202F}' || c == '\U{205F}' || c == '\U{3000}'
  }

  function TrimStart(s: string): string {
    if s != "" && IsSpace(s[0]) then TrimStart(s[1..]) else s
  }

  function TrimEnd(s: string): string {
    if s != "" && IsSpace(s[|s| - 1]) then TrimEnd(s[..|s| - 1]) else s
  }

  function Trim(s: string): string {
    TrimEnd(TrimStart(s))
  }

  predicate AllSpace(s: string) {
    forall i :: 0 <= i < |s| ==> IsSpace(s[i])
  }

  lemma {:induction false} TrimStartDropsSpace(a: string, s: string)
    requires AllSpace(a) && (s == "" || !IsSpace(s[0]))
    ensures TrimStart(a + s) == s
  {
    if a == "" {
      assert a + s == s;
    } else {
      assert (a + s)[1..] == a[1..] + s;
      TrimStartDropsSpace(a[1..], s);
    }
  }

  lemma {:induction false} TrimEndDropsSpace(s: string, b: string)
    requires AllSpace(b) && (s == "" || !IsSpace(s[|s| - 1]))
    ensures TrimEnd(s + b) == s
  {
    if b == "" {
      assert s + b == s;
    } else {
      assert (s + b)[..|s + b| - 1] == s + b[..|b| - 1];
      TrimEndDropsSpace(s, b[..|b| - 1]);
    }
  }

  /** Trimming drops the white space on both sides and nothing else. */
  lemma TrimDropsSpace(a: string, s: string, b: string)
    requires AllSpace(a) && AllSpace(b) && (s != "" ==> !IsSpace(s[0]) && !IsSpace(s[|s| - 1]))
    ensures Trim(a + s + b) == s
  {
    if s == "" {
      assert a + s + b == (a + b) + "";
      TrimStartDropsSpace(a + b, "");
    } else {
      assert a + s + b == a + (s + b);
      TrimStartDropsSpace(a, s + b);
      TrimEndDropsSpace(s, b);
    }
  }

  lemma {:induction false} TrimStartIsPart(s: string)
    ensures TrimStart(s) == "" <==> AllSpace(s)
    ensures TrimStart(s) != "" ==> !IsSpace(TrimStart(s)[0])
  {
    if s != "" && IsSpace(s[0]) {
      TrimStartIsPart(s[1..]);
      assert forall i :: 0 < i < |s| ==> s[i] == s[1..][i - 1];
    }
  }

  lemma {:induction false} TrimEndKeepsStart(s: string)
    requires s != "" && !IsSpace(s[0])
    ensures TrimEnd(s) != ""
  {
    if IsSpace(s[|s| - 1]) {
      TrimEndKeepsStart(s[..|s| - 1]);
    }
  }

  /** Nothing is left of white space only. */
  lemma TrimIsEmptyIff(s: string)
    ensures Trim(s) == "" <==> AllSpace(s)
  {
    TrimStartIsPart(s);
    if TrimStart(s) != "" {
      TrimEndKeepsStart(TrimStart(s));
    }
  }

  predicate NoSpace(s: string) {
    forall i :: 0 <= i < |s| ==> !IsSpace(s[i])
  }

  /** Length of the leading run of non-space characters. */
  function WordLength(s: string): (n: nat)
    ensures n <= |s| && NoSpace(s[..n])
    ensures n < |s| ==> IsSpace(s[n])
  {
    if s == "" || IsSpace(s[0]) then 0
    else
      var n := 1 + WordLength(s[1..]);
      assert forall i :: 0 < i < n ==> s[i] == s[1..][i - 1];
      n
  }

  /** The non-empty runs of non-space characters, in order. */
  function SplitWhitespace(s: string): (words: seq<string>)
    ensures forall w :: w in words ==> w != "" && NoSpace(w)
    decreases |s|
  {
    if s == "" then []
    else if IsSpace(s[0]) then SplitWhitespace(s[1..])
    else
      var n := WordLength(s);
      [s[..n]] + SplitWhitespace(s[n..])
  }

  /** Words joined by single spaces. */
  function JoinSpace(words: seq<string>): string {
    if words == [] then ""
    else if |words| == 1 then words[0]
    else words[0] + " " + JoinSpace(words[1..])
  }

  lemma {:induction false} WordLengthOf(w: string, rest: string)
    requires NoSpace(w) && (rest == "" || IsSpace(rest[0]))
    ensures WordLength(w + rest) == |w|
  {
    if w == "" {
      assert w + rest == rest;
    } else {
      assert (w + rest)[1..] == w[1..] + rest;
      WordLengthOf(w[1..], rest);
    }
  }

  lemma {:induction false} NoWordsInSpace(a: string)
    requires AllSpace(a)
    ensures SplitWhitespace(a) == []
  {
    if a != "" {
      assert forall i :: 0 <= i < |a[1..]| ==> a[1..][i] == a[i + 1];
      NoWordsInSpace(a[1..]);
    }
  }

  /** Splitting skips white space and takes characters up to the next. */
  lemma {:induction false} FirstWord(a: string, w: string, b: string)
    requires AllSpace(a) && w != "" && NoSpace(w) && (b == "" || IsSpace(b[0]))
    ensures SplitWhitespace(a + w + b) == [w] + SplitWhitespace(b)
  {
    var s := a + w + b;
    if a == "" {
      assert s == w + b;
      WordLengthOf(w, b);
      assert s[..|w|] == w && s[|w|..] == b && s[0] == w[0];
    } else {
      assert s[1..] == a[1..] + w + b && s[0] == a[0];
      assert forall i :: 0 <= i < |a[1..]| ==> a[1..][i] == a[i + 1];
      FirstWord(a[1..], w, b);
    }
  }

  /** Splitting undoes joining. */
  lemma {:induction false} SplitJoin(words: seq<string>)
    requires forall w :: w in words ==> w != "" && NoSpace(w)
    ensures SplitWhitespace(JoinSpace(words)) == words
  {
    if words != [] {
      var w, s := words[0], JoinSpace(words);
      assert w in words;
      if |words| == 1 {
        assert w + "" == w;
        WordLengthOf(w, "");
        assert s[..|w|] == w && s[|w|..] == "";
      } else {
        var rest := " " + JoinSpace(words[1..]);
        assert s == w + rest;
        WordLengthOf(w, rest);
        assert s[..|w|] == w && s[|w|..] == rest;
        assert rest[1..] == JoinSpace(words[1..]);
        assert forall v :: v in words[1..] ==> v in words;
        SplitJoin(words[1..]);
      }
    }
  }
}
