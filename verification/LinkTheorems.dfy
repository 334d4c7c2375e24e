/** What link rewriting preserves, and why rewritten links verify. */
module LinkTheorems {
  import opened Bytes
  import opened Base64Url
  import opened Numerals
  import opened Wrappers
  import opened LinkProxy

  /** A quoted attribute value with its quote. */
  datatype Attr = Attr(quote: Byte, value: Bytes)

  /** The attributes a scan finds, in order. */
  function Attributes(html: Bytes): seq<Attr>
    decreases |html|
  {
    match FindFrom(html, 0)
    case None => []
    case Some(pos) =>
      FoundInRange(html, 0);
      [Attr(pos.quote, html[pos.hrefStart..pos.hrefEnd])] + Attributes(html[pos.hrefEnd + 1..])
  }

  /** The text before, between and after the attributes. */
  function Texts(html: Bytes): (texts: seq<Bytes>)
    ensures |texts| == |Attributes(html)| + 1
    decreases |html|
  {
    match FindFrom(html, 0)
    case None => [html]
    case Some(pos) =>
      FoundInRange(html, 0);
      [html[..pos.start]] + Texts(html[pos.hrefEnd + 1..])
  }

  /** Text and attributes put together again. */
  function Rebuild(texts: seq<Bytes>, attrs: seq<Attr>): Bytes
    requires |texts| == |attrs| + 1
  {
    if attrs == [] then texts[0]
    else texts[0] + HrefText(attrs[0].quote, attrs[0].value) + Rebuild(texts[1..], attrs[1..])
  }

  function RewrittenAttr(p: Proxy, a: Attr): Attr {
    Attr(a.quote, Rewritten(p, a.value))
  }

  function RewrittenAttrs(p: Proxy, attrs: seq<Attr>): (r: seq<Attr>)
    ensures |r| == |attrs| && forall i :: 0 <= i < |r| ==> r[i] == RewrittenAttr(p, attrs[i])
  {
    seq(|attrs|, i requires 0 <= i < |attrs| => RewrittenAttr(p, attrs[i]))
  }

  // ----- Quotes -----

  predicate QuoteFree(b: Bytes) {
    forall c :: c in b ==> !IsQuote(c)
  }

  lemma QuoteFreeConcat(a: Bytes, b: Bytes)
    requires QuoteFree(a) && QuoteFree(b)
    ensures QuoteFree(a + b)
  {
  }

  lemma EncodedIsPlain(b: Bytes)
    ensures QuoteFree(Encode(b)) && AMPERSAND !in Encode(b) && EQUALS !in Encode(b)
  {
    forall c | c in Encode(b) ensures !IsQuote(c) && c != AMPERSAND && c != EQUALS {
      assert Value(c).Some?;
    }
  }

  lemma PrintedIsPlain(n: int)
    ensures forall c :: c in PrintedInt(n) ==> c == 45 || 48 <= c <= 57
  {
    IntIsAscii(n);
    var s := PrintInt(n);
    assert forall i :: 0 <= i < |s| ==> s[i] == '-' || IsDigit(s[i]);
  }

  lemma NumbersAreQuoteFree(n: int, tag: Bytes)
    ensures QuoteFree(PrintedInt(n)) && QuoteFree(EncodeHex(tag))
  {
    PrintedIsPlain(n);
    DecodeEncodeHex(tag);
    hide EncodeHex, PrintedInt;
  }

  lemma SeparatorsAreQuoteFree()
    ensures QuoteFree(Ascii("u=")) && QuoteFree(Ascii("&exp=")) && QuoteFree(Ascii("&s="))
  {
  }

  lemma SignedIsQuoteFree(p: Proxy, url: Bytes)
    ensures QuoteFree(SignUrl(p.secret, p.mac, url, p.user, p.exp))
  {
    var tag := p.mac(p.secret, MacInput(url, p.user, p.exp));
    hide Encode, EncodeHex, PrintedInt, Ascii, MacInput, QuoteFree;
    EncodedIsPlain(url);
    NumbersAreQuoteFree(p.exp, tag);
    SeparatorsAreQuoteFree();
    QuoteFreeConcat(Ascii("u="), Encode(url));
    QuoteFreeConcat(Ascii("u=") + Encode(url), Ascii("&exp="));
    QuoteFreeConcat(Ascii("u=") + Encode(url) + Ascii("&exp="), PrintedInt(p.exp));
    QuoteFreeConcat(Ascii("u=") + Encode(url) + Ascii("&exp=") + PrintedInt(p.exp), Ascii("&s="));
    QuoteFreeConcat(Ascii("u=") + Encode(url) + Ascii("&exp=") + PrintedInt(p.exp) + Ascii("&s="), EncodeHex(tag));
  }

  lemma LinkPathIsQuoteFree()
    ensures QuoteFree(LinkPath())
  {
  }

  lemma RewrittenQuotes(p: Proxy, raw: Bytes, c: Byte)
    requires QuoteFree(p.base) && IsQuote(c) && c in Rewritten(p, raw)
    ensures c in raw
  {
    hide SignUrl, LinkPath, ShouldProxy;
    SignedIsQuoteFree(p, raw);
    LinkPathIsQuoteFree();
    QuoteFreeConcat(p.base, LinkPath());
    QuoteFreeConcat(p.base + LinkPath(), SignUrl(p.secret, p.mac, raw, p.user, p.exp));
  }

  // ----- The first attribute of a text -----

  /** A text cut around its first attribute: `name` is `href=` in some letter case. */
  datatype Cut = Cut(before: Bytes, name: Bytes, quote: Byte, value: Bytes, after: Bytes)

  function Joined(c: Cut): Bytes {
    c.before + c.name + [c.quote] + c.value + [c.quote] + c.after
  }

  ghost predicate IsCut(s: Bytes, c: Cut) {
    && s == Joined(c)
    && SameLetters(c.name, Ascii("href=")) && c.name[4] == EQUALS
    && IsQuote(c.quote) && c.quote !in c.value
    && NoneOpensBefore(s, |c.before|)
  }

  ghost predicate NoneOpensBefore(s: Bytes, n: nat) {
    forall i :: 0 <= i < n && i + 5 < |s| ==> !OpensAt(s, i)
  }

  function CutAt(s: Bytes, pos: HrefPos): Cut
    requires pos.start + 6 == pos.hrefStart <= pos.hrefEnd < |s|
  {
    Cut(s[..pos.start], s[pos.start..pos.start + 5], pos.quote, s[pos.hrefStart..pos.hrefEnd], s[pos.hrefEnd + 1..])
  }

  /** Where the parts of a cut sit. */
  lemma Layout(c: Cut)
    requires |c.name| == 5
    ensures var s, n, m := Joined(c), |c.before|, |c.before| + 6 + |c.value|;
            && |s| == m + 1 + |c.after|
            && s[..n] == c.before && s[n..n + 5] == c.name && s[n + 5] == c.quote
            && s[n + 6..m] == c.value && s[m] == c.quote && s[m + 1..] == c.after
            && s[n + 6..] == c.value + [c.quote] + c.after
  {
    var s, n, m := Joined(c), |c.before|, |c.before| + 6 + |c.value|;
    var tail := c.value + [c.quote] + c.after;
    assert s == c.before + c.name + [c.quote] + tail;
    assert s[n + 6..] == tail;
    assert s[n + 6..m] == tail[..|c.value|] && s[m] == tail[|c.value|] && s[m + 1..] == tail[|c.value| + 1..];
  }

  lemma Slices(s: Bytes, start: nat, end: nat)
    requires start + 6 <= end < |s| && s[end] == s[start + 5]
    ensures Joined(Cut(s[..start], s[start..start + 5], s[start + 5], s[start + 6..end], s[end + 1..])) == s
  {
    assert s[..end] == s[..start] + s[start..start + 5] + [s[start + 5]] + s[start + 6..end];
    assert s == s[..end] + [s[end]] + s[end + 1..];
  }

  /** The value of a found attribute runs up to the next quote of its kind. */
  lemma ValueEndsAtQuote(s: Bytes, from: nat, q: Byte)
    requires from <= |s| && q in s[from..]
    ensures var end := from + IndexOf(s[from..], q); end < |s| && s[end] == q && q !in s[from..end]
  {
    var tail := s[from..];
    assert tail[..IndexOf(tail, q)] == s[from..from + IndexOf(tail, q)];
  }

  lemma IsHrefName(s: Bytes, i: nat)
    requires i + 5 < |s|
    ensures IsHrefAt(s, i) <==> SameLetters(s[i..i + 5], Ascii("href=")) && s[i..i + 5][4] == EQUALS
  {
    var name, href := s[i..i + 5], Ascii("href=");
    assert name[0] == s[i] && name[1] == s[i + 1] && name[2] == s[i + 2] && name[3] == s[i + 3] && name[4] == s[i + 4];
    assert href[0] == 104 && href[1] == 114 && href[2] == 101 && href[3] == 102 && href[4] == EQUALS;
    if SameLetters(name, href) {
      assert SameLetter(name[0], href[0]) && SameLetter(name[1], href[1]);
      assert SameLetter(name[2], href[2]) && SameLetter(name[3], href[3]);
    }
  }

  /** An attribute opens exactly where `href=` in some letter case meets a quote that comes again later. */
  lemma OpensIff(s: Bytes, i: nat)
    requires i + 5 < |s|
    ensures OpensAt(s, i) <==>
            && SameLetters(s[i..i + 5], Ascii("href=")) && s[i + 4] == 61
            && (s[i + 5] == 34 || s[i + 5] == 39)
            && exists j :: i + 6 <= j < |s| && s[j] == s[i + 5]
  {
    IsHrefName(s, i);
    assert s[i..i + 5][4] == s[i + 4];
    hide IsHrefAt, SameLetters;
    if s[i + 5] in s[i + 6..] {
      var k :| 0 <= k < |s[i + 6..]| && s[i + 6..][k] == s[i + 5];
      assert s[i + 6 + k] == s[i + 5];
    }
    if j :| i + 6 <= j < |s| && s[j] == s[i + 5] {
      assert s[i + 6..][j - i - 6] == s[i + 5];
    }
  }

  lemma PosFacts(s: Bytes, i: nat)
    requires i + 5 < |s| && OpensAt(s, i)
    ensures var pos := PosAt(s, i);
            && i == pos.start && i + 6 == pos.hrefStart <= pos.hrefEnd < |s|
            && s[i + 5] == pos.quote == s[pos.hrefEnd] && pos.quote !in s[pos.hrefStart..pos.hrefEnd]
            && IsHrefAt(s, i) && IsQuote(pos.quote)
  {
    hide IsHrefAt, IsQuote, IndexOf;
    ValueEndsAtQuote(s, i + 6, s[i + 5]);
  }

  lemma FoundFacts(s: Bytes, pos: HrefPos)
    requires FindFrom(s, 0) == Some(pos)
    ensures pos.start + 6 == pos.hrefStart <= pos.hrefEnd < |s|
    ensures IsHrefAt(s, pos.start) && IsQuote(pos.quote) && s[pos.start + 5] == pos.quote == s[pos.hrefEnd]
    ensures pos.quote !in s[pos.hrefStart..pos.hrefEnd] && NoneOpensBefore(s, pos.start)
  {
    hide FindFrom, IsHrefAt, IsQuote, OpensAt, PosAt;
    FoundInRange(s, 0);
    PosFacts(s, pos.start);
  }

  lemma FoundIsCut(s: Bytes, pos: HrefPos)
    requires FindFrom(s, 0) == Some(pos)
    ensures pos.start + 6 == pos.hrefStart <= pos.hrefEnd < |s| && IsCut(s, CutAt(s, pos))
  {
    FoundFacts(s, pos);
    hide FindFrom, Joined, Ascii, IsHrefAt, SameLetters, IsQuote, NoneOpensBefore;
    IsHrefName(s, pos.start);
    Slices(s, pos.start, pos.hrefEnd);
    assert |CutAt(s, pos).before| == pos.start;
  }

  /** The cut of a text around its first attribute, and what rewriting makes of it. */
  lemma FirstCut(p: Proxy, html: Bytes) returns (c: Cut)
    requires FindFrom(html, 0).Some?
    ensures IsCut(html, c) && |c.after| < |html| && Rewrite(p, html) == Joined(RewrittenCut(p, c))
  {
    var pos := FindFrom(html, 0).value;
    FoundIsCut(html, pos);
    RewriteOfCut(p, html, pos);
    c := CutAt(html, pos);
  }

  /** A cut is what the scan finds. */
  lemma CutIsFound(s: Bytes, c: Cut)
    requires IsCut(s, c)
    ensures |c.before| + 6 + |c.value| < |s|
    ensures FindFrom(s, 0) == Some(PosOf(c)) && CutAt(s, PosOf(c)) == c
  {
    Layout(c);
    assert CutAt(s, PosOf(c)) == c;
    CutOpensFirst(s, c);
    hide FindFrom, OpensAt, Joined, IsCut;
    FirstOpening(s, 0, |c.before|);
  }

  lemma CutOpensFirst(s: Bytes, c: Cut)
    requires IsCut(s, c)
    ensures |c.before| + 6 <= |s| && OpensAt(s, |c.before|) && PosAt(s, |c.before|) == PosOf(c)
    ensures forall j :: 0 <= j < |c.before| ==> !OpensAt(s, j)
  {
    Layout(c);
    hide Joined, Ascii, IsHrefAt, SameLetters, IsQuote, OpensAt;
    IsHrefName(s, |c.before|);
    CutOpens(s, c);
  }

  function PosOf(c: Cut): HrefPos {
    HrefPos(|c.before|, c.quote, |c.before| + 6, |c.before| + 6 + |c.value|)
  }

  lemma CutOpens(s: Bytes, c: Cut)
    requires |c.before| + 6 <= |s| && s[|c.before| + 5] == c.quote && IsQuote(c.quote) && IsHrefAt(s, |c.before|)
    requires s[|c.before| + 6..] == c.value + [c.quote] + c.after && c.quote !in c.value
    ensures OpensAt(s, |c.before|) && PosAt(s, |c.before|) == PosOf(c)
  {
    var tail := c.value + [c.quote] + c.after;
    assert tail[..|c.value|] == c.value && tail[|c.value|] == c.quote;
    IndexOfAt(tail, c.quote, |c.value|);
  }

  /** The same cut with the value rewritten and the rest rewritten. */
  function RewrittenCut(p: Proxy, c: Cut): Cut {
    Cut(c.before, Ascii("href="), c.quote, Rewritten(p, c.value), Rewrite(p, c.after))
  }

  lemma RewriteOfCut(p: Proxy, html: Bytes, pos: HrefPos)
    requires FindFrom(html, 0) == Some(pos) && pos.start + 6 == pos.hrefStart <= pos.hrefEnd < |html|
    ensures Rewrite(p, html) == Joined(RewrittenCut(p, CutAt(html, pos)))
  {
    hide Rewritten, FindFrom, ShouldProxy;
    var c := RewrittenCut(p, CutAt(html, pos));
    assert c.before + (c.name + [c.quote] + c.value + [c.quote]) + c.after == Joined(c);
  }

  lemma HrefIsQuoteFree()
    ensures QuoteFree(Ascii("href="))
  {
  }

  lemma InJoined(c: Cut, x: Byte)
    ensures x in Joined(c) <==> x in c.before || x in c.name || x == c.quote || x in c.value || x in c.after
  {
  }

  /** Rewriting brings in no quote character that was not there. */
  lemma {:induction false} NoNewQuotes(p: Proxy, html: Bytes, x: Byte)
    requires QuoteFree(p.base) && IsQuote(x) && x in Rewrite(p, html)
    ensures x in html
    decreases |html|
  {
    var found := FindFrom(html, 0);
    if found.Some? {
      var c := FirstCut(p, html);
      var c' := RewrittenCut(p, c);
      HrefIsQuoteFree();
      assert html == Joined(c);
      hide Rewrite, FindFrom, Rewritten, Joined, Ascii, IsCut;
      InJoined(c, x);
      InJoined(c', x);
      if x in c'.value {
        RewrittenQuotes(p, c.value, x);
      } else if x in c'.after {
        NoNewQuotes(p, c.after, x);
      }
    }
  }

  // ----- Scanning the rewritten text -----

  lemma {:induction false} FirstOpening(s: Bytes, from: nat, i: nat)
    requires from <= i && i + 5 < |s| && OpensAt(s, i) && forall j :: from <= j < i ==> !OpensAt(s, j)
    ensures FindFrom(s, from) == Some(PosAt(s, i))
    decreases i - from
  {
    if from < i {
      FirstOpening(s, from + 1, i);
    }
  }

  /** Whether an attribute opens inside the first part of a text. */
  lemma OpensInHead(head: Bytes, tail: Bytes, i: nat)
    requires i + 5 < |head|
    ensures OpensAt(head + tail, i) <==>
            IsHrefAt(head, i) && IsQuote(head[i + 5]) && (head[i + 5] in head[i + 6..] || head[i + 5] in tail)
  {
    var s := head + tail;
    assert s[i + 6..] == head[i + 6..] + tail;
    assert s[i] == head[i] && s[i + 1] == head[i + 1] && s[i + 2] == head[i + 2];
    assert s[i + 3] == head[i + 3] && s[i + 4] == head[i + 4] && s[i + 5] == head[i + 5];
  }

  /** Changing letter case and values, without new quotes behind, opens no attribute. */
  lemma NoNewOpening(head: Bytes, tail: Bytes, head': Bytes, tail': Bytes, i: nat)
    requires SameLetters(head, head') && i + 5 < |head|
    requires forall q :: IsQuote(q) && q in tail' ==> q in tail
    requires OpensAt(head' + tail', i)
    ensures OpensAt(head + tail, i)
  {
    OpensInHead(head, tail, i);
    OpensInHead(head', tail', i);
    assert SameLetter(head[i], head'[i]) && SameLetter(head[i + 1], head'[i + 1]);
    assert SameLetter(head[i + 2], head'[i + 2]) && SameLetter(head[i + 3], head'[i + 3]);
    assert SameLetter(head[i + 4], head'[i + 4]) && SameLetter(head[i + 5], head'[i + 5]);
    var q := head'[i + 5];
    if q in head'[i + 6..] {
      var k :| 0 <= k < |head'[i + 6..]| && head'[i + 6..][k] == q;
      assert SameLetter(head[i + 6 + k], head'[i + 6 + k]);
      assert head[i + 6..][k] == q;
    }
  }

  lemma TailQuotes(p: Proxy, c: Cut, x: Byte)
    requires QuoteFree(p.base) && IsQuote(x)
    requires x in [c.quote] + Rewritten(p, c.value) + [c.quote] + Rewrite(p, c.after)
    ensures x in [c.quote] + c.value + [c.quote] + c.after
  {
    if x in Rewritten(p, c.value) {
      RewrittenQuotes(p, c.value, x);
    } else if x in Rewrite(p, c.after) {
      NoNewQuotes(p, c.after, x);
    }
  }

  function Head(c: Cut): Bytes {
    c.before + c.name
  }

  function Tail(c: Cut): Bytes {
    [c.quote] + c.value + [c.quote] + c.after
  }

  lemma JoinedIsHeadTail(c: Cut)
    ensures Joined(c) == Head(c) + Tail(c)
  {
  }

  lemma SameHead(c: Cut, c': Cut)
    requires c.before == c'.before && SameLetters(c.name, c'.name)
    ensures SameLetters(Head(c), Head(c'))
  {
  }

  /** Cutting the rewritten text gives the rewritten cut. */
  lemma RewrittenIsCut(p: Proxy, html: Bytes, c: Cut)
    requires QuoteFree(p.base) && IsCut(html, c)
    ensures IsCut(Joined(RewrittenCut(p, c)), RewrittenCut(p, c))
  {
    var c' := RewrittenCut(p, c);
    if c'.quote in c'.value {
      RewrittenQuotes(p, c.value, c.quote);
    }
    forall x | IsQuote(x) && x in Tail(c') ensures x in Tail(c) {
      TailQuotes(p, c, x);
    }
    JoinedIsHeadTail(c);
    JoinedIsHeadTail(c');
    SameHead(c, c');
    assert |Head(c)| == |c.before| + 5 && c'.name[4] == EQUALS;
    hide Rewritten, Rewrite, OpensAt, Joined, Head, Tail, Ascii;
    forall i | 0 <= i < |c.before| ensures !OpensAt(Joined(c'), i) {
      if OpensAt(Joined(c'), i) {
        NoNewOpening(Head(c), Tail(c), Head(c'), Tail(c'), i);
      }
    }
  }

  lemma AttributesOfCut(s: Bytes, c: Cut)
    requires IsCut(s, c)
    ensures Attributes(s) == [Attr(c.quote, c.value)] + Attributes(c.after)
    ensures Texts(s) == [c.before] + Texts(c.after)
  {
    CutIsFound(s, c);
    hide FindFrom, IsCut;
  }

  /** Scanning the rewritten text goes on in the rewritten rest. */
  lemma RescanCut(p: Proxy, html: Bytes, c: Cut)
    requires QuoteFree(p.base) && IsCut(html, c) && Rewrite(p, html) == Joined(RewrittenCut(p, c))
    ensures Attributes(Rewrite(p, html)) == [RewrittenAttr(p, Attr(c.quote, c.value))] + Attributes(Rewrite(p, c.after))
    ensures Texts(Rewrite(p, html)) == [c.before] + Texts(Rewrite(p, c.after))
  {
    RewrittenIsCut(p, html, c);
    AttributesOfCut(Rewrite(p, html), RewrittenCut(p, c));
  }

  lemma RewrittenAttrsCons(p: Proxy, first: Attr, rest: seq<Attr>)
    ensures RewrittenAttrs(p, [first] + rest) == [RewrittenAttr(p, first)] + RewrittenAttrs(p, rest)
  {
    hide RewrittenAttr;
  }

  /** Scanning the rewritten mail finds the same attributes in the same order, and the same text around them. */
  lemma {:induction false} RescanFindsTheSame(p: Proxy, html: Bytes)
    requires QuoteFree(p.base)
    ensures Attributes(Rewrite(p, html)) == RewrittenAttrs(p, Attributes(html))
    ensures Texts(Rewrite(p, html)) == Texts(html)
    decreases |html|
  {
    if FindFrom(html, 0).Some? {
      hide Rewrite, FindFrom, IsCut, Joined, Attributes, Texts, RewrittenAttrs, RewrittenAttr, RewrittenCut;
      var c := FirstCut(p, html);
      AttributesOfCut(html, c);
      RescanCut(p, html, c);
      RescanFindsTheSame(p, c.after);
      RewrittenAttrsCons(p, Attr(c.quote, c.value), Attributes(c.after));
    } else {
      assert RewrittenAttrs(p, []) == [];
    }
  }

  /** A mail is its text and attributes, up to the letter case of `href`; rewriting replaces the values only. */
  lemma {:induction false} RewritingChangesValuesOnly(p: Proxy, html: Bytes)
    ensures SameLetters(html, Rebuild(Texts(html), Attributes(html)))
    ensures Rewrite(p, html) == Rebuild(Texts(html), RewrittenAttrs(p, Attributes(html)))
    decreases |html|
  {
    var found := FindFrom(html, 0);
    if found.Some? {
      var c := FirstCut(p, html);
      AttributesOfCut(html, c);
      assert SameLetters(c.name, Ascii("href=")) && html == Joined(c);
      hide Rewrite, FindFrom, Rewritten, IsCut, Attributes, Texts, Joined, Rebuild;
      RewritingChangesValuesOnly(p, c.after);
      var first, rest := Attr(c.quote, c.value), Attributes(c.after);
      var texts := Texts(c.after);
      RebuildCons(c.before, texts, first, rest);
      JoinedSameLetters(c, Cut(c.before, Ascii("href="), c.quote, c.value, Rebuild(texts, rest)));
      RewrittenAttrsCons(p, first, rest);
      RebuildCons(c.before, texts, RewrittenAttr(p, first), RewrittenAttrs(p, rest));
    } else {
      assert RewrittenAttrs(p, []) == [];
    }
  }

  lemma RebuildCons(text: Bytes, texts: seq<Bytes>, first: Attr, rest: seq<Attr>)
    requires |texts| == |rest| + 1
    ensures Rebuild([text] + texts, [first] + rest) ==
            Joined(Cut(text, Ascii("href="), first.quote, first.value, Rebuild(texts, rest)))
  {
    assert ([text] + texts)[1..] == texts && ([first] + rest)[1..] == rest;
    hide Ascii;
    var link, tail := Ascii("href=") + [first.quote] + first.value + [first.quote], Rebuild(texts, rest);
    assert text + link + tail == Joined(Cut(text, Ascii("href="), first.quote, first.value, tail));
  }

  lemma JoinedSameLetters(c: Cut, d: Cut)
    requires c.before == d.before && SameLetters(c.name, d.name)
    requires c.quote == d.quote && c.value == d.value && SameLetters(c.after, d.after)
    ensures SameLetters(Joined(c), Joined(d))
  {
    var middle := [c.quote] + c.value + [c.quote];
    SplitSameLetters(c.before, c.name, d.name, middle, c.after, d.after);
    assert Joined(c) == c.before + c.name + middle + c.after && Joined(d) == d.before + d.name + middle + d.after;
  }

  lemma SplitSameLetters(a: Bytes, b: Bytes, b': Bytes, c: Bytes, d: Bytes, d': Bytes)
    requires SameLetters(b, b') && SameLetters(d, d')
    ensures SameLetters(a + b + c + d, a + b' + c + d')
  {
  }
}
