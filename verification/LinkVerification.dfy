/** Rewritten links lead back to where they pointed, and a verified link is one that was signed. */
module LinkVerification {
  import opened Bytes
  import opened Base64Url
  import opened Numerals
  import opened Wrappers
  import opened LinkProxy
  import opened LinkTheorems

  // ----- Following a link -----

  /** The pieces between separators. */
  function Split(s: Bytes, c: Byte): (pieces: seq<Bytes>)
    ensures pieces != []
    decreases |s|
  {
    var n := IndexOf(s, c);
    if n < |s| then [s[..n]] + Split(s[n + 1..], c) else [s]
  }

  /** The value of the first `key=value` pair with the given key. */
  function Param(pairs: seq<Bytes>, key: Bytes): Option<Bytes> {
    if pairs == [] then None
    else if HasPrefix(pairs[0], key + [EQUALS]) then Some(pairs[0][|key| + 1..])
    else Param(pairs[1..], key)
  }

  function ParseExp(b: Bytes): Option<int> {
    if exists i :: 0 <= i < |b| && b[i] >= 128 then None
    else
      var n := ParseSigned(Text(b));
      if n.Some? && IsI64(n.value) then n else None
  }

  /** What the redirect route makes of a rewritten link: strip its address, read the parameters, verify. */
  function Follow(p: Proxy, now: int, link: Bytes): Option<Result<Bytes, VerifyError>> {
    if !HasPrefix(link, p.base + LinkPath()) then None
    else
      var pairs := Split(link[|p.base + LinkPath()|..], AMPERSAND);
      var u, exp, s := Param(pairs, Ascii("u")), Param(pairs, Ascii("exp")), Param(pairs, Ascii("s"));
      if u.None? || exp.None? || s.None? || ParseExp(exp.value).None? then None
      else Some(Verified(p.secret, p.mac, now, u.value, ParseExp(exp.value).value, s.value, p.user))
  }

  lemma SplitFirst(a: Bytes, c: Byte, b: Bytes)
    requires c !in a
    ensures Split(a + [c] + b, c) == [a] + Split(b, c)
  {
    var s := a + [c] + b;
    assert s[..|a|] == a;
    IndexOfAt(s, c, |a|);
    assert s[|a| + 1..] == b;
  }

  lemma SplitNone(a: Bytes, c: Byte)
    requires c !in a
    ensures Split(a, c) == [a]
  {
  }

  lemma SplitThree(a: Bytes, b: Bytes, d: Bytes, c: Byte)
    requires c !in a && c !in b && c !in d
    ensures Split(a + [c] + (b + [c] + d), c) == [a, b, d]
  {
    hide Split;
    SplitFirst(a, c, b + [c] + d);
    SplitFirst(b, c, d);
    SplitNone(d, c);
  }

  lemma ParseExpPrinted(n: int)
    requires IsI64(n)
    ensures ParseExp(PrintedInt(n)) == Some(n)
  {
    PrintedIsPlain(n);
    ParsePrintedInt(n);
    IntIsAscii(n);
    var b := PrintedInt(n);
    forall i | 0 <= i < |b| ensures b[i] < 128 {
      assert b[i] in b;
    }
    assert Text(b) == PrintInt(n);
  }

  /** The query string with given parameters. */
  function Query(u: Bytes, exp: Bytes, s: Bytes): Bytes {
    Ascii("u=") + u + Ascii("&exp=") + exp + Ascii("&s=") + s
  }

  lemma Regrouped(k1: Bytes, u: Bytes, k2: Bytes, exp: Bytes, k3: Bytes, s: Bytes, c: Byte)
    ensures k1 + u + ([c] + k2) + exp + ([c] + k3) + s == (k1 + u) + [c] + ((k2 + exp) + [c] + (k3 + s))
  {
  }

  lemma SignedPairs(u: Bytes, exp: Bytes, s: Bytes)
    requires AMPERSAND !in u && AMPERSAND !in exp && AMPERSAND !in s
    ensures Split(Query(u, exp, s), AMPERSAND) == [Ascii("u=") + u, Ascii("exp=") + exp, Ascii("s=") + s]
  {
    assert Ascii("&exp=") == [AMPERSAND] + Ascii("exp=");
    assert Ascii("&s=") == [AMPERSAND] + Ascii("s=");
    assert AMPERSAND !in Ascii("u=") && AMPERSAND !in Ascii("exp=") && AMPERSAND !in Ascii("s=");
    hide Ascii, Split;
    Regrouped(Ascii("u="), u, Ascii("exp="), exp, Ascii("s="), s, AMPERSAND);
    SplitThree(Ascii("u=") + u, Ascii("exp=") + exp, Ascii("s=") + s, AMPERSAND);
  }

  lemma KeyPrefixes()
    ensures Ascii("u") + [EQUALS] == Ascii("u=") && Ascii("exp") + [EQUALS] == Ascii("exp=")
    ensures Ascii("s") + [EQUALS] == Ascii("s=")
    ensures Ascii("u=")[0] == 117 && Ascii("exp=")[0] == 101 && Ascii("s=")[0] == 115
    ensures |Ascii("u")| == 1 && |Ascii("exp")| == 3 && |Ascii("s")| == 1
  {
  }

  lemma PrefixStrip(a: Bytes, b: Bytes)
    ensures HasPrefix(a + b, a) && (a + b)[|a|..] == b
  {
  }

  lemma SignedParams(u: Bytes, exp: Bytes, s: Bytes)
    ensures var pairs := [Ascii("u=") + u, Ascii("exp=") + exp, Ascii("s=") + s];
            && Param(pairs, Ascii("u")) == Some(u)
            && Param(pairs, Ascii("exp")) == Some(exp)
            && Param(pairs, Ascii("s")) == Some(s)
  {
    KeyPrefixes();
    hide Ascii;
    var a, b, d := Ascii("u=") + u, Ascii("exp=") + exp, Ascii("s=") + s;
    PrefixStrip(Ascii("u="), u);
    PrefixStrip(Ascii("exp="), exp);
    PrefixStrip(Ascii("s="), s);
    assert a[0] == 117 && b[0] == 101;
    NotPrefix(a, Ascii("exp="));
    NotPrefix(a, Ascii("s="));
    NotPrefix(b, Ascii("s="));
    assert [a, b, d][1..] == [b, d] && [b, d][1..] == [d];
    assert Param([d], Ascii("s")) == Some(s);
    assert Param([b, d], Ascii("s")) == Some(s) && Param([b, d], Ascii("exp")) == Some(exp);
  }

  lemma NotPrefix(s: Bytes, p: Bytes)
    requires s != [] && p != [] && s[0] != p[0]
    ensures !HasPrefix(s, p)
  {
    assert |p| <= |s| ==> s[..|p|][0] == s[0];
  }

  predicate LowerLetters(s: Bytes) {
    s != [] && forall i :: 0 <= i < |s| ==> 97 <= s[i] <= 122
  }

  lemma SchemeDecides(scheme: Bytes, rest: Bytes)
    requires LowerLetters(scheme)
    ensures ShouldProxy(scheme + [COLON] + rest) <==> scheme == Ascii("http") || scheme == Ascii("https")
  {
    hide Ascii;
    var url := scheme + [COLON] + rest;
    assert url[0] == scheme[0] && TrimStart(url) == url;
    assert url[..|scheme|] == scheme;
    assert COLON !in scheme;
    IndexOfAt(url, COLON, |scheme|);
    assert LowerBytes(scheme) == scheme;
  }

  /** A url with a lower-case web scheme is proxied. */
  lemma HttpIsProxied(url: Bytes)
    requires IsHttp(url)
    ensures ShouldProxy(url)
  {
    assert Ascii("http://")[..5] == Ascii("http") + [COLON];
    assert Ascii("https://")[..6] == Ascii("https") + [COLON];
    assert LowerLetters(Ascii("http")) && LowerLetters(Ascii("https"));
    hide Ascii, ShouldProxy, LowerLetters;
    if HasPrefix(url, Ascii("http://")) {
      HeadOf(url, Ascii("http://"), 5);
      SchemeDecides(Ascii("http"), url[5..]);
    } else {
      HeadOf(url, Ascii("https://"), 6);
      SchemeDecides(Ascii("https"), url[6..]);
    }
  }

  lemma HeadOf(s: Bytes, p: Bytes, n: nat)
    requires HasPrefix(s, p) && n <= |p|
    ensures s == p[..n] + s[n..]
  {
    assert s[..n] == s[..|p|][..n];
  }

  lemma FollowQuery(p: Proxy, now: int, u: Bytes, exp: int, s: Bytes)
    requires IsI64(exp) && AMPERSAND !in u && AMPERSAND !in s
    ensures Follow(p, now, p.base + LinkPath() + Query(u, PrintedInt(exp), s)) ==
            Some(Verified(p.secret, p.mac, now, u, exp, s, p.user))
  {
    PrintedIsPlain(exp);
    ParseExpPrinted(exp);
    SignedPairs(u, PrintedInt(exp), s);
    SignedParams(u, PrintedInt(exp), s);
    hide Ascii, Split, Param, PrintedInt, Verified, LinkPath, ParseExp, Query;
    PrefixStrip(p.base + LinkPath(), Query(u, PrintedInt(exp), s));
  }

  /** Following a link signed for one user as another, or the same, user. */
  lemma FollowSigned(p: Proxy, url: Bytes, user: Bytes, now: int)
    requires IsI64(p.exp)
    ensures var tag := p.mac(p.secret, MacInput(url, p.user, p.exp));
            Follow(p.(user := user), now, p.base + LinkPath() + SignUrl(p.secret, p.mac, url, p.user, p.exp)) ==
            Some(Verified(p.secret, p.mac, now, Encode(url), p.exp, EncodeHex(tag), user))
  {
    var tag := p.mac(p.secret, MacInput(url, p.user, p.exp));
    EncodedIsPlain(url);
    DecodeEncodeHex(tag);
    SignUrlIsQuery(p.secret, p.mac, url, p.user, p.exp);
    hide Follow, SignUrl, Query, Verified, Encode, EncodeHex, MacInput;
    FollowQuery(p.(user := user), now, Encode(url), p.exp, EncodeHex(tag));
  }

  /** Until it expires, a rewritten web link leads its user back to the url it replaced. */
  lemma LinkRoundTrip(p: Proxy, raw: Bytes, now: int)
    requires IsI64(p.exp) && now <= p.exp && IsHttp(raw) && ValidUtf8(raw)
    ensures Follow(p, now, Rewritten(p, raw)) == Some(Ok(raw))
  {
    HttpIsProxied(raw);
    FollowSigned(p, raw, p.user, now);
    DecodeEncode(raw);
    DecodeEncodeHex(p.mac(p.secret, MacInput(raw, p.user, p.exp)));
  }

  /** What a proxied link leads to: its url if it is unexpired and starts with its scheme in lower case. */
  lemma LinkComesBackIff(p: Proxy, raw: Bytes, now: int)
    requires IsI64(p.exp) && ShouldProxy(raw) && ValidUtf8(raw)
    ensures Follow(p, now, Rewritten(p, raw)) ==
            Some(if p.exp < now then Err(Expired) else if IsHttp(raw) then Ok(raw) else Err(NotHttp))
  {
    FollowSigned(p, raw, p.user, now);
    DecodeEncode(raw);
    DecodeEncodeHex(p.mac(p.secret, MacInput(raw, p.user, p.exp)));
    hide Follow, ShouldProxy, SignUrl, LinkPath, IsHttp, Encode, EncodeHex, MacInput, ValidUtf8;
  }

  /** Links with the scheme in capitals are proxied, and refused as no web links when they come back. */
  lemma CapitalSchemeIsLost(p: Proxy, rest: Bytes, now: int)
    requires IsI64(p.exp) && ValidUtf8(rest)
    ensures var raw := [72, 84, 84, 80, COLON] + rest;
            && ShouldProxy(raw)
            && Follow(p, now, Rewritten(p, raw)) == Some(Err(if now <= p.exp then NotHttp else Expired))
  {
    var raw := [72, 84, 84, 80, COLON] + rest;
    hide Follow, Rewritten, ValidUtf8, IsHttp, ShouldProxy;
    CapitalIsProxied(rest);
    CapitalIsUtf8(rest);
    HeadIsNotHttp(raw);
    LinkComesBackIff(p, raw, now);
  }

  /** So are links with a space before them. */
  lemma SpacedLinkIsLost(p: Proxy, link: Bytes, now: int)
    requires IsI64(p.exp) && ValidUtf8(link) && ShouldProxy(link)
    ensures var raw := [32] + link;
            && ShouldProxy(raw)
            && Follow(p, now, Rewritten(p, raw)) == Some(Err(if now <= p.exp then NotHttp else Expired))
  {
    var raw := [32] + link;
    hide Follow, Rewritten, ValidUtf8, IsHttp;
    SpaceIsTrimmed(link);
    SpaceIsUtf8(link);
    HeadIsNotHttp(raw);
    hide ShouldProxy;
    LinkComesBackIff(p, raw, now);
  }

  lemma SpaceIsTrimmed(link: Bytes)
    ensures TrimStart([32] + link) == TrimStart(link)
  {
    assert ([32] + link)[1..] == link;
  }

  lemma SpaceIsUtf8(link: Bytes)
    requires ValidUtf8(link)
    ensures ValidUtf8([32] + link)
  {
    AsciiIsUtf8([32]);
    hide ValidUtf8;
    ValidConcat([32], link);
  }

  lemma PrefixHead(s: Bytes, p: Bytes)
    requires p != []
    ensures HasPrefix(s, p) ==> s != [] && s[0] == p[0]
  {
    if HasPrefix(s, p) {
      assert s[..|p|][0] == s[0];
    }
  }

  lemma HeadIsNotHttp(raw: Bytes)
    requires raw != [] && raw[0] != 104
    ensures !IsHttp(raw)
  {
    PrefixHead(raw, Ascii("http://"));
    PrefixHead(raw, Ascii("https://"));
  }

  lemma CapitalsAreWeb()
    ensures IsWebScheme(LowerBytes([72, 84, 84, 80]))
  {
    var lowered := LowerBytes([72, 84, 84, 80]);
    assert lowered == [104, 116, 116, 112];
    assert Ascii("http") == [104, 116, 116, 112];
  }

  lemma CapitalIsProxied(rest: Bytes)
    ensures ShouldProxy([72, 84, 84, 80, COLON] + rest)
  {
    hide IndexOf, TrimStart, LowerBytes, IsWebScheme;
    var raw := [72, 84, 84, 80, COLON] + rest;
    NothingAhead(raw);
    CapitalsAreWeb();
    assert raw[..4] == [72, 84, 84, 80] && raw[4] == COLON;
    IndexOfAt(raw, COLON, 4);
  }

  lemma {:induction false} AsciiIsUtf8(s: Bytes)
    requires forall i :: 0 <= i < |s| ==> s[i] < 128
    ensures ValidUtf8(s)
  {
    if s != [] {
      assert CharLength(s) == 1;
      AsciiIsUtf8(s[1..]);
    }
  }

  lemma CapitalIsUtf8(rest: Bytes)
    requires ValidUtf8(rest)
    ensures ValidUtf8([72, 84, 84, 80, COLON] + rest)
  {
    AsciiIsUtf8([72, 84, 84, 80, COLON]);
    hide ValidUtf8;
    ValidConcat([72, 84, 84, 80, COLON], rest);
  }

  // ----- Whole mails -----

  lemma CutIsUtf8(c: Cut)
    requires ValidUtf8(Joined(c)) && c.quote < 0x80
    ensures ValidUtf8(c.value) && ValidUtf8(c.after)
  {
    var head, tail := c.before + c.name, c.value + [c.quote] + c.after;
    assert Joined(c) == head + [c.quote] + tail;
    hide ValidUtf8, Joined;
    ValidAroundAscii(head, c.quote, tail);
    ValidAroundAscii(c.value, c.quote, c.after);
  }

  lemma {:induction false} ValuesAreUtf8(html: Bytes, k: nat)
    requires ValidUtf8(html) && k < |Attributes(html)|
    ensures ValidUtf8(Attributes(html)[k].value)
    decreases |html|
  {
    var pos := FindFrom(html, 0).value;
    FoundIsCut(html, pos);
    var c := CutAt(html, pos);
    AttributesOfCut(html, c);
    CutIsUtf8(c);
    hide FindFrom, Attributes, ValidUtf8, IsCut;
    if k > 0 {
      ValuesAreUtf8(c.after, k - 1);
    }
  }

  /** Dropping ASCII bytes from the end keeps text well formed. */
  lemma {:induction false} AsciiBack(a: Bytes, tail: Bytes)
    requires ValidUtf8(a + tail) && forall i :: 0 <= i < |tail| ==> tail[i] < 128
    ensures ValidUtf8(a)
  {
    if tail == [] {
      assert a + tail == a;
    } else {
      var n := |tail| - 1;
      assert a + tail == a + tail[..n] + [tail[n]] + [];
      hide ValidUtf8;
      ValidAroundAscii(a + tail[..n], tail[n], []);
      AsciiBack(a, tail[..n]);
    }
  }

  lemma NameIsAscii(name: Bytes)
    requires SameLetters(name, Ascii("href="))
    ensures forall i :: 0 <= i < |name| ==> name[i] < 128
  {
    forall i | 0 <= i < |name| ensures name[i] < 128 {
      assert SameLetter(name[i], Ascii("href=")[i]);
    }
  }

  lemma BeforeIsUtf8(c: Cut)
    requires ValidUtf8(Joined(c)) && c.quote < 0x80 && SameLetters(c.name, Ascii("href="))
    ensures ValidUtf8(c.before)
  {
    var tail := c.value + [c.quote] + c.after;
    assert Joined(c) == (c.before + c.name) + [c.quote] + tail;
    NameIsAscii(c.name);
    hide ValidUtf8, Joined, SameLetters;
    ValidAroundAscii(c.before + c.name, c.quote, tail);
    AsciiBack(c.before, c.name);
  }

  lemma LiteralIsUtf8(s: string)
    requires IsAscii(s)
    ensures ValidUtf8(Ascii(s))
  {
    hide ValidUtf8;
    AsciiIsUtf8(Ascii(s));
  }

  lemma EncodedIsUtf8(b: Bytes)
    ensures ValidUtf8(Encode(b))
  {
    hide ValidUtf8, Encode;
    forall i | 0 <= i < |Encode(b)| ensures Encode(b)[i] < 128 {
      assert Value(Encode(b)[i]).Some?;
    }
    AsciiIsUtf8(Encode(b));
  }

  lemma NumbersAreUtf8(n: int, tag: Bytes)
    ensures ValidUtf8(PrintedInt(n)) && ValidUtf8(EncodeHex(tag))
  {
    PrintedIsPlain(n);
    EncodedIsLowerHex(tag);
    hide ValidUtf8, PrintedInt, EncodeHex;
    forall i | 0 <= i < |PrintedInt(n)| ensures PrintedInt(n)[i] < 128 {
      assert PrintedInt(n)[i] in PrintedInt(n);
    }
    forall i | 0 <= i < |EncodeHex(tag)| ensures EncodeHex(tag)[i] < 128 {
      assert EncodeHex(tag)[i] in EncodeHex(tag);
    }
    AsciiIsUtf8(PrintedInt(n));
    AsciiIsUtf8(EncodeHex(tag));
  }

  lemma SeparatorsAreUtf8()
    ensures ValidUtf8(Ascii("u=")) && ValidUtf8(Ascii("&exp=")) && ValidUtf8(Ascii("&s="))
  {
    hide ValidUtf8;
    LiteralIsUtf8("u=");
    LiteralIsUtf8("&exp=");
    LiteralIsUtf8("&s=");
  }

  lemma QueryIsUtf8(u: Bytes, exp: Bytes, s: Bytes)
    requires ValidUtf8(u) && ValidUtf8(exp) && ValidUtf8(s)
    ensures ValidUtf8(Query(u, exp, s))
  {
    hide ValidUtf8, Ascii;
    SeparatorsAreUtf8();
    var a, b, c := Ascii("u="), Ascii("&exp="), Ascii("&s=");
    ValidConcat(a, u);
    ValidConcat(a + u, b);
    ValidConcat(a + u + b, exp);
    ValidConcat(a + u + b + exp, c);
    ValidConcat(a + u + b + exp + c, s);
  }

  lemma SignedIsUtf8(p: Proxy, url: Bytes)
    ensures ValidUtf8(SignUrl(p.secret, p.mac, url, p.user, p.exp))
  {
    hide ValidUtf8, Query, SignUrl, Encode, EncodeHex, PrintedInt, MacInput;
    var tag := p.mac(p.secret, MacInput(url, p.user, p.exp));
    EncodedIsUtf8(url);
    NumbersAreUtf8(p.exp, tag);
    SignUrlIsQuery(p.secret, p.mac, url, p.user, p.exp);
    QueryIsUtf8(Encode(url), PrintedInt(p.exp), EncodeHex(tag));
  }

  lemma LinkPathIsUtf8()
    ensures ValidUtf8(LinkPath())
  {
    hide ValidUtf8;
    LiteralIsUtf8("/api/v1/link?");
  }

  lemma RewrittenIsUtf8(p: Proxy, raw: Bytes)
    requires ValidUtf8(p.base) && ValidUtf8(raw)
    ensures ValidUtf8(Rewritten(p, raw))
  {
    hide ValidUtf8, LinkPath, SignUrl, ShouldProxy;
    SignedIsUtf8(p, raw);
    LinkPathIsUtf8();
    ValidConcat(p.base, LinkPath());
    ValidConcat(p.base + LinkPath(), SignUrl(p.secret, p.mac, raw, p.user, p.exp));
  }

  lemma JoinedParts(c: Cut)
    ensures Joined(c) == (c.before + c.name) + [c.quote] + (c.value + [c.quote] + c.after)
  {
  }

  lemma JoinedIsUtf8(c: Cut)
    requires ValidUtf8(c.before) && ValidUtf8(c.value) && ValidUtf8(c.after) && c.quote < 0x80
    requires c.name == Ascii("href=")
    ensures ValidUtf8(Joined(c))
  {
    hide ValidUtf8, Ascii, Joined;
    LiteralIsUtf8("href=");
    ValidConcat(c.before, c.name);
    ValidAroundAscii(c.value, c.quote, c.after);
    ValidAroundAscii(c.before + c.name, c.quote, c.value + [c.quote] + c.after);
    JoinedParts(c);
  }

  /** Every slice is cut at a character boundary: a well-formed mail stays well formed. */
  lemma {:induction false} RewritingKeepsUtf8(p: Proxy, html: Bytes)
    requires ValidUtf8(html) && ValidUtf8(p.base)
    ensures ValidUtf8(Rewrite(p, html))
    decreases |html|
  {
    if FindFrom(html, 0).Some? {
      hide ValidUtf8, FindFrom, Joined, Rewrite, Rewritten, SameLetters, NoneOpensBefore;
      var c := FirstCut(p, html);
      CutIsUtf8(c);
      BeforeIsUtf8(c);
      RewrittenIsUtf8(p, c.value);
      RewritingKeepsUtf8(p, c.after);
      JoinedIsUtf8(RewrittenCut(p, c));
    } else {
      hide ValidUtf8;
    }
  }

  /** In a rewritten mail, following the k-th link gives the k-th url of the original mail. */
  lemma RewrittenLinksVerify(p: Proxy, html: Bytes, now: int, k: nat)
    requires QuoteFree(p.base) && IsI64(p.exp) && now <= p.exp && ValidUtf8(html)
    requires k < |Attributes(html)| && IsHttp(Attributes(html)[k].value)
    ensures k < |Attributes(Rewrite(p, html))|
    ensures Follow(p, now, Attributes(Rewrite(p, html))[k].value) == Some(Ok(Attributes(html)[k].value))
  {
    RescanFindsTheSame(p, html);
    ValuesAreUtf8(html, k);
    LinkRoundTrip(p, Attributes(html)[k].value, now);
  }

  /**
    Links of a mail rewritten at `now` last for 30 days: followed by the same user at `t`, the k-th link leads to
    the k-th url of the original mail, and after that it is refused as expired.
   */
  lemma LinksLastThirtyDays(
    secret: Bytes, mac: Mac, user: Bytes, base: Bytes, now: nat, html: Bytes, t: int, k: nat)
    requires QuoteFree(base) && ValidUtf8(html) && now + 2592000 < 0x8000_0000_0000_0000
    requires k < |Attributes(html)|
    requires var url := Attributes(html)[k].value;
             HasPrefix(url, Ascii("http://")) || HasPrefix(url, Ascii("https://"))
    ensures var p := Proxy(secret, mac, user, base, now + EXPIRY_SECS);
            && k < |Attributes(Rewrite(p, html))|
            && Follow(p, t, Attributes(Rewrite(p, html))[k].value) ==
               Some(if t <= now + 2592000 then Ok(Attributes(html)[k].value) else Err(Expired))
  {
    var p := Proxy(secret, mac, user, base, now + EXPIRY_SECS);
    var url := Attributes(html)[k].value;
    RescanFindsTheSame(p, html);
    ValuesAreUtf8(html, k);
    HttpIsProxied(url);
    hide Follow, Rewritten, Rewrite, Attributes, ShouldProxy, HasPrefix, ValidUtf8, Ascii;
    LinkComesBackIff(p, url, t);
  }

  lemma PathOfLinks()
    ensures LinkPath() == Ascii("/api/v1/link?")
  {
  }

  lemma ProxiedIsSigned(p: Proxy, raw: Bytes)
    requires ShouldProxy(raw)
    ensures Rewritten(p, raw) == p.base + LinkPath() + SignUrl(p.secret, p.mac, raw, p.user, p.exp)
  {
    hide ShouldProxy, SignUrl, LinkPath;
  }

  /** A link that is proxied, in full, as its address and its query. */
  lemma ProxiedLinkSpelledOut(p: Proxy, raw: Bytes)
    requires ShouldProxy(raw)
    ensures var tag := p.mac(p.secret, MacInput(raw, p.user, p.exp));
            Rewritten(p, raw) == p.base + LinkPath() + Query(Encode(raw), PrintedInt(p.exp), EncodeHex(tag))
  {
    hide *;
    ProxiedIsSigned(p, raw);
    SignUrlIsQuery(p.secret, p.mac, raw, p.user, p.exp);
  }

  /** Bytes as a number, the highest byte first. */
  function NumberOf(b: Bytes): nat {
    if b == [] then 0 else NumberOf(b[..|b| - 1]) * 256 + b[|b| - 1]
  }

  lemma {:induction false} BytesAddUp(n: nat, width: nat)
    requires n < Power256(width)
    ensures NumberOf(BigEndian(n, width)) == n
  {
    if width > 0 {
      BytesAddUp(n / 256, width - 1);
      assert BigEndian(n, width)[..width - 1] == BigEndian(n / 256, width - 1);
    }
  }

  /** The tag covers the url, the user and the expiry as eight bytes, the highest first, a newline after each text. */
  lemma SignedBytes(url: Bytes, user: Bytes, exp: nat) returns (b: Bytes)
    requires IsI64(exp)
    ensures |b| == 8 && NumberOf(b) == exp && MacInput(url, user, exp) == url + [10] + user + [10] + b
  {
    b := BigEndian(exp, 8);
    assert Power256(8) == 0x1_0000_0000_0000_0000;
    BytesAddUp(exp, 8);
    hide BigEndian, NumberOf;
  }

  // ----- What verification rules out -----

  /** Equal bytes mean equal numbers modulo the range of the bytes. */
  lemma {:induction false} BigEndianDifference(m: int, n: int, width: nat) returns (d: int)
    requires BigEndian(m, width) == BigEndian(n, width)
    ensures m - n == d * Power256(width)
    decreases width
  {
    if width == 0 {
      d := m - n;
    } else {
      var a, b := BigEndian(m / 256, width - 1), BigEndian(n / 256, width - 1);
      assert (a + [m % 256])[width - 1] == (b + [n % 256])[width - 1];
      assert a == (a + [m % 256])[..width - 1] && b == (b + [n % 256])[..width - 1];
      d := BigEndianDifference(m / 256, n / 256, width - 1);
      assert m - n == 256 * (m / 256 - n / 256);
      assert 256 * (d * Power256(width - 1)) == d * (256 * Power256(width - 1));
    }
  }

  lemma BigEndianIsInjective(m: int, n: int)
    requires IsI64(m) && IsI64(n) && BigEndian(m, 8) == BigEndian(n, 8)
    ensures m == n
  {
    hide BigEndian;
    var d := BigEndianDifference(m, n, 8);
    assert Power256(8) == 0x1_0000_0000_0000_0000;
  }

  function Power256(width: nat): int {
    if width == 0 then 1 else 256 * Power256(width - 1)
  }

  /** The signed bytes determine url, user and expiry, for users without a newline. */
  lemma MacInputIsInjective(url: Bytes, user: Bytes, exp: int, url': Bytes, user': Bytes, exp': int)
    requires NEWLINE !in user && NEWLINE !in user' && IsI64(exp) && IsI64(exp')
    requires MacInput(url, user, exp) == MacInput(url', user', exp')
    ensures url == url' && user == user' && exp == exp'
  {
    var b, b' := BigEndian(exp, 8), BigEndian(exp', 8);
    var a, a' := url + [NEWLINE] + user, url' + [NEWLINE] + user';
    assert MacInput(url, user, exp) == a + [NEWLINE] + b && MacInput(url', user', exp') == a' + [NEWLINE] + b';
    hide BigEndian, MacInput;
    SameSplit(a, b, a', b');
    BigEndianIsInjective(exp, exp');
    LastNewline(url, user, url', user');
  }

  lemma SameSplit(a: Bytes, b: Bytes, a': Bytes, b': Bytes)
    requires |b| == |b'| && a + [NEWLINE] + b == a' + [NEWLINE] + b'
    ensures a == a' && b == b'
  {
    assert |a| == |a'|;
    assert a == (a + [NEWLINE] + b)[..|a|] && a' == (a' + [NEWLINE] + b')[..|a'|];
    assert b == (a + [NEWLINE] + b)[|a| + 1..] && b' == (a' + [NEWLINE] + b')[|a'| + 1..];
  }

  lemma LastNewline(x: Bytes, y: Bytes, x': Bytes, y': Bytes)
    requires NEWLINE !in y && NEWLINE !in y' && x + [NEWLINE] + y == x' + [NEWLINE] + y'
    ensures x == x' && y == y'
  {
    var s := x + [NEWLINE] + y;
    assert s[|x|] == NEWLINE && s[|x'|] == NEWLINE;
    forall k | |x| < k < |s| ensures s[k] != NEWLINE {
      assert s[k] == y[k - |x| - 1];
    }
    forall k | |x'| < k < |s| ensures s[k] != NEWLINE {
      assert s[k] == y'[k - |x'| - 1];
    }
    SameSplit(x, y, x', y');
  }

  /**
    Following another user's link signs a different message. The link is accepted exactly if it would be accepted
    from its own user and the tags of the two messages agree.
   */
  lemma OtherUserNeedsCollision(p: Proxy, url: Bytes, other: Bytes, now: int)
    requires NEWLINE !in p.user && NEWLINE !in other && other != p.user && IsI64(p.exp)
    ensures MacInput(url, p.user, p.exp) != MacInput(url, other, p.exp)
    ensures Follow(p.(user := other), now,
                   p.base + LinkPath() + SignUrl(p.secret, p.mac, url, p.user, p.exp)) == Some(Ok(url)) <==>
            && now <= p.exp && IsHttp(url) && ValidUtf8(url)
            && p.mac(p.secret, MacInput(url, p.user, p.exp)) == p.mac(p.secret, MacInput(url, other, p.exp))
  {
    if MacInput(url, p.user, p.exp) == MacInput(url, other, p.exp) {
      MacInputIsInjective(url, p.user, p.exp, url, other, p.exp);
    }
    FollowSigned(p, url, other, now);
    DecodeEncode(url);
    DecodeEncodeHex(p.mac(p.secret, MacInput(url, p.user, p.exp)));
    hide Follow, SignUrl, LinkPath, IsHttp, Encode, EncodeHex, MacInput, ValidUtf8;
  }

  /**
    Whatever verifies carries the one encoding of its url and a spelling of the tag for that url, user and expiry.
    It is what signing produces exactly if the tag is spelled in lower-case hexadecimal.
   */
  lemma VerifiedWasSigned(secret: Bytes, mac: Mac, now: int, u: Bytes, exp: int, s: Bytes, user: Bytes, url: Bytes)
    requires Verified(secret, mac, now, u, exp, s, user) == Ok(url)
    ensures now <= exp && IsHttp(url) && ValidUtf8(url)
    ensures u == Encode(url) && DecodeHex(s) == Hex(mac(secret, MacInput(url, user, exp)))
    ensures Query(u, PrintedInt(exp), s) == SignUrl(secret, mac, url, user, exp) <==>
            forall c :: c in s ==> IsLowerHex(c)
  {
    var tag := mac(secret, MacInput(url, user, exp));
    EncodeDecode(u);
    PrintedIffLowerHex(s);
    SignUrlIsQuery(secret, mac, url, user, exp);
    hide Encode, Decode, EncodeHex, DecodeHex, PrintedInt, Query, SignUrl, MacInput, IsHttp, ValidUtf8;
    SameQuery(u, PrintedInt(exp), s, EncodeHex(tag));
  }

  lemma SignUrlIsQuery(secret: Bytes, mac: Mac, url: Bytes, user: Bytes, exp: int)
    ensures SignUrl(secret, mac, url, user, exp) ==
            Query(Encode(url), PrintedInt(exp), EncodeHex(mac(secret, MacInput(url, user, exp))))
  {
  }

  lemma SameQuery(u: Bytes, exp: Bytes, s: Bytes, s': Bytes)
    ensures Query(u, exp, s) == Query(u, exp, s') <==> s == s'
  {
    hide Ascii;
    var front := Ascii("u=") + u + Ascii("&exp=") + exp + Ascii("&s=");
    if front + s == front + s' {
      assert (front + s)[|front|..] == s && (front + s')[|front|..] == s';
    }
  }

  // ----- Where verification panics -----

  /** Verification panics exactly if it gets as far as reading the tag and a slice of the tag cuts a character. */
  lemma VerificationPanicsIff(secret: Bytes, mac: Mac, now: int, u: Bytes, exp: int, s: Bytes, user: Bytes)
    ensures Verified(secret, mac, now, u, exp, s, user) == Err(Panics) <==>
            && now <= exp && Decode(u).Some? && ValidUtf8(Decode(u).value)
            && |s| % 2 == 0 && exists k: nat :: PanicsAt(s, k)
  {
    if |s| % 2 == 0 {
      PanicsIff(s);
    }
    hide Decode, ValidUtf8, DecodePairs, PanicsAt, IsHttp, MacInput;
  }

  /** With an ASCII tag verification always answers. */
  lemma AsciiTagNeverPanics(secret: Bytes, mac: Mac, now: int, u: Bytes, exp: int, s: Bytes, user: Bytes)
    requires forall i :: 0 <= i < |s| ==> s[i] < 128
    ensures Verified(secret, mac, now, u, exp, s, user) != Err(Panics)
  {
    AsciiNeverPanics(s);
    hide Decode, ValidUtf8, DecodeHex, IsHttp, MacInput;
  }

  /** The well-formed tag text `aéa` makes verification panic, whatever the secret and the user. */
  lemma AccentedTagPanics(secret: Bytes, mac: Mac, now: int, user: Bytes)
    ensures ValidUtf8([97, 0xC3, 0xA9, 97])
    ensures Verified(secret, mac, now, [], now, [97, 0xC3, 0xA9, 97], user) == Err(Panics)
  {
    var s := [97, 0xC3, 0xA9, 97];
    assert s[1..] == [0xC3, 0xA9, 97] && s[1..][2..] == [97];
    assert ValidUtf8([97]);
    assert CharLength(s[1..]) == 2;
    assert PanicsAt(s, 0);
    VerificationPanicsIff(secret, mac, now, [], now, s, user);
  }
}
