/** Rewriting the links of a mail through a signed redirect, and checking what comes back. */
module LinkProxy {
  import opened Bytes
  import opened Base64Url
  import opened Numerals
  import opened Wrappers

  const EXPIRY_SECS := 30 * 24 * 3600
  const QUOTE: Byte := 34
  const APOSTROPHE: Byte := 39
  const HASH: Byte := 35
  const COLON: Byte := 58
  const NEWLINE: Byte := 10
  const AMPERSAND: Byte := 38
  const EQUALS: Byte := 61

  /** The first 16 bytes of a keyed hash, left abstract. */
  type Tag = t: Bytes | |t| == 16 witness seq(16, i => 0)
  type Mac = (Bytes, Bytes) -> Tag

  // ----- Finding links -----

  datatype HrefPos = HrefPos(start: nat, quote: Byte, hrefStart: nat, hrefEnd: nat)

  /** `href=` in any letter case at position `i`. */
  predicate IsHrefAt(s: Bytes, i: nat)
    requires i + 5 < |s|
  {
    && SameLetter(s[i], 104) && SameLetter(s[i + 1], 114) && SameLetter(s[i + 2], 101)
    && SameLetter(s[i + 3], 102) && s[i + 4] == EQUALS
  }

  predicate IsQuote(b: Byte) {
    b == QUOTE || b == APOSTROPHE
  }

  /** A quoted attribute opens at `i` and is closed later. */
  predicate OpensAt(s: Bytes, i: nat)
    requires i + 5 < |s|
  {
    IsHrefAt(s, i) && IsQuote(s[i + 5]) && s[i + 5] in s[i + 6..]
  }

  function PosAt(s: Bytes, i: nat): (p: HrefPos)
    requires i + 5 < |s| && OpensAt(s, i)
    ensures p.start + 6 == p.hrefStart <= p.hrefEnd < |s|
  {
    HrefPos(i, s[i + 5], i + 6, i + 6 + IndexOf(s[i + 6..], s[i + 5]))
  }

  function FindFrom(s: Bytes, i: nat): Option<HrefPos>
    decreases |s| - i
  {
    if i + 5 >= |s| then None
    else if OpensAt(s, i) then Some(PosAt(s, i))
    else FindFrom(s, i + 1)
  }

  method FindHref(s: Bytes) returns (pos: Option<HrefPos>)
    ensures pos == FindFrom(s, 0)
  {
    var i := 0;
    while i + 5 < |s|
      invariant 0 <= i && FindFrom(s, i) == FindFrom(s, 0)
    {
      if IsHrefAt(s, i) {
        var q := s[i + 5];
        if IsQuote(q) {
          var endOff := IndexOf(s[i + 6..], q);
          if endOff < |s| - (i + 6) {
            return Some(HrefPos(i, q, i + 6, i + 6 + endOff));
          }
        }
      }
      i := i + 1;
    }
    return None;
  }

  // ----- Signing -----

  /** `n` in big-endian bytes, modulo their range. */
  function BigEndian(n: int, width: nat): (b: Bytes)
    ensures |b| == width
    decreases width
  {
    if width == 0 then [] else BigEndian(n / 256, width - 1) + [n % 256]
  }

  /** What the tag covers: url, user and the expiry as eight bytes, separated by newlines. */
  function MacInput(url: Bytes, user: Bytes, exp: int): Bytes {
    url + [NEWLINE] + user + [NEWLINE] + BigEndian(exp, 8)
  }

  predicate IsI64(n: int) {
    -0x8000_0000_0000_0000 <= n < 0x8000_0000_0000_0000
  }

  lemma IntIsAscii(n: int)
    ensures IsAscii(PrintInt(n))
  {
  }

  function PrintedInt(n: int): Bytes {
    IntIsAscii(n);
    Ascii(PrintInt(n))
  }

  /** The query string of a signed link. */
  function SignUrl(secret: Bytes, mac: Mac, url: Bytes, user: Bytes, exp: int): Bytes {
    Ascii("u=") + Encode(url) + Ascii("&exp=") + PrintedInt(exp) + Ascii("&s=")
    + EncodeHex(mac(secret, MacInput(url, user, exp)))
  }

  // ----- Which links are proxied -----

  predicate IsWebScheme(scheme: Bytes) {
    scheme == Ascii("http") || scheme == Ascii("https")
  }

  predicate ShouldProxy(href: Bytes) {
    var v := TrimStart(href);
    && v != [] && v[0] != HASH && COLON in v
    && var scheme := LowerBytes(v[..IndexOf(v, COLON)]);
       IsWebScheme(scheme)
  }

  // ----- Rewriting -----

  /** Everything a rewrite depends on besides the mail. */
  datatype Proxy = Proxy(secret: Bytes, mac: Mac, user: Bytes, base: Bytes, exp: int)

  function LinkPath(): Bytes {
    Ascii("/api/v1/link?")
  }

  function Rewritten(p: Proxy, raw: Bytes): Bytes {
    if ShouldProxy(raw) then p.base + LinkPath() + SignUrl(p.secret, p.mac, raw, p.user, p.exp) else raw
  }

  function HrefText(quote: Byte, value: Bytes): Bytes {
    Ascii("href=") + [quote] + value + [quote]
  }

  function Rewrite(p: Proxy, html: Bytes): Bytes
    decreases |html|
  {
    match FindFrom(html, 0)
    case None => html
    case Some(pos) =>
      FoundInRange(html, 0);
      html[..pos.start] + HrefText(pos.quote, Rewritten(p, html[pos.hrefStart..pos.hrefEnd]))
      + Rewrite(p, html[pos.hrefEnd + 1..])
  }

  /** A found attribute is the first place where one opens. */
  lemma {:induction false} FoundInRange(s: Bytes, from: nat)
    ensures var found := FindFrom(s, from);
            if found.Some? then
              && from <= found.value.start && found.value.start + 5 < |s|
              && OpensAt(s, found.value.start) && found.value == PosAt(s, found.value.start)
              && (forall i :: from <= i < found.value.start ==> !OpensAt(s, i))
            else forall i :: from <= i && i + 5 < |s| ==> !OpensAt(s, i)
    decreases |s| - from
  {
    if from + 5 < |s| && !OpensAt(s, from) {
      FoundInRange(s, from + 1);
    }
  }

  lemma RewriteStep(p: Proxy, out: Bytes, rest: Bytes, pos: HrefPos)
    requires FindFrom(rest, 0) == Some(pos)
    requires pos.start <= |rest| && pos.hrefStart <= pos.hrefEnd < |rest|
    ensures out + Rewrite(p, rest) ==
            out + rest[..pos.start] + HrefText(pos.quote, Rewritten(p, rest[pos.hrefStart..pos.hrefEnd]))
            + Rewrite(p, rest[pos.hrefEnd + 1..])
  {
    hide HrefText, Rewritten, FindFrom;
    var text, link := rest[..pos.start], HrefText(pos.quote, Rewritten(p, rest[pos.hrefStart..pos.hrefEnd]));
    var tail := Rewrite(p, rest[pos.hrefEnd + 1..]);
    assert out + (text + link + tail) == out + text + link + tail;
  }

  lemma NothingToRewrite(p: Proxy, rest: Bytes)
    requires FindFrom(rest, 0) == None
    ensures Rewrite(p, rest) == rest
  {
  }

  /** Copies the text between links and rewrites each link in turn. `now` is the time of the call. */
  method RewriteHtmlLinks(html: Bytes, secret: Bytes, mac: Mac, user: Bytes, base: Bytes, now: nat) returns (out: Bytes)
    ensures out == Rewrite(Proxy(secret, mac, user, base, now + 2592000), html)
  {
    hide Rewrite, FindFrom, HrefText, SignUrl, ShouldProxy, OpensAt;
    var exp := now + EXPIRY_SECS;
    ghost var p := Proxy(secret, mac, user, base, exp);
    out := [];
    var rest := html;
    var pos := FindHref(rest);
    while pos.Some?
      invariant pos == FindFrom(rest, 0)
      invariant out + Rewrite(p, rest) == Rewrite(p, html)
      decreases |rest|
    {
      FoundInRange(rest, 0);
      var raw, q := rest[pos.value.hrefStart..pos.value.hrefEnd], pos.value.quote;
      var value := raw;
      if ShouldProxy(raw) {
        var signed := SignUrl(secret, mac, raw, user, exp);
        value := base + LinkPath() + signed;
      }
      RewriteStep(p, out, rest, pos.value);
      out := out + rest[..pos.value.start];
      out := out + HrefText(q, value);
      rest := rest[pos.value.hrefEnd + 1..];
      pos := FindHref(rest);
    }
    NothingToRewrite(p, rest);
    out := out + rest;
  }

  // ----- Verifying -----

  method ConstantEq(a: Bytes, b: Bytes) returns (equal: bool)
    ensures equal <==> a == b
  {
    if |a| != |b| {
      return false;
    }
    var diff := 0;
    for i := 0 to |a|
      invariant 0 <= diff && (diff == 0 <==> a[..i] == b[..i])
    {
      XorIsZeroIffEqual(a[i], b[i]);
      OrIsZeroIffBoth(diff, Xor(a[i], b[i]));
      diff := Or(diff, Xor(a[i], b[i]));
      assert a[..i + 1] == a[..i] + [a[i]] && b[..i + 1] == b[..i] + [b[i]];
    }
    assert a[..|a|] == a && b[..|b|] == b;
    return diff == 0;
  }

  function Xor(x: nat, y: nat): nat {
    if x == 0 && y == 0 then 0 else 2 * Xor(x / 2, y / 2) + (if x % 2 == y % 2 then 0 else 1)
  }

  function Or(x: nat, y: nat): nat {
    if x == 0 && y == 0 then 0 else 2 * Or(x / 2, y / 2) + (if x % 2 == 0 && y % 2 == 0 then 0 else 1)
  }

  lemma {:induction false} XorIsZeroIffEqual(x: nat, y: nat)
    ensures Xor(x, y) == 0 <==> x == y
  {
    if x != 0 || y != 0 {
      XorIsZeroIffEqual(x / 2, y / 2);
    }
  }

  lemma {:induction false} OrIsZeroIffBoth(x: nat, y: nat)
    ensures Or(x, y) == 0 <==> x == 0 && y == 0
  {
    if x != 0 || y != 0 {
      OrIsZeroIffBoth(x / 2, y / 2);
    }
  }

  datatype VerifyError = Expired | BadUrlEncoding | NotUtf8 | BadTagEncoding | BadTag | NotHttp | Panics

  predicate IsHttp(url: Bytes) {
    HasPrefix(url, Ascii("http://")) || HasPrefix(url, Ascii("https://"))
  }

  function Verified(
    secret: Bytes, mac: Mac, now: int, u: Bytes, exp: int, s: Bytes, user: Bytes): Result<Bytes, VerifyError>
  {
    if exp < now then Err(Expired)
    else
      match Decode(u)
      case None => Err(BadUrlEncoding)
      case Some(url) =>
        if !ValidUtf8(url) then Err(NotUtf8)
        else
          match DecodeHex(s)
          case BadHex => Err(BadTagEncoding)
          case SlicePanic => Err(Panics)
          case Hex(provided) =>
            if |provided| != 16 || provided != mac(secret, MacInput(url, user, exp)) then Err(BadTag)
            else if !IsHttp(url) then Err(NotHttp)
            else Ok(url)
  }

  /** `u` is the encoding of a web address, and `s` a spelling of its tag for this user and an expiry not yet past. */
  predicate Authentic(
    secret: Bytes, mac: Mac, now: int, u: Bytes, exp: int, s: Bytes, user: Bytes, url: Bytes)
  {
    && now <= exp && u == Encode(url) && ValidUtf8(url) && IsHttp(url)
    && DecodeHex(s) == Hex(mac(secret, MacInput(url, user, exp)))
  }

  lemma VerifiedIffAuthentic(
    secret: Bytes, mac: Mac, now: int, u: Bytes, exp: int, s: Bytes, user: Bytes, url: Bytes)
    ensures Verified(secret, mac, now, u, exp, s, user) == Ok(url) <==>
            Authentic(secret, mac, now, u, exp, s, user, url)
  {
    DecodeEncode(url);
    if Decode(u).Some? {
      EncodeDecode(u);
    }
    hide Encode, Decode, DecodeHex, ValidUtf8, IsHttp, MacInput;
  }

  method Verify(secret: Bytes, mac: Mac, now: int, u: Bytes, exp: int, s: Bytes, user: Bytes)
    returns (r: Result<Bytes, VerifyError>)
    ensures r == Verified(secret, mac, now, u, exp, s, user)
    ensures forall url :: r == Ok(url) <==> Authentic(secret, mac, now, u, exp, s, user, url)
  {
    forall url {
      VerifiedIffAuthentic(secret, mac, now, u, exp, s, user, url);
    }
    if exp < now {
      return Err(Expired);
    }
    var decoded := Decode(u);
    if decoded.None? {
      return Err(BadUrlEncoding);
    }
    var url := decoded.value;
    if !ValidUtf8(url) {
      return Err(NotUtf8);
    }
    var expected := mac(secret, MacInput(url, user, exp));
    match DecodeHex(s) {
      case BadHex => return Err(BadTagEncoding);
      case SlicePanic => return Err(Panics);
      case Hex(provided) =>
        var equal := ConstantEq(expected, provided);
        if |provided| != 16 || !equal {
          return Err(BadTag);
        }
        if !IsHttp(url) {
          return Err(NotHttp);
        }
        return Ok(url);
    }
  }
}
