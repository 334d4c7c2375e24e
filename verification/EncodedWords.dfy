/** Decoding RFC 2047 encoded words in header text, on the bytes of the text. */
module EncodedWords {
  import opened Bytes
  import opened Base64Url
  import opened Wrappers

  const EQ: Byte := 61
  const QM: Byte := 63
  const UNDERSCORE: Byte := 95
  const SPACE: Byte := 32

  /** Padded base64 and lossy UTF-8 decoding, left abstract. */
  datatype Codec = Codec(base64: Bytes -> Option<Bytes>, lossy: Bytes -> Bytes)

  /** Position of the first `x` directly followed by `y`. */
  function FindPair(s: Bytes, x: Byte, y: Byte): (n: Option<nat>)
    ensures n.Some? ==> n.value + 2 <= |s| && s[n.value] == x && s[n.value + 1] == y
  {
    if |s| < 2 then None
    else if s[0] == x && s[1] == y then Some(0)
    else
      match FindPair(s[1..], x, y)
      case None => None
      case Some(n) => Some(n + 1)
  }

  /** The parts of `charset?encoding?text?=` and what follows. */
  datatype Word = Word(charset: Bytes, encoding: Bytes, text: Bytes, rest: Bytes)

  datatype Field = Field(text: Bytes, behind: Bytes)

  /** The text up to the next question mark, and what follows it. */
  function NextField(s: Bytes): (f: Option<Field>)
    ensures f.Some? ==> |f.value.behind| < |s|
  {
    var q := IndexOf(s, QM);
    if q == |s| then None else Some(Field(s[..q], s[q + 1..]))
  }

  /** The text up to the end of the word, and what follows it. */
  function LastField(s: Bytes): (f: Option<Field>)
    ensures f.Some? ==> |f.value.behind| < |s|
  {
    var end := FindPair(s, QM, EQ);
    if end.None? then None else Some(Field(s[..end.value], s[end.value + 2..]))
  }

  function ParseWord(s: Bytes): (w: Option<Word>)
    ensures w.Some? ==> |w.value.rest| < |s|
  {
    match NextField(s)
    case None => None
    case Some(charset) =>
      match NextField(charset.behind)
      case None => None
      case Some(encoding) =>
        match LastField(encoding.behind)
        case None => None
        case Some(last) => Some(Word(charset.text, encoding.text, last.text, last.behind))
  }

  lemma NextFieldParts(s: Bytes)
    requires NextField(s).Some?
    ensures var f := NextField(s).value; s == f.text + [QM] + f.behind
  {
    var q := IndexOf(s, QM);
    hide IndexOf;
    assert s[..q] + [s[q]] + s[q + 1..] == s;
  }

  lemma LastFieldParts(s: Bytes)
    requires LastField(s).Some?
    ensures var f := LastField(s).value; s == f.text + [QM] + ([EQ] + f.behind)
  {
    var n := FindPair(s, QM, EQ).value;
    hide FindPair;
    assert s[..n] + [s[n]] + ([s[n + 1]] + s[n + 2..]) == s;
  }

  /** Where the parts of a parsed word came from. */
  lemma WordParts(s: Bytes)
    requires ParseWord(s).Some?
    ensures var w := ParseWord(s).value;
            s == w.charset + [QM] + (w.encoding + [QM] + (w.text + [QM] + ([EQ] + w.rest)))
  {
    hide NextField, LastField;
    var charset := NextField(s).value;
    var encoding := NextField(charset.behind).value;
    NextFieldParts(s);
    NextFieldParts(charset.behind);
    LastFieldParts(encoding.behind);
  }

  /** The text of an encoded word as it stood in the header. */
  function Verbatim(w: Word): Bytes {
    [EQ, QM] + w.charset + [QM] + w.encoding + [QM] + w.text + [QM, EQ]
  }

  // ----- Q encoding -----

  function DecodeQ(s: Bytes): Option<Bytes> {
    if s == [] then Some([])
    else if s[0] == EQ then
      if |s| < 3 || ParseHexPair(s[1], s[2]).None? then None
      else Prepended([ParseHexPair(s[1], s[2]).value], DecodeQ(s[3..]))
    else Prepended([if s[0] == UNDERSCORE then SPACE else s[0]], DecodeQ(s[1..]))
  }

  function Prepended(front: Bytes, tail: Option<Bytes>): Option<Bytes> {
    if tail.Some? then Some(front + tail.value) else None
  }

  lemma PrependedMore(a: Bytes, b: Bytes, tail: Option<Bytes>)
    ensures Prepended(a, Prepended(b, tail)) == Prepended(a + b, tail)
    ensures Prepended([], tail) == tail
  {
    if tail.Some? {
      assert a + (b + tail.value) == a + b + tail.value;
      assert [] + tail.value == tail.value;
    }
  }

  method DecodeQuotedPrintableHeader(input: Bytes) returns (r: Option<Bytes>)
    ensures r == DecodeQ(input)
  {
    var bytes: Bytes := [];
    var chars := input;
    PrependedMore([], [], DecodeQ(input));
    while chars != []
      invariant DecodeQ(input) == Prepended(bytes, DecodeQ(chars))
      decreases |chars|
    {
      ghost var before, done := chars, bytes;
      var b := chars[0];
      chars := chars[1..];
      if b == UNDERSCORE {
        bytes := bytes + [SPACE];
      } else if b == EQ {
        if chars == [] {
          return None;
        }
        var hi := chars[0];
        chars := chars[1..];
        if chars == [] {
          return None;
        }
        var lo := chars[0];
        chars := chars[1..];
        assert chars == before[3..] && hi == before[1] && lo == before[2];
        var byte := ParseHexPair(hi, lo);
        if byte.None? {
          return None;
        }
        bytes := bytes + [byte.value];
      } else {
        bytes := bytes + [b];
      }
      PrependedMore(done, [bytes[|done|]], DecodeQ(chars));
      assert bytes == done + [bytes[|done|]];
    }
    assert bytes + [] == bytes;
    return Some(bytes);
  }

  // ----- Character sets -----

  /** ISO-8859-1 bytes as UTF-8 text. */
  function Latin1(b: Bytes): Bytes {
    if b == [] then [] else Latin1Char(b[0]) + Latin1(b[1..])
  }

  function Latin1Char(c: Byte): Bytes {
    if c < 0x80 then [c] else [0xC0 + c / 64, 0x80 + c % 64]
  }

  predicate IsUtf8Name(charset: Bytes) {
    LowerBytes(charset) == Ascii("utf-8") || LowerBytes(charset) == Ascii("utf8")
  }

  predicate IsLatin1Name(charset: Bytes) {
    || LowerBytes(charset) == Ascii("iso-8859-1")
    || LowerBytes(charset) == Ascii("latin1")
    || LowerBytes(charset) == Ascii("latin-1")
  }

  function DecodeCharset(k: Codec, charset: Bytes, b: Bytes): Bytes {
    if IsUtf8Name(charset) then k.lossy(b)
    else if IsLatin1Name(charset) then Latin1(b)
    else if ValidUtf8(b) then b
    else Latin1(b)
  }

  function DecodeText(k: Codec, encoding: Bytes, text: Bytes): Option<Bytes> {
    if encoding == [66] || encoding == [98] then k.base64(text)
    else if encoding == [81] || encoding == [113] then DecodeQ(text)
    else None
  }

  /** What an encoded word turns into: its decoded text, or itself when it does not decode. */
  function Decoded(k: Codec, w: Word): Bytes {
    match DecodeText(k, w.encoding, w.text)
    case Some(b) => DecodeCharset(k, w.charset, b)
    case None => Verbatim(w)
  }

  // ----- Whole headers -----

  /** White space is dropped when another encoded word seems to follow. */
  function WithoutGap(rest: Bytes): (r: Bytes)
    ensures |r| <= |rest|
  {
    if HasPrefix(rest, [EQ, QM]) || HasPrefix(TrimStart(rest), [EQ, QM]) then TrimStart(rest) else rest
  }

  function Decode2047(k: Codec, s: Bytes): Bytes
    decreases |s|
  {
    match FindPair(s, EQ, QM)
    case None => s
    case Some(start) =>
      match ParseWord(s[start + 2..])
      case None => s[..start] + [EQ, QM] + Decode2047(k, s[start + 2..])
      case Some(w) => s[..start] + Decoded(k, w) + Decode2047(k, WithoutGap(w.rest))
  }

  /** Decoding one word or one stray marker in front of the rest. */
  lemma HeaderStep(k: Codec, s: Bytes, start: nat)
    requires FindPair(s, EQ, QM) == Some(start) && start + 2 <= |s|
    ensures var parsed := ParseWord(s[start + 2..]);
            Decode2047(k, s) ==
            if parsed.Some? then
              s[..start] + Decoded(k, parsed.value) + Decode2047(k, WithoutGap(parsed.value.rest))
            else s[..start] + [EQ, QM] + Decode2047(k, s[start + 2..])
  {
    hide FindPair, ParseWord, Decoded, WithoutGap;
  }

  lemma NothingToDecode(k: Codec, s: Bytes)
    requires FindPair(s, EQ, QM) == None
    ensures Decode2047(k, s) == s
  {
  }

  lemma Appended(a: Bytes, b: Bytes, c: Bytes, d: Bytes)
    ensures a + (b + c + d) == a + b + c + d
  {
  }

  method DecodeRfc2047(k: Codec, input: Bytes) returns (result: Bytes)
    ensures result == Decode2047(k, input)
  {
    hide Decode2047, FindPair, ParseWord, DecodeCharset, Verbatim, DecodeQ, TrimStart;
    if FindPair(input, EQ, QM).None? {
      NothingToDecode(k, input);
      return input;
    }
    result := [];
    var remaining := input;
    var start := FindPair(remaining, EQ, QM);
    while start.Some?
      invariant start == FindPair(remaining, EQ, QM)
      invariant result + Decode2047(k, remaining) == Decode2047(k, input)
      decreases |remaining|
    {
      ghost var before, was := result, remaining;
      HeaderStep(k, remaining, start.value);
      result := result + remaining[..start.value];
      var afterStart := remaining[start.value + 2..];
      var parsed := ParseWord(afterStart);
      if parsed.Some? {
        var w := parsed.value;
        var bytes := None;
        if w.encoding == [66] || w.encoding == [98] {
          bytes := k.base64(w.text);
        } else if w.encoding == [81] || w.encoding == [113] {
          bytes := DecodeQuotedPrintableHeader(w.text);
        }
        if bytes.Some? {
          result := result + DecodeCharset(k, w.charset, bytes.value);
        } else {
          result := result + Verbatim(w);
        }
        remaining := w.rest;
        if HasPrefix(remaining, [EQ, QM]) || HasPrefix(TrimStart(remaining), [EQ, QM]) {
          remaining := TrimStart(remaining);
        }
        Appended(before, was[..start.value], Decoded(k, w), Decode2047(k, remaining));
      } else {
        result := result + [EQ, QM];
        remaining := afterStart;
        Appended(before, was[..start.value], [EQ, QM], Decode2047(k, remaining));
      }
      start := FindPair(remaining, EQ, QM);
    }
    NothingToDecode(k, remaining);
    result := result + remaining;
  }

  // ----- One word at a time -----

  predicate HasNoPair(s: Bytes, x: Byte, y: Byte) {
    FindPair(s, x, y).None?
  }

  lemma {:induction false} FindPairAt(a: Bytes, x: Byte, y: Byte, b: Bytes)
    requires HasNoPair(a, x, y) && x != y
    ensures FindPair(a + [x, y] + b, x, y) == Some(|a|)
  {
    var s := a + [x, y] + b;
    if a == [] {
      assert s == [x, y] + b;
    } else {
      assert s[1..] == a[1..] + [x, y] + b;
      assert |a| >= 2 ==> s[1] == a[1];
      FindPairAt(a[1..], x, y, b);
    }
  }

  /** A word whose parts hold no delimiters of their own. */
  predicate CleanWord(w: Word) {
    QM !in w.charset && QM !in w.encoding && HasNoPair(w.text, QM, EQ)
  }

  lemma Rejoined(a: Bytes, x: Byte, b: Bytes)
    ensures var s := a + [x] + b; |a| < |s| && s[|a|] == x && s[..|a|] == a && s[|a| + 1..] == b
  {
  }

  lemma RejoinedPair(a: Bytes, x: Byte, y: Byte, b: Bytes)
    ensures var s := a + [x, y] + b; |a| + 2 <= |s| && s[..|a|] == a && s[|a| + 2..] == b
  {
  }

  lemma ParseCleanWord(w: Word)
    requires CleanWord(w)
    ensures ParseWord(w.charset + [QM] + (w.encoding + [QM] + (w.text + [QM, EQ] + w.rest))) == Some(w)
  {
    hide FindPair, NextField, LastField;
    var c := w.text + [QM, EQ] + w.rest;
    FieldEnd(w.charset, w.encoding + [QM] + c);
    FieldEnd(w.encoding, c);
    LastFieldEnd(w.text, w.rest);
  }

  /** A field without a question mark ends at the first one. */
  lemma FieldEnd(text: Bytes, behind: Bytes)
    requires QM !in text
    ensures NextField(text + [QM] + behind) == Some(Field(text, behind))
  {
    Rejoined(text, QM, behind);
    hide IndexOf;
    IndexOfAt(text + [QM] + behind, QM, |text|);
  }

  lemma LastFieldEnd(text: Bytes, behind: Bytes)
    requires HasNoPair(text, QM, EQ)
    ensures LastField(text + [QM, EQ] + behind) == Some(Field(text, behind))
  {
    FindPairAt(text, QM, EQ, behind);
    hide FindPair;
    RejoinedPair(text, QM, EQ, behind);
  }

  /** The first word of a header is replaced by its text, or kept as it stands, and decoding goes on behind it. */
  lemma DecodesWordByWord(k: Codec, before: Bytes, w: Word)
    requires HasNoPair(before, EQ, QM) && CleanWord(w)
    ensures Decode2047(k, before + Verbatim(w) + w.rest) == before + Decoded(k, w) + Decode2047(k, WithoutGap(w.rest))
    ensures DecodeText(k, w.encoding, w.text) == None ==> Decoded(k, w) == Verbatim(w)
  {
    hide FindPair, ParseWord, Decode2047, CleanWord;
    var tail := w.charset + [QM] + (w.encoding + [QM] + (w.text + [QM, EQ] + w.rest));
    VerbatimParts(before, w);
    hide Verbatim;
    FindPairAt(before, EQ, QM, tail);
    RejoinedPair(before, EQ, QM, tail);
    ParseCleanWord(w);
    HeaderStep(k, before + [EQ, QM] + tail, |before|);
  }

  /** The marker of a word, and the fields behind it. */
  lemma VerbatimParts(before: Bytes, w: Word)
    ensures before + Verbatim(w) + w.rest ==
            before + [EQ, QM] + (w.charset + [QM] + (w.encoding + [QM] + (w.text + [QM, EQ] + w.rest)))
  {
  }

  // ----- Q-encoded ISO-8859-1 words -----

  /** Every byte written as `=` and two hexadecimal digits, in either letter case. */
  predicate SpellsOut(text: Bytes, b: Bytes) {
    if b == [] then text == []
    else
      && |text| >= 3 && text[0] == EQ
      && HexValue(text[1]).Some? && HexValue(text[2]).Some?
      && HexValue(text[1]).value * 16 + HexValue(text[2]).value == b[0]
      && SpellsOut(text[3..], b[1..])
  }

  lemma {:induction false} SpelledOutDecodes(text: Bytes, b: Bytes)
    requires SpellsOut(text, b)
    ensures DecodeQ(text) == Some(b) && QM !in text
  {
    if b != [] {
      SpelledOutDecodes(text[3..], b[1..]);
      assert b == [b[0]] + b[1..];
      assert text == [text[0], text[1], text[2]] + text[3..];
    }
  }

  lemma {:induction false} NoMarkNoPair(s: Bytes, x: Byte, y: Byte)
    requires x !in s
    ensures HasNoPair(s, x, y)
  {
    if |s| >= 2 {
      assert forall c :: c in s[1..] ==> c in s;
      NoMarkNoPair(s[1..], x, y);
    }
  }

  /** White space only. */
  predicate Blank(s: Bytes) {
    TrimStart(s) == []
  }

  lemma {:induction false} TrimBlank(gap: Bytes, s: Bytes)
    requires Blank(gap) && SpaceLength(s) == 0
    ensures TrimStart(gap + s) == s
    decreases |gap|
  {
    if gap == [] {
      assert gap + s == s;
    } else {
      var n := SpaceLength(gap);
      SpaceInLonger(gap, s);
      hide SpaceLength;
      assert (gap + s)[n..] == gap[n..] + s;
      TrimBlank(gap[n..], s);
    }
  }

  /** One encoded word: its bytes, how they are written, and the white space after it. */
  datatype LatinWord = LatinWord(charset: Bytes, encoding: Bytes, text: Bytes, bytes: Bytes, gap: Bytes)

  predicate IsLatinWord(w: LatinWord) {
    && IsLatin1Name(w.charset) && (w.encoding == [81] || w.encoding == [113])
    && SpellsOut(w.text, w.bytes) && Blank(w.gap)
  }

  predicate AllLatin(words: seq<LatinWord>) {
    forall i :: 0 <= i < |words| ==> IsLatinWord(words[i])
  }

  function Source(w: LatinWord): Bytes {
    Verbatim(Word(w.charset, w.encoding, w.text, []))
  }

  /** A header made of encoded words with white space between them. */
  function Header(words: seq<LatinWord>): Bytes {
    if words == [] then []
    else if |words| == 1 then Source(words[0])
    else Source(words[0]) + (words[0].gap + Header(words[1..]))
  }

  function AllBytes(words: seq<LatinWord>): Bytes {
    if words == [] then [] else words[0].bytes + AllBytes(words[1..])
  }

  lemma {:induction false} Latin1Concat(a: Bytes, b: Bytes)
    ensures Latin1(a + b) == Latin1(a) + Latin1(b)
  {
    if a == [] {
      assert a + b == b;
    } else {
      assert (a + b)[1..] == a[1..] + b;
      Latin1Concat(a[1..], b);
    }
  }

  lemma Latin1NameIsClean(charset: Bytes)
    requires IsLatin1Name(charset)
    ensures QM !in charset && !IsUtf8Name(charset)
  {
    assert forall i :: 0 <= i < |charset| ==> LowerBytes(charset)[i] == LowerByte(charset[i]);
    assert QM !in Ascii("iso-8859-1") && QM !in Ascii("latin1") && QM !in Ascii("latin-1");
    forall i | 0 <= i < |charset| ensures charset[i] != QM {
      assert LowerBytes(charset)[i] in LowerBytes(charset);
    }
    assert Ascii("utf-8")[0] == 117 && Ascii("utf8")[0] == 117;
    assert Ascii("iso-8859-1")[0] == 105 && Ascii("latin1")[0] == 108 && Ascii("latin-1")[0] == 108;
  }

  lemma HeaderStartsWithWord(words: seq<LatinWord>)
    requires words != []
    ensures HasPrefix(Header(words), [EQ, QM]) && SpaceLength(Header(words)) == 0
  {
    var s := Source(words[0]);
    assert s[..2] == [EQ, QM];
    assert Header(words)[0] == s[0] && Header(words)[1] == s[1];
  }

  lemma LatinWordIsClean(w: LatinWord, rest: Bytes)
    requires IsLatinWord(w)
    ensures var word := Word(w.charset, w.encoding, w.text, rest);
            && CleanWord(word) && Verbatim(word) == Source(w)
            && forall k :: Decoded(k, word) == Latin1(w.bytes)
  {
    Latin1NameIsClean(w.charset);
    SpelledOutDecodes(w.text, w.bytes);
    NoMarkNoPair(w.text, QM, EQ);
    hide IsLatin1Name, IsUtf8Name, DecodeQ, Latin1;
  }

  lemma EmptyFront(a: Bytes)
    ensures [] + a == a
  {
  }

  /** One word in front of the rest of a header. */
  lemma DecodesLatinWord(k: Codec, w: LatinWord, rest: Bytes)
    requires IsLatinWord(w)
    ensures Decode2047(k, Source(w) + rest) == Latin1(w.bytes) + Decode2047(k, WithoutGap(rest))
  {
    var word := Word(w.charset, w.encoding, w.text, rest);
    LatinWordIsClean(w, rest);
    assert HasNoPair([], EQ, QM);
    hide *;
    DecodesWordByWord(k, [], word);
    EmptyFront(Verbatim(word));
    EmptyFront(Decoded(k, word));
  }

  /** White space in front of another word is dropped. */
  lemma GapIsDropped(w: LatinWord, rest: seq<LatinWord>)
    requires IsLatinWord(w) && rest != []
    ensures WithoutGap(w.gap + Header(rest)) == Header(rest)
  {
    HeaderStartsWithWord(rest);
    TrimBlank(w.gap, Header(rest));
    hide Header, IsLatin1Name, SpellsOut, TrimStart, SpaceLength;
  }

  lemma LastLatinWord(k: Codec, w: LatinWord)
    requires IsLatinWord(w)
    ensures Decode2047(k, Source(w)) == Latin1(w.bytes)
  {
    assert WithoutGap([]) == [];
    NothingToDecode(k, []);
    hide *;
    DecodesLatinWord(k, w, []);
    assert Source(w) + [] == Source(w);
    assert Latin1(w.bytes) + [] == Latin1(w.bytes);
  }

  /** Encoded words separated by white space decode to exactly their bytes, run together. */
  lemma {:induction false} LatinWordsDecodeExactly(k: Codec, words: seq<LatinWord>)
    requires AllLatin(words)
    ensures Decode2047(k, Header(words)) == Latin1(AllBytes(words))
  {
    hide Source, Decode2047, IsLatinWord, WithoutGap, Latin1;
    if words == [] {
      NothingToDecode(k, []);
      assert Latin1([]) == [] by { Latin1OfNothing(); }
    } else {
      var w, rest := words[0], words[1..];
      if rest == [] {
        LastLatinWord(k, w);
        assert w.bytes + [] == w.bytes;
      } else {
        assert AllLatin(rest);
        GapIsDropped(w, rest);
        DecodesLatinWord(k, w, w.gap + Header(rest));
        LatinWordsDecodeExactly(k, rest);
        Latin1Concat(w.bytes, AllBytes(rest));
      }
    }
  }

  lemma Latin1OfNothing()
    ensures Latin1([]) == []
  {
  }

  // ----- Character boundaries -----

  lemma {:induction false} TrimKeepsUtf8(s: Bytes)
    requires ValidUtf8(s)
    ensures ValidUtf8(TrimStart(s))
    decreases |s|
  {
    var n := SpaceLength(s);
    if n > 0 {
      assert CharLength(s) == n;
      TrimKeepsUtf8(s[n..]);
    }
  }

  lemma {:induction false} Latin1IsUtf8(b: Bytes)
    ensures ValidUtf8(Latin1(b))
  {
    if b != [] {
      Latin1IsUtf8(b[1..]);
      var c := Latin1Char(b[0]);
      assert CharLength(c) == |c| && c[|c|..] == [];
      ValidConcat(c, Latin1(b[1..]));
    }
  }

  lemma WordIsUtf8(s: Bytes)
    requires ValidUtf8(s) && ParseWord(s).Some?
    ensures var w := ParseWord(s).value;
            ValidUtf8(w.charset) && ValidUtf8(w.encoding) && ValidUtf8(w.text) && ValidUtf8(w.rest)
  {
    hide ValidUtf8, ParseWord;
    var w := ParseWord(s).value;
    var d := [EQ] + w.rest;
    var c := w.text + [QM] + d;
    var b := w.encoding + [QM] + c;
    WordParts(s);
    ValidAroundAscii(w.charset, QM, b);
    ValidAroundAscii(w.encoding, QM, c);
    ValidAroundAscii(w.text, QM, d);
    ValidAroundAscii([], EQ, w.rest);
    assert [] + [EQ] + w.rest == d;
  }

  lemma StartIsUtf8(s: Bytes, start: nat)
    requires ValidUtf8(s) && start + 2 <= |s| && s[start] == EQ && s[start + 1] == QM
    ensures ValidUtf8(s[..start]) && ValidUtf8(s[start + 2..])
  {
    hide ValidUtf8;
    var rest := s[start + 2..];
    assert s[..start] + [s[start]] + ([s[start + 1]] + rest) == s;
    ValidAroundAscii(s[..start], EQ, [QM] + rest);
    ValidAroundAscii([], QM, rest);
    assert [] + [QM] + rest == [QM] + rest;
  }

  /** The oracles return what their callers rely on. */
  ghost predicate GoodCodec(k: Codec) {
    forall b :: ValidUtf8(k.lossy(b))
  }

  lemma DecodedIsUtf8(k: Codec, w: Word)
    requires GoodCodec(k) && ValidUtf8(w.charset) && ValidUtf8(w.encoding) && ValidUtf8(w.text)
    ensures ValidUtf8(Decoded(k, w))
  {
    var d := DecodeText(k, w.encoding, w.text);
    if d.Some? {
      Latin1IsUtf8(d.value);
    } else {
      hide ValidUtf8;
      assert ValidUtf8([]) by { Latin1IsUtf8([]); }
      ValidAroundAscii([], EQ, []);
      var a := [EQ, QM];
      assert [] + [EQ] + [] == [EQ];
      ValidAroundAscii([EQ], QM, []);
      assert [EQ] + [QM] + [] == a;
      ValidConcat(a, w.charset);
      ValidAroundAscii(a + w.charset, QM, w.encoding);
      var b := a + w.charset + [QM] + w.encoding;
      ValidAroundAscii(b, QM, w.text);
      var c := b + [QM] + w.text;
      assert ValidUtf8([QM, EQ]) by {
        ValidAroundAscii([], QM, []);
        assert [] + [QM] + [] == [QM];
        ValidAroundAscii([QM], EQ, []);
        assert [QM] + [EQ] + [] == [QM, EQ];
      }
      ValidConcat(c, [QM, EQ]);
      assert Verbatim(w) == c + [QM, EQ];
    }
  }

  /** Every slice is cut at a character boundary: well-formed headers decode to well-formed text. */
  lemma {:induction false} DecodingKeepsUtf8(k: Codec, s: Bytes)
    requires GoodCodec(k) && ValidUtf8(s)
    ensures ValidUtf8(Decode2047(k, s))
    decreases |s|
  {
    hide ValidUtf8, Decoded, FindPair, ParseWord, Decode2047, TrimStart;
    var start := FindPair(s, EQ, QM);
    if start.Some? {
      var after := s[start.value + 2..];
      HeaderStep(k, s, start.value);
      StartIsUtf8(s, start.value);
      var w := ParseWord(after);
      if w.Some? {
        WordIsUtf8(after);
        TrimKeepsUtf8(w.value.rest);
        DecodedIsUtf8(k, w.value);
        DecodingKeepsUtf8(k, WithoutGap(w.value.rest));
        ValidConcat(s[..start.value], Decoded(k, w.value));
        ValidConcat(s[..start.value] + Decoded(k, w.value), Decode2047(k, WithoutGap(w.value.rest)));
      } else {
        DecodingKeepsUtf8(k, after);
        MarkerIsUtf8(s[..start.value], Decode2047(k, after));
      }
    } else {
      NothingToDecode(k, s);
    }
  }

  lemma MarkerIsUtf8(a: Bytes, b: Bytes)
    requires ValidUtf8(a) && ValidUtf8(b)
    ensures ValidUtf8(a + [EQ, QM] + b)
  {
    hide ValidUtf8;
    ValidAroundAscii(a + [EQ], QM, b);
    assert ValidUtf8([]) by { Latin1IsUtf8([]); }
    ValidAroundAscii(a, EQ, []);
    assert a + [EQ] + [] == a + [EQ];
    assert a + [EQ] + [QM] + b == a + [EQ, QM] + b;
  }
}
