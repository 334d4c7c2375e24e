/** What headers with encoded words say, by the rules of RFC 2047 rather than by the decoder's own steps. */
module HeaderText {
  import opened Bytes
  import opened Base64Url
  import opened Wrappers
  import opened EncodedWords
  import opened Utf8Text

  // ----- Q text -----

  /** `c` is a hexadecimal digit of value `v`, in either letter case. */
  predicate IsHexDigit(c: Byte, v: int) {
    if v < 10 then c == 48 + v else v < 16 && (c == 55 + v || c == 87 + v)
  }

  /** Two characters that read as a byte; a plus sign passes for a leading zero. */
  predicate IsHexPair(hi: Byte, lo: Byte, b: Byte) {
    (IsHexDigit(hi, b / 16) && IsHexDigit(lo, b % 16)) || (hi == 43 && IsHexDigit(lo, b))
  }

  /** Q text spells bytes: `=XX` for any byte, `_` for a space, any other character for itself. */
  predicate Spells(text: Bytes, b: Bytes) {
    if b == [] then text == []
    else
      || (|text| >= 3 && text[0] == 61 && IsHexPair(text[1], text[2], b[0]) && Spells(text[3..], b[1..]))
      || (|text| >= 1 && text[0] == 95 && b[0] == 32 && Spells(text[1..], b[1..]))
      || (|text| >= 1 && text[0] != 61 && text[0] != 95 && text[0] == b[0] && Spells(text[1..], b[1..]))
  }

  lemma DigitsAgree(c: Byte, v: int)
    requires 0 <= v
    ensures HexValue(c) == Some(v) <==> IsHexDigit(c, v)
  {
  }

  lemma PairsAgree(hi: Byte, lo: Byte, b: Byte)
    ensures ParseHexPair(hi, lo) == Some(b) <==> IsHexPair(hi, lo, b)
  {
    DigitsAgree(hi, b / 16);
    DigitsAgree(lo, b % 16);
    DigitsAgree(lo, b);
    assert HexValue(lo).Some? ==> 0 <= HexValue(lo).value < 16;
    hide IsHexDigit;
  }

  lemma PrependedIs(x: Byte, tail: Option<Bytes>, b: Bytes)
    ensures Prepended([x], tail) == Some(b) <==> b != [] && b[0] == x && tail == Some(b[1..])
  {
    if tail.Some? {
      assert ([x] + tail.value)[1..] == tail.value;
    }
    if b != [] {
      assert b == [b[0]] + b[1..];
    }
  }

  /** Q text decodes exactly to the bytes it spells, and otherwise not at all. */
  lemma {:induction false} QDecodesIff(text: Bytes, b: Bytes)
    ensures DecodeQ(text) == Some(b) <==> Spells(text, b)
    decreases |text|
  {
    if text != [] {
      if text[0] == 61 {
        if |text| >= 3 && ParseHexPair(text[1], text[2]).Some? {
          var x := ParseHexPair(text[1], text[2]).value;
          PrependedIs(x, DecodeQ(text[3..]), b);
          if b != [] {
            QDecodesIff(text[3..], b[1..]);
          }
        }
        if |text| >= 3 && b != [] {
          PairsAgree(text[1], text[2], b[0]);
        }
      } else {
        PrependedIs(if text[0] == 95 then 32 else text[0], DecodeQ(text[1..]), b);
        if b != [] {
          QDecodesIff(text[1..], b[1..]);
        }
      }
    }
  }

  // ----- Characters -----

  /** Text whose characters are numbered by the bytes, one each. */
  predicate OneCharPerByte(t: Bytes, b: Bytes) {
    ValidUtf8(t) && Codes(t) == b
  }

  lemma FirstLatinChar(c: Byte, rest: Bytes)
    ensures var t := Latin1Char(c) + rest;
            CharLength(t) == |Latin1Char(c)| && FirstCode(t) == c && t[CharLength(t)..] == rest
  {
    var t := Latin1Char(c) + rest;
    assert t[0] == Latin1Char(c)[0];
    if c >= 0x80 {
      assert t[1] == Latin1Char(c)[1];
    }
  }

  lemma {:induction false} LatinIsOneCharPerByte(b: Bytes)
    ensures OneCharPerByte(Latin1(b), b)
  {
    if b != [] {
      hide Latin1Char, FirstCode, CharLength;
      FirstLatinChar(b[0], Latin1(b[1..]));
      LatinIsOneCharPerByte(b[1..]);
      assert b == [b[0]] + b[1..];
    }
  }

  /** What the bytes of a word say in its character set. */
  predicate Says(k: Codec, charset: Bytes, b: Bytes, t: Bytes) {
    var name := LowerBytes(charset);
    if name == Ascii("utf-8") || name == Ascii("utf8") then t == k.lossy(b)
    else if name == Ascii("iso-8859-1") || name == Ascii("latin1") || name == Ascii("latin-1") then OneCharPerByte(t, b)
    else if ValidUtf8(b) then t == b
    else OneCharPerByte(t, b)
  }

  lemma DecodedSays(k: Codec, charset: Bytes, b: Bytes)
    ensures Says(k, charset, b, DecodeCharset(k, charset, b))
  {
    LatinIsOneCharPerByte(b);
    hide OneCharPerByte, LowerBytes, Ascii;
  }

  // ----- One word -----

  /** `x` is never directly followed by `y`. */
  predicate Apart(s: Bytes, x: Byte, y: Byte) {
    forall i :: 0 <= i < |s| - 1 ==> s[i] != x || s[i + 1] != y
  }

  lemma {:induction false} ApartHasNoPair(s: Bytes, x: Byte, y: Byte)
    requires Apart(s, x, y)
    ensures HasNoPair(s, x, y)
  {
    if |s| >= 2 {
      var rest := s[1..];
      assert s[0] != x || s[0 + 1] != y;
      forall i | 0 <= i < |rest| - 1 ensures rest[i] != x || rest[i + 1] != y {
        assert s[i + 1] != x || s[i + 1 + 1] != y;
      }
      ApartHasNoPair(rest, x, y);
    }
  }

  /** `=?charset?e?text?=` */
  function Encoded(charset: Bytes, e: Byte, text: Bytes): Bytes {
    [61, 63] + charset + [63] + [e] + [63] + text + [63, 61]
  }

  /** The text of a word in encoding `e` stands for `b`: Q or q spells it, B or b is its base64. */
  predicate StandsFor(k: Codec, e: Byte, text: Bytes, b: Bytes) {
    || ((e == 81 || e == 113) && Spells(text, b))
    || ((e == 66 || e == 98) && k.base64(text) == Some(b))
  }

  lemma TextDecodesIff(k: Codec, e: Byte, text: Bytes, b: Bytes)
    ensures DecodeText(k, [e], text) == Some(b) <==> StandsFor(k, e, text, b)
  {
    QDecodesIff(text, b);
    hide DecodeQ, Spells;
    assert [e][0] == e;
  }

  lemma WordIsClean(before: Bytes, charset: Bytes, e: Byte, text: Bytes, rest: Bytes)
    requires Apart(before, 61, 63) && 63 !in charset && e != 63 && Apart(text, 63, 61)
    ensures HasNoPair(before, EQ, QM) && CleanWord(Word(charset, [e], text, rest))
    ensures Verbatim(Word(charset, [e], text, rest)) == Encoded(charset, e, text)
  {
    ApartHasNoPair(before, 61, 63);
    ApartHasNoPair(text, 63, 61);
    hide FindPair;
  }

  /**
    A word turns into what its bytes say in its character set, or stays as it is if its text stands for no bytes.
    What is in front of it is kept, and decoding goes on behind it.
   */
  lemma WordSays(k: Codec, before: Bytes, charset: Bytes, e: Byte, text: Bytes, rest: Bytes) returns (t: Bytes)
    requires Apart(before, 61, 63) && 63 !in charset && e != 63 && Apart(text, 63, 61)
    ensures Decode2047(k, before + Encoded(charset, e, text) + rest) == before + t + Decode2047(k, WithoutGap(rest))
    ensures forall b :: StandsFor(k, e, text, b) ==> Says(k, charset, b, t)
    ensures (forall b :: !StandsFor(k, e, text, b)) ==> t == Encoded(charset, e, text)
  {
    var w := Word(charset, [e], text, rest);
    WordIsClean(before, charset, e, text, rest);
    hide Decode2047, Encoded, WithoutGap, Says, StandsFor, Verbatim, HasNoPair, CleanWord, Apart;
    DecodesWordByWord(k, before, w);
    t := Decoded(k, w);
    forall b ensures DecodeText(k, [e], text) == Some(b) <==> StandsFor(k, e, text, b) {
      TextDecodesIff(k, e, text, b);
    }
    hide DecodeText;
    var d := DecodeText(k, [e], text);
    if d.Some? {
      DecodedSays(k, charset, d.value);
      assert StandsFor(k, e, text, d.value);
    }
  }

  /** The text is three fields and a rest, as they would stand behind the opening marker of a word. */
  predicate Opens(s: Bytes, charset: Bytes, encoding: Bytes, text: Bytes, rest: Bytes) {
    s == charset + [63] + encoding + [63] + text + [63, 61] + rest
  }

  /** A marker that opens no word is kept, and decoding goes on behind it. */
  lemma StrayMarkerIsKept(k: Codec, before: Bytes, behind: Bytes)
    requires Apart(before, 61, 63)
    requires forall charset, encoding, text, rest :: !Opens(behind, charset, encoding, text, rest)
    ensures Decode2047(k, before + [61, 63] + behind) == before + [61, 63] + Decode2047(k, behind)
  {
    ParsedOpens(behind);
    ApartHasNoPair(before, 61, 63);
    hide Decode2047, FindPair, ParseWord, Apart;
    FindPairAt(before, EQ, QM, behind);
    RejoinedPair(before, EQ, QM, behind);
    HeaderStep(k, before + [61, 63] + behind, |before|);
  }

  lemma ParsedOpens(s: Bytes)
    ensures var w := ParseWord(s); w.Some? ==> Opens(s, w.value.charset, w.value.encoding, w.value.text, w.value.rest)
  {
    hide ParseWord;
    if ParseWord(s).Some? {
      WordParts(s);
      FieldsInOrder(ParseWord(s).value);
    }
  }

  lemma FieldsInOrder(w: Word)
    ensures w.charset + [63] + (w.encoding + [63] + (w.text + [63] + ([61] + w.rest))) ==
            w.charset + [63] + w.encoding + [63] + w.text + [63, 61] + w.rest
  {
  }

  // ----- What follows a word -----

  lemma {:induction false} BlankIsTrimmed(gap: Bytes)
    requires Linear(gap)
    ensures Blank(gap)
  {
    if gap != [] {
      assert SpaceLength(gap) == 1;
      assert Linear(gap[1..]);
      BlankIsTrimmed(gap[1..]);
    }
  }

  /** The white space of header lines: spaces, tabs and line breaks. */
  predicate Linear(gap: Bytes) {
    forall i :: 0 <= i < |gap| ==> gap[i] == 32 || gap[i] == 9 || gap[i] == 13 || gap[i] == 10
  }

  /** White space in front of another word is dropped; in front of anything else it is kept. */
  lemma GapRule(gap: Bytes, next: Bytes)
    requires Linear(gap) && next != [] && 33 <= next[0] < 128
    ensures WithoutGap(gap + next) == if |next| >= 2 && next[0] == 61 && next[1] == 63 then next else gap + next
  {
    BlankIsTrimmed(gap);
    TrimBlank(gap, next);
    if gap == [] {
      assert gap + next == next;
    } else {
      assert (gap + next)[0] == gap[0];
    }
    hide TrimStart;
    StartsWithMarker(next);
    StartsWithMarker(gap + next);
    hide HasPrefix;
  }

  lemma StartsWithMarker(s: Bytes)
    ensures HasPrefix(s, [61, 63]) <==> |s| >= 2 && s[0] == 61 && s[1] == 63
  {
    if |s| >= 2 {
      assert s[..2] == [s[0], s[1]];
    }
  }

  /** Text without `=?` is kept as it is, white space included. */
  lemma PlainIsKept(k: Codec, s: Bytes)
    requires Apart(s, 61, 63)
    ensures Decode2047(k, s) == s
  {
    ApartHasNoPair(s, 61, 63);
    NothingToDecode(k, s);
  }

  lemma NoWordAt(s: Bytes, n: nat)
    requires Apart(s, 61, 63) && n <= |s|
    ensures !HasPrefix(s[n..], [61, 63])
  {
    if n + 1 < |s| {
      assert s[n] != 61 || s[n + 1] != 63;
      assert s[n..][..2] == [s[n], s[n + 1]];
    }
  }

  lemma NoWordBehind(rest: Bytes)
    requires Apart(rest, 61, 63)
    ensures WithoutGap(rest) == rest
  {
    NoWordAt(rest, 0);
    NoWordAt(rest, |rest| - |TrimStart(rest)|);
    hide Apart;
    assert rest[0..] == rest;
  }

  // ----- Character sets -----

  /** Lossy decoding changes nothing where nothing is lost. */
  ghost predicate KeepsValid(k: Codec) {
    forall b :: ValidUtf8(b) ==> k.lossy(b) == b
  }

  /** A word in UTF-8, by either of its names and in either encoding, with plain text around it. */
  lemma Utf8WordSays(k: Codec, before: Bytes, charset: Bytes, e: Byte, text: Bytes, b: Bytes, rest: Bytes)
    requires Apart(before, 61, 63) && Apart(text, 63, 61) && Apart(rest, 61, 63)
    requires LowerBytes(charset) == Ascii("utf-8") || LowerBytes(charset) == Ascii("utf8")
    requires StandsFor(k, e, text, b)
    ensures Decode2047(k, before + Encoded(charset, e, text) + rest) == before + k.lossy(b) + rest
    ensures KeepsValid(k) && ValidUtf8(b) ==>
              Decode2047(k, before + Encoded(charset, e, text) + rest) == before + b + rest
  {
    NameIsClean(charset);
    hide Decode2047, Encoded, WithoutGap, Spells, Apart, ValidUtf8;
    var t := WordSays(k, before, charset, e, text, rest);
    assert Says(k, charset, b, t);
    hide LowerBytes, Ascii;
    NoWordBehind(rest);
    PlainIsKept(k, rest);
  }

  lemma NameIsClean(charset: Bytes)
    requires LowerBytes(charset) == Ascii("utf-8") || LowerBytes(charset) == Ascii("utf8")
    ensures 63 !in charset
  {
    assert 63 !in Ascii("utf-8") && 63 !in Ascii("utf8");
    forall i | 0 <= i < |charset| ensures charset[i] != 63 {
      assert LowerBytes(charset)[i] in LowerBytes(charset);
      assert LowerBytes(charset)[i] == LowerByte(charset[i]);
    }
  }

  // The word `=?UTF-8?Q?=C3=A9?=` and what it says, `é`.

  function AccentName(): Bytes {
    [85, 84, 70, 45, 56]
  }

  function AccentText(): Bytes {
    [61, 67, 51, 61, 65, 57]
  }

  function Accent(): Bytes {
    [0xC3, 0xA9]
  }

  lemma NameOfAccent()
    ensures LowerBytes(AccentName()) == Ascii("utf-8")
  {
    assert LowerBytes(AccentName()) == [117, 116, 102, 45, 56];
    assert Ascii("utf-8") == [117, 116, 102, 45, 56];
  }

  lemma AccentIsSpelled()
    ensures Spells(AccentText(), Accent()) && Apart(AccentText(), 63, 61) && ValidUtf8(Accent())
  {
    var text, b := AccentText(), Accent();
    assert text[3..] == [61, 65, 57] && text[3..][3..] == [] && b[1..] == [0xA9] && b[1..][1..] == [];
    assert IsHexPair(67, 51, 0xC3) && IsHexPair(65, 57, 0xA9);
    assert Spells([], []);
    assert Spells([61, 65, 57], [0xA9]);
    assert CharLength(b) == 2;
  }

  /** The header `=?UTF-8?Q?=C3=A9?=` says `é`. */
  lemma AccentComesThrough(k: Codec)
    requires KeepsValid(k)
    ensures Decode2047(k, Encoded(AccentName(), 81, AccentText())) == Accent()
  {
    NameOfAccent();
    AccentIsSpelled();
    assert Apart([], 61, 63);
    hide Decode2047, Encoded, Spells, LowerBytes, Ascii, KeepsValid, ValidUtf8, AccentName, AccentText, Accent, Apart;
    Utf8WordSays(k, [], AccentName(), 81, AccentText(), Accent(), []);
    Alone(Encoded(AccentName(), 81, AccentText()));
    Alone(Accent());
  }

  lemma Alone(s: Bytes)
    ensures [] + s + [] == s
  {
  }

  // ----- Words after one another -----

  /** An encoded word in a header: its parts, the bytes its text stands for, and the white space behind it. */
  datatype HeaderWord = HeaderWord(charset: Bytes, e: Byte, text: Bytes, bytes: Bytes, gap: Bytes)

  predicate Readable(k: Codec, w: HeaderWord) {
    && 63 !in w.charset && w.e != 63 && Apart(w.text, 63, 61) && StandsFor(k, w.e, w.text, w.bytes) && Linear(w.gap)
  }

  function Line(words: seq<HeaderWord>): Bytes {
    if words == [] then []
    else if |words| == 1 then Encoded(words[0].charset, words[0].e, words[0].text)
    else Encoded(words[0].charset, words[0].e, words[0].text) + (words[0].gap + Line(words[1..]))
  }

  /** The texts of the words, one after another. */
  predicate Reads(k: Codec, words: seq<HeaderWord>, t: Bytes) {
    if words == [] then t == []
    else exists n: nat :: n <= |t| && Says(k, words[0].charset, words[0].bytes, t[..n]) && Reads(k, words[1..], t[n..])
  }

  lemma LineStartsWithWord(words: seq<HeaderWord>)
    requires words != []
    ensures |Line(words)| >= 2 && Line(words)[0] == 61 && Line(words)[1] == 63
  {
    var s := Encoded(words[0].charset, words[0].e, words[0].text);
    assert s[0] == 61 && s[1] == 63;
    hide Encoded;
    assert Line(words)[0] == s[0] && Line(words)[1] == s[1];
  }

  lemma ReadsOneMore(k: Codec, words: seq<HeaderWord>, t: Bytes, rest: Bytes)
    requires words != [] && Says(k, words[0].charset, words[0].bytes, t) && Reads(k, words[1..], rest)
    ensures Reads(k, words, t + rest)
  {
    hide Says;
    assert (t + rest)[..|t|] == t && (t + rest)[|t|..] == rest;
  }

  /** Words in any mix of character sets and encodings, with white space between, read as their texts run together. */
  lemma {:induction false} WordsReadInOrder(k: Codec, words: seq<HeaderWord>)
    requires forall i :: 0 <= i < |words| ==> Readable(k, words[i])
    ensures Reads(k, words, Decode2047(k, Line(words)))
  {
    if words == [] {
      PlainIsKept(k, []);
    } else {
      var w, rest := words[0], words[1..];
      var word := Encoded(w.charset, w.e, w.text);
      var behind := if rest == [] then [] else w.gap + Line(rest);
      assert Readable(k, w);
      assert Line(words) == word + behind by {
        assert word + [] == word;
      }
      if rest == [] {
        NoWordBehind([]);
      } else {
        LineStartsWithWord(rest);
        GapRule(w.gap, Line(rest));
      }
      assert forall i :: 0 <= i < |rest| ==> rest[i] == words[i + 1];
      WordsReadInOrder(k, rest);
      assert Line([]) == [];
      hide Decode2047, Encoded, Line, Reads, Says, StandsFor, WithoutGap, Linear;
      var t := WordSays(k, [], w.charset, w.e, w.text, behind);
      ReadsOneMore(k, words, t, Decode2047(k, Line(rest)));
      EmptyFront(word);
      EmptyFront(t);
    }
  }
}
