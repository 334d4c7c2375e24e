/** Unpadded URL-safe base64 (section 5 of RFC 4648) and lower-case hexadecimal (section 8). */
module Base64Url {
  import opened Bytes
  import opened Wrappers

  type Sextet = v: int | 0 <= v < 64

  function Symbol(v: Sextet): Byte {
    if v < 26 then 65 + v
    else if v < 52 then 97 + (v - 26)
    else if v < 62 then 48 + (v - 52)
    else if v == 62 then 45
    else 95
  }

  function Value(c: Byte): Option<Sextet> {
    if 65 <= c <= 90 then Some(c - 65)
    else if 97 <= c <= 122 then Some(c - 97 + 26)
    else if 48 <= c <= 57 then Some(c - 48 + 52)
    else if c == 45 then Some(62)
    else if c == 95 then Some(63)
    else None
  }

  lemma SymbolValue(v: Sextet, c: Byte)
    ensures Value(Symbol(v)) == Some(v)
    ensures Value(c).Some? ==> Symbol(Value(c).value) == c
  {
  }

  /** Three bytes in four symbols. */
  function Quad(b0: Byte, b1: Byte, b2: Byte): Bytes {
    [Symbol(b0 / 4), Symbol(b0 % 4 * 16 + b1 / 16), Symbol(b1 % 16 * 4 + b2 / 64), Symbol(b2 % 64)]
  }

  /** One or two last bytes in two or three symbols. */
  function EncodeTail(b: Bytes): Bytes
    requires 1 <= |b| <= 2
  {
    if |b| == 1 then [Symbol(b[0] / 4), Symbol(b[0] % 4 * 16)]
    else [Symbol(b[0] / 4), Symbol(b[0] % 4 * 16 + b[1] / 16), Symbol(b[1] % 16 * 4)]
  }

  function Encode(b: Bytes): (s: Bytes)
    ensures forall i :: 0 <= i < |s| ==> Value(s[i]).Some?
  {
    if b == [] then []
    else if |b| < 3 then EncodeTail(b)
    else Quad(b[0], b[1], b[2]) + Encode(b[3..])
  }

  function Triple(s: Bytes): Option<Bytes>
    requires |s| == 4
  {
    if Value(s[0]).None? || Value(s[1]).None? || Value(s[2]).None? || Value(s[3]).None? then None
    else
      var v0, v1, v2, v3 := Value(s[0]).value, Value(s[1]).value, Value(s[2]).value, Value(s[3]).value;
      Some([v0 * 4 + v1 / 16, v1 % 16 * 16 + v2 / 4, v2 % 4 * 64 + v3])
  }

  /** Rejects a lone symbol and leftover bits that are not zero. */
  function DecodeTail(s: Bytes): Option<Bytes>
    requires 1 <= |s| <= 3
  {
    if |s| == 1 || Value(s[0]).None? || Value(s[1]).None? then None
    else
      var v0, v1 := Value(s[0]).value, Value(s[1]).value;
      if |s| == 2 then
        if v1 % 16 == 0 then Some([v0 * 4 + v1 / 16]) else None
      else if Value(s[2]).None? then None
      else
        var v2 := Value(s[2]).value;
        if v2 % 4 == 0 then Some([v0 * 4 + v1 / 16, v1 % 16 * 16 + v2 / 4]) else None
  }

  /** Rejects symbols outside the alphabet and malformed ends. */
  function Decode(s: Bytes): Option<Bytes> {
    if s == [] then Some([])
    else if |s| < 4 then DecodeTail(s)
    else
      match Triple(s[..4])
      case None => None
      case Some(three) =>
        match Decode(s[4..])
        case None => None
        case Some(rest) => Some(three + rest)
  }

  /** Four sextets carry three bytes. */
  lemma Regroup(b0: Byte, b1: Byte, b2: Byte)
    ensures b0 / 4 * 4 + (b0 % 4 * 16 + b1 / 16) / 16 == b0
    ensures (b0 % 4 * 16 + b1 / 16) % 16 * 16 + (b1 % 16 * 4 + b2 / 64) / 4 == b1
    ensures (b1 % 16 * 4 + b2 / 64) % 4 * 64 + b2 % 64 == b2
  {
  }

  /** Three bytes carry four sextets. */
  lemma Ungroup(v0: Sextet, v1: Sextet, v2: Sextet, v3: Sextet)
    ensures var b0, b1, b2 := v0 * 4 + v1 / 16, v1 % 16 * 16 + v2 / 4, v2 % 4 * 64 + v3;
            && b0 / 4 == v0 && b0 % 4 * 16 + b1 / 16 == v1
            && b1 % 16 * 4 + b2 / 64 == v2 && b2 % 64 == v3
  {
  }

  lemma TripleOfQuad(b0: Byte, b1: Byte, b2: Byte)
    ensures Triple(Quad(b0, b1, b2)) == Some([b0, b1, b2])
  {
    SymbolValue(b0 / 4, 0);
    SymbolValue(b0 % 4 * 16 + b1 / 16, 0);
    SymbolValue(b1 % 16 * 4 + b2 / 64, 0);
    SymbolValue(b2 % 64, 0);
    Regroup(b0, b1, b2);
    hide Symbol, Value;
  }

  lemma QuadOfTriple(s: Bytes)
    requires |s| == 4 && Triple(s).Some?
    ensures var t := Triple(s).value; |t| == 3 && Quad(t[0], t[1], t[2]) == s
  {
    SymbolValue(0, s[0]);
    SymbolValue(0, s[1]);
    SymbolValue(0, s[2]);
    SymbolValue(0, s[3]);
    hide Symbol, Value;
    Ungroup(Value(s[0]).value, Value(s[1]).value, Value(s[2]).value, Value(s[3]).value);
    assert s == [s[0], s[1], s[2], s[3]];
  }

  lemma TailDecodes(b: Bytes)
    requires 1 <= |b| <= 2
    ensures DecodeTail(EncodeTail(b)) == Some(b)
  {
    SymbolValue(b[0] / 4, 0);
    if |b| == 1 {
      SymbolValue(b[0] % 4 * 16, 0);
      Regroup(b[0], 0, 0);
      assert b == [b[0]];
    } else {
      SymbolValue(b[0] % 4 * 16 + b[1] / 16, 0);
      SymbolValue(b[1] % 16 * 4, 0);
      Regroup(b[0], b[1], 0);
      assert b == [b[0], b[1]];
    }
    hide Symbol, Value;
  }

  lemma TailEncodes(s: Bytes)
    requires 1 <= |s| <= 3 && DecodeTail(s).Some?
    ensures var b := DecodeTail(s).value; 1 <= |b| <= 2 && EncodeTail(b) == s
  {
    hide Symbol, Value;
    SymbolValue(0, s[0]);
    SymbolValue(0, s[1]);
    if |s| == 2 {
      Ungroup(Value(s[0]).value, Value(s[1]).value, 0, 0);
      assert s == [s[0], s[1]];
    } else {
      SymbolValue(0, s[2]);
      Ungroup(Value(s[0]).value, Value(s[1]).value, Value(s[2]).value, 0);
      assert s == [s[0], s[1], s[2]];
    }
  }

  /** Decoding undoes encoding. */
  lemma {:induction false} DecodeEncode(b: Bytes)
    ensures Decode(Encode(b)) == Some(b)
  {
    hide Quad, Triple, EncodeTail, DecodeTail;
    if b != [] {
      if |b| < 3 {
        TailDecodes(b);
        TailLengths(b);
      } else {
        var front, rest := Quad(b[0], b[1], b[2]), Encode(b[3..]);
        assert |front| == 4 by { QuadLength(b[0], b[1], b[2]); }
        TripleOfQuad(b[0], b[1], b[2]);
        DecodeEncode(b[3..]);
        assert (front + rest)[..4] == front && (front + rest)[4..] == rest;
        assert b == [b[0], b[1], b[2]] + b[3..];
      }
    }
  }

  lemma QuadLength(b0: Byte, b1: Byte, b2: Byte)
    ensures |Quad(b0, b1, b2)| == 4
  {
  }

  lemma TailLengths(b: Bytes)
    requires 1 <= |b| <= 2
    ensures |EncodeTail(b)| == |b| + 1
  {
  }

  /** Only one text decodes to given bytes: the one encoding produces. */
  lemma {:induction false} EncodeDecode(s: Bytes)
    requires Decode(s).Some?
    ensures Encode(Decode(s).value) == s
  {
    hide Quad, Triple, EncodeTail, DecodeTail;
    if s != [] {
      var b := Decode(s).value;
      if |s| < 4 {
        TailEncodes(s);
      } else {
        var front, rest := Triple(s[..4]).value, Decode(s[4..]).value;
        QuadOfTriple(s[..4]);
        EncodeDecode(s[4..]);
        assert b[0] == front[0] && b[1] == front[1] && b[2] == front[2] && b[3..] == rest;
        assert s == s[..4] + s[4..];
      }
    }
  }

  lemma QuadsOfFoobar()
    ensures Quad(102, 111, 111) == [90, 109, 57, 118] && Quad(98, 97, 114) == [89, 109, 70, 121]
    ensures EncodeTail([102]) == [90, 103] && EncodeTail([102, 111]) == [90, 109, 56]
    ensures EncodeTail([251, 255]) == [45, 95, 56]
  {
  }

  /**
    Test vectors of section 10 of RFC 4648: `f`, `fo` and `foobar` in `Zg`, `Zm8` and `Zm9vYmFy`, without padding.
    The last one holds `-` and `_`, the symbols section 5 puts in for `+` and `/`.
   */
  lemma TestVectors()
    ensures Encode([102]) == [90, 103] && Encode([102, 111]) == [90, 109, 56]
    ensures Encode([102, 111, 111, 98, 97, 114]) == [90, 109, 57, 118, 89, 109, 70, 121]
    ensures Encode([251, 255]) == [45, 95, 56]
  {
    QuadsOfFoobar();
    hide Quad, EncodeTail;
    var foobar := [102, 111, 111, 98, 97, 114];
    assert foobar[3..] == [98, 97, 114] && foobar[3..][3..] == [];
    assert Encode([98, 97, 114]) == Quad(98, 97, 114) + Encode([]);
    assert Encode(foobar) == Quad(102, 111, 111) + Encode([98, 97, 114]);
  }

  // ----- Hexadecimal -----

  function HexDigit(v: int): Byte
    requires 0 <= v < 16
  {
    if v < 10 then 48 + v else 97 + (v - 10)
  }

  function HexValue(c: Byte): Option<int> {
    if 48 <= c <= 57 then Some(c - 48)
    else if 97 <= c <= 102 then Some(c - 97 + 10)
    else if 65 <= c <= 70 then Some(c - 65 + 10)
    else None
  }

  function EncodeHex(b: Bytes): (s: Bytes)
    ensures |s| == 2 * |b|
  {
    if b == [] then [] else [HexDigit(b[0] / 16), HexDigit(b[0] % 16)] + EncodeHex(b[1..])
  }

  /** Two characters as a number in base 16; a leading plus sign is accepted. */
  function ParseHexPair(hi: Byte, lo: Byte): Option<Byte> {
    if hi == 43 && HexValue(lo).Some? then Some(HexValue(lo).value)
    else if HexValue(hi).Some? && HexValue(lo).Some? then Some(HexValue(hi).value * 16 + HexValue(lo).value)
    else None
  }

  /** The sixteen digits, in order. */
  lemma HexDigitsInOrder()
    ensures EncodeHex([0x01, 0x23, 0x45, 0x67]) == [48, 49, 50, 51, 52, 53, 54, 55]
    ensures EncodeHex([0x89, 0xAB, 0xCD, 0xEF]) == [56, 57, 97, 98, 99, 100, 101, 102]
  {
    assert EncodeHex([0x67]) == [54, 55] + EncodeHex([]);
    assert EncodeHex([0x45, 0x67]) == [52, 53] + EncodeHex([0x67]);
    assert EncodeHex([0x23, 0x45, 0x67]) == [50, 51] + EncodeHex([0x45, 0x67]);
    assert EncodeHex([0x01, 0x23, 0x45, 0x67]) == [48, 49] + EncodeHex([0x23, 0x45, 0x67]);
    assert EncodeHex([0xEF]) == [101, 102] + EncodeHex([]);
    assert EncodeHex([0xCD, 0xEF]) == [99, 100] + EncodeHex([0xEF]);
    assert EncodeHex([0xAB, 0xCD, 0xEF]) == [97, 98] + EncodeHex([0xCD, 0xEF]);
    assert EncodeHex([0x89, 0xAB, 0xCD, 0xEF]) == [56, 57] + EncodeHex([0xAB, 0xCD, 0xEF]);
  }

  datatype HexResult = Hex(bytes: Bytes) | BadHex | SlicePanic

  /** Slicing text inside a character panics; the pairs are decoded left to right until one fails. */
  function DecodePairs(s: Bytes): HexResult
    requires |s| % 2 == 0
  {
    if s == [] then Hex([])
    else if IsContinuation(s[0]) || (|s| > 2 && IsContinuation(s[2])) then SlicePanic
    else
      match ParseHexPair(s[0], s[1])
      case None => BadHex
      case Some(b) =>
        match DecodePairs(s[2..])
        case Hex(rest) => Hex([b] + rest)
        case failure => failure
  }

  function DecodeHex(s: Bytes): HexResult {
    if |s| % 2 != 0 then BadHex else DecodePairs(s)
  }

  predicate IsLowerHex(c: Byte) {
    48 <= c <= 57 || 97 <= c <= 102
  }

  lemma PairDecodes(b: Byte)
    ensures ParseHexPair(HexDigit(b / 16), HexDigit(b % 16)) == Some(b)
    ensures IsLowerHex(HexDigit(b / 16)) && IsLowerHex(HexDigit(b % 16))
  {
  }

  lemma PairEncodes(hi: Byte, lo: Byte)
    requires IsLowerHex(hi) && IsLowerHex(lo)
    ensures ParseHexPair(hi, lo).Some?
    ensures var b := ParseHexPair(hi, lo).value; HexDigit(b / 16) == hi && HexDigit(b % 16) == lo
  {
  }

  /** A pair of ASCII characters in front of others is decoded on its own. */
  lemma DecodePairsStep(hi: Byte, lo: Byte, rest: Bytes)
    requires |rest| % 2 == 0 && hi < 128 && (rest != [] ==> rest[0] < 128)
    requires ParseHexPair(hi, lo).Some? && DecodePairs(rest).Hex?
    ensures DecodePairs([hi, lo] + rest) == Hex([ParseHexPair(hi, lo).value] + DecodePairs(rest).bytes)
  {
    hide ParseHexPair;
    assert ([hi, lo] + rest)[2..] == rest;
  }

  lemma {:induction false} EncodedIsLowerHex(b: Bytes)
    ensures forall c :: c in EncodeHex(b) ==> IsLowerHex(c)
  {
    if b != [] {
      PairDecodes(b[0]);
      EncodedIsLowerHex(b[1..]);
      hide HexDigit, IsLowerHex;
    }
  }

  lemma HexIsEven(b: Bytes)
    ensures |EncodeHex(b)| % 2 == 0 && DecodeHex(EncodeHex(b)) == DecodePairs(EncodeHex(b))
  {
    hide EncodeHex, DecodePairs;
  }

  lemma {:induction false} DecodeEncodeHex(b: Bytes)
    ensures DecodeHex(EncodeHex(b)) == Hex(b)
    ensures forall c :: c in EncodeHex(b) ==> IsLowerHex(c)
  {
    HexIsEven(b);
    EncodedIsLowerHex(b);
    if b != [] {
      var hi, lo, rest := HexDigit(b[0] / 16), HexDigit(b[0] % 16), EncodeHex(b[1..]);
      assert EncodeHex(b) == [hi, lo] + rest;
      PairDecodes(b[0]);
      HexIsEven(b[1..]);
      EncodedIsLowerHex(b[1..]);
      assert rest != [] ==> rest[0] in rest;
      hide ParseHexPair, HexDigit, DecodePairs, EncodeHex, DecodeHex;
      DecodeEncodeHex(b[1..]);
      DecodePairsStep(hi, lo, rest);
      assert b == [b[0]] + b[1..];
    }
  }

  /** Among lower-case hexadecimal texts only the encoding decodes to given bytes. */
  lemma {:induction false} EncodeDecodeHex(s: Bytes)
    requires DecodeHex(s).Hex? && forall c :: c in s ==> IsLowerHex(c)
    ensures EncodeHex(DecodeHex(s).bytes) == s
  {
    if s != [] {
      assert forall c :: c in s[2..] ==> c in s;
      assert s[0] in s && s[1] in s;
      PairEncodes(s[0], s[1]);
      hide ParseHexPair, HexDigit;
      EncodeDecodeHex(s[2..]);
      var b := DecodeHex(s).bytes;
      assert b[1..] == DecodeHex(s[2..]).bytes;
      assert s == [s[0], s[1]] + s[2..];
    }
  }

  // ----- Where reading a tag panics, and where it is unique -----

  predicate PairsParse(s: Bytes, n: nat) {
    2 * n <= |s| && forall i :: 0 <= i < n ==> PairParses(s, i)
  }

  predicate PairParses(s: Bytes, i: nat) {
    2 * i + 1 < |s| && ParseHexPair(s[2 * i], s[2 * i + 1]).Some?
  }

  /** The slice for pair `k` begins or ends inside a character. */
  predicate CutsCharacter(s: Bytes, k: nat) {
    2 * k + 1 < |s| && (IsContinuation(s[2 * k]) || (2 * k + 2 < |s| && IsContinuation(s[2 * k + 2])))
  }

  predicate PanicsAt(s: Bytes, k: nat) {
    CutsCharacter(s, k) && PairsParse(s, k)
  }

  /** Dropping the first pair shifts the others. */
  lemma PairsBehind(s: Bytes, k: nat)
    requires |s| >= 2
    ensures CutsCharacter(s, k + 1) <==> CutsCharacter(s[2..], k)
    ensures PairsParse(s, k + 1) <==> PairParses(s, 0) && PairsParse(s[2..], k)
  {
    hide ParseHexPair, IsContinuation;
    var rest := s[2..];
    forall i: nat ensures PairParses(s, i + 1) <==> PairParses(rest, i) {
      if 2 * i + 1 < |rest| {
        assert rest[2 * i] == s[2 * (i + 1)] && rest[2 * i + 1] == s[2 * (i + 1) + 1];
      }
    }
    if PairsParse(s, k + 1) {
      assert PairParses(s, 0);
      forall i | 0 <= i < k ensures PairParses(rest, i) {
        assert PairParses(s, i + 1);
      }
    }
    if PairParses(s, 0) && PairsParse(rest, k) {
      forall i | 0 <= i < k + 1 ensures PairParses(s, i) {
        if i > 0 { assert PairParses(rest, i - 1); }
      }
    }
  }

  lemma PanicsFirst(s: Bytes)
    requires |s| % 2 == 0 && s != []
    ensures DecodePairs(s) == SlicePanic <==>
            CutsCharacter(s, 0) || (PairParses(s, 0) && DecodePairs(s[2..]) == SlicePanic)
  {
    hide ParseHexPair, IsContinuation;
  }

  /** Reading panics exactly if a slice cuts a character before any pair fails to parse. */
  lemma {:induction false} PanicsIff(s: Bytes)
    requires |s| % 2 == 0
    ensures DecodePairs(s) == SlicePanic <==> exists k: nat :: PanicsAt(s, k)
    decreases |s|
  {
    if s != [] {
      var rest := s[2..];
      PanicsIff(rest);
      PanicsFirst(s);
      assert PairsParse(s, 0);
      hide PairsParse, PairParses, DecodePairs;
      if k: nat :| PanicsAt(s, k) {
        if k > 0 {
          PairsBehind(s, k - 1);
          assert PanicsAt(rest, k - 1);
        }
      }
      if DecodePairs(s) == SlicePanic {
        if CutsCharacter(s, 0) {
          assert PanicsAt(s, 0);
        } else {
          var k: nat :| PanicsAt(rest, k);
          PairsBehind(s, k);
          assert PanicsAt(s, k + 1);
        }
      }
    }
  }

  /** ASCII text never panics. */
  lemma AsciiNeverPanics(s: Bytes)
    requires forall i :: 0 <= i < |s| ==> s[i] < 128
    ensures DecodeHex(s) != SlicePanic
  {
    if |s| % 2 == 0 {
      PanicsIff(s);
    }
  }

  /** A tag text is the only spelling of its bytes exactly if it is lower-case hexadecimal throughout. */
  lemma PrintedIffLowerHex(s: Bytes)
    requires DecodeHex(s).Hex?
    ensures EncodeHex(DecodeHex(s).bytes) == s <==> forall c :: c in s ==> IsLowerHex(c)
  {
    EncodedIsLowerHex(DecodeHex(s).bytes);
    if forall c :: c in s ==> IsLowerHex(c) {
      EncodeDecodeHex(s);
    }
  }

  /** A plus sign stands for a zero, and capitals for lower-case letters. */
  lemma OtherSpellings()
    ensures DecodeHex(Ascii("0f")) == Hex([15])
    ensures DecodeHex(Ascii("+f")) == Hex([15]) && DecodeHex(Ascii("0F")) == Hex([15])
  {
    OnePair(48, 102);
    OnePair(43, 102);
    OnePair(48, 70);
    assert Ascii("0f") == [48, 102] && Ascii("+f") == [43, 102] && Ascii("0F") == [48, 70];
  }

  lemma OnePair(hi: Byte, lo: Byte)
    requires hi < 128 && ParseHexPair(hi, lo).Some?
    ensures DecodeHex([hi, lo]) == Hex([ParseHexPair(hi, lo).value])
  {
    hide ParseHexPair;
    DecodePairsStep(hi, lo, []);
    assert [hi, lo] + [] == [hi, lo];
  }
}
