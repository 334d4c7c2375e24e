/** UTF-8 as code points: what the byte-level checks of characters and white space mean. */
module Utf8Text {
  import opened Bytes
  import Words

  /** A Unicode scalar value. */
  predicate IsScalar(c: int) {
    0 <= c < 0xD800 || 0xE000 <= c < 0x110000
  }

  /** The shortest encoding of a code point (section 3 of RFC 3629). */
  function EncodeCode(c: int): Bytes
    requires IsScalar(c)
  {
    if c < 0x80 then [c]
    else if c < 0x800 then [0xC0 + c / 64, 0x80 + c % 64]
    else if c < 0x10000 then [0xE0 + c / 4096, 0x80 + c / 64 % 64, 0x80 + c % 64]
    else [0xF0 + c / 262144, 0x80 + c / 4096 % 64, 0x80 + c / 64 % 64, 0x80 + c % 64]
  }

  /** What a continuation byte adds. */
  function Low(b: Byte): int {
    b as int - 0x80
  }

  /** The code point at the head of well-formed text. */
  function FirstCode(s: Bytes): int
    requires CharLength(s) > 0
  {
    var n, lead := CharLength(s), s[0] as int;
    if n == 1 then lead
    else if n == 2 then 64 * (lead - 0xC0) + Low(s[1])
    else if n == 3 then 4096 * (lead - 0xE0) + 64 * Low(s[1]) + Low(s[2])
    else 262144 * (lead - 0xF0) + 4096 * Low(s[1]) + 64 * Low(s[2]) + Low(s[3])
  }

  /** The code points of well-formed text. */
  function Codes(s: Bytes): seq<int>
    requires ValidUtf8(s)
    decreases |s|
  {
    if s == [] then [] else [FirstCode(s)] + Codes(s[CharLength(s)..])
  }

  /** The head of well-formed text is the shortest encoding of a scalar value. */
  lemma HeadIsScalar(s: Bytes)
    requires CharLength(s) > 0
    ensures IsScalar(FirstCode(s)) && s[..CharLength(s)] == EncodeCode(FirstCode(s))
  {
    var c := FirstCode(s);
    if CharLength(s) == 3 {
      ThreeBytes(s[0] as int - 0xE0, Low(s[1]), Low(s[2]));
    } else if CharLength(s) == 4 {
      FourBytes(s[0] as int - 0xF0, Low(s[1]), Low(s[2]), Low(s[3]));
    }
  }

  lemma ThreeBytes(a: int, b: int, c: int)
    requires 0 <= b < 64 && 0 <= c < 64
    ensures var n := 4096 * a + 64 * b + c; n / 4096 == a && n / 64 % 64 == b && n % 64 == c
  {
    var n := 4096 * a + 64 * b + c;
    assert n / 64 == 64 * a + b;
  }

  lemma FourBytes(a: int, b: int, c: int, d: int)
    requires 0 <= b < 64 && 0 <= c < 64 && 0 <= d < 64
    ensures var n := 262144 * a + 4096 * b + 64 * c + d;
            n / 262144 == a && n / 4096 % 64 == b && n / 64 % 64 == c && n % 64 == d
  {
    var n := 262144 * a + 4096 * b + 64 * c + d;
    assert n / 64 == 4096 * a + 64 * b + c;
    assert n / 4096 == 64 * a + b;
  }

  lemma ThreeParts(c: int)
    ensures c == 4096 * (c / 4096) + 64 * (c / 64 % 64) + c % 64
    ensures c / 4096 == 0 ==> c / 64 % 64 == c / 64
  {
    assert c / 4096 == c / 64 / 64;
  }

  lemma FourParts(c: int)
    ensures c == 262144 * (c / 262144) + 4096 * (c / 4096 % 64) + 64 * (c / 64 % 64) + c % 64
  {
    assert c / 4096 == c / 64 / 64;
    assert c / 262144 == c / 4096 / 64;
  }

  lemma ReadThree(c: int, s: Bytes)
    requires 0x800 <= c < 0x10000 && IsScalar(c) && |s| >= 3
    requires s[0] == 0xE0 + c / 4096 && s[1] == 0x80 + c / 64 % 64 && s[2] == 0x80 + c % 64
    ensures CharLength(s) == 3 && FirstCode(s) == c
  {
    ThreeParts(c);
  }

  lemma ReadFour(c: int, s: Bytes)
    requires 0x10000 <= c < 0x110000 && |s| >= 4
    requires s[0] == 0xF0 + c / 262144 && s[1] == 0x80 + c / 4096 % 64
    requires s[2] == 0x80 + c / 64 % 64 && s[3] == 0x80 + c % 64
    ensures CharLength(s) == 4 && FirstCode(s) == c
  {
    FourParts(c);
  }

  /** Every scalar value's encoding is read back as one character. */
  lemma ScalarIsRead(c: int, rest: Bytes)
    requires IsScalar(c)
    ensures var s := EncodeCode(c) + rest; CharLength(s) == |EncodeCode(c)| && FirstCode(s) == c
  {
    var e := EncodeCode(c);
    var s := e + rest;
    assert s[0] == e[0] && (|e| > 1 ==> s[1] == e[1]) && (|e| > 2 ==> s[2] == e[2]) && (|e| > 3 ==> s[3] == e[3]);
    if 0x800 <= c < 0x10000 {
      ReadThree(c, s);
    } else if c >= 0x10000 {
      ReadFour(c, s);
    }
  }

  /** The bytes that count as white space are those of the white-space characters. */
  lemma SpaceIsWhiteSpace(s: Bytes)
    requires CharLength(s) > 0
    ensures IsScalar(FirstCode(s))
    ensures SpaceLength(s) == if Words.IsSpace(FirstCode(s) as char) then CharLength(s) else 0
  {
    HeadIsScalar(s);
  }
}
