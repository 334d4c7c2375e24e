/** Byte strings: ASCII, UTF-8 validity and Unicode white space, as seen by code that indexes text by bytes. */
module Bytes {

  type Byte = b: int | 0 <= b < 256

  type Bytes = seq<Byte>

  predicate IsAscii(s: string) {
    forall i :: 0 <= i < |s| ==> s[i] as int < 128
  }

  /** The bytes of an ASCII literal. */
  function Ascii(s: string): (b: Bytes)
    requires IsAscii(s)
    ensures |b| == |s| && forall i :: 0 <= i < |b| ==> b[i] == s[i] as int
  {
    seq(|s|, i requires 0 <= i < |s| => s[i] as int)
  }

  /** The text of ASCII bytes. */
  function Text(b: Bytes): (s: string)
    requires forall i :: 0 <= i < |b| ==> b[i] < 128
    ensures |s| == |b| && forall i :: 0 <= i < |s| ==> s[i] as int == b[i]
  {
    seq(|b|, i requires 0 <= i < |b| => b[i] as char)
  }

  function LowerByte(b: Byte): Byte {
    if 65 <= b <= 90 then b + 32 else b
  }

  function LowerBytes(s: Bytes): (r: Bytes)
    ensures |r| == |s|
  {
    seq(|s|, i requires 0 <= i < |s| => LowerByte(s[i]))
  }

  /** `eq_ignore_ascii_case`. */
  predicate SameLetter(a: Byte, b: Byte) {
    LowerByte(a) == LowerByte(b)
  }

  predicate SameLetters(a: Bytes, b: Bytes) {
    |a| == |b| && forall i :: 0 <= i < |a| ==> SameLetter(a[i], b[i])
  }

  predicate HasPrefix(s: Bytes, p: Bytes) {
    |p| <= |s| && s[..|p|] == p
  }

  /** Index of the first occurrence of a byte, or the length. */
  function IndexOf(s: Bytes, c: Byte): (n: nat)
    ensures n <= |s| && c !in s[..n]
    ensures n < |s| ==> s[n] == c
    ensures c in s <==> n < |s|
  {
    if s == [] || s[0] == c then 0
    else
      var n := 1 + IndexOf(s[1..], c);
      assert s[..n] == [s[0]] + s[1..][..n - 1];
      assert s == [s[0]] + s[1..];
      n
  }

  /** The first occurrence is where nothing before it matches. */
  lemma {:induction false} IndexOfAt(s: Bytes, c: Byte, n: nat)
    requires n < |s| && c !in s[..n] && s[n] == c
    ensures IndexOf(s, c) == n
  {
    if n > 0 {
      assert s[0] in s[..n];
      assert s[1..][..n - 1] == s[..n][1..];
      IndexOfAt(s[1..], c, n - 1);
    }
  }

  // ----- UTF-8 -----

  predicate IsContinuation(b: Byte) {
    0x80 <= b <= 0xBF
  }

  /** Length of the well-formed character at the head of the text, or 0. */
  function CharLength(s: Bytes): (n: nat)
    ensures n <= |s| && n <= 4
    ensures forall i :: 0 < i < n ==> s[i] >= 0x80
  {
    if s == [] then 0
    else if s[0] < 0x80 then 1
    else if 0xC2 <= s[0] <= 0xDF then
      if |s| >= 2 && IsContinuation(s[1]) then 2 else 0
    else if 0xE0 <= s[0] <= 0xEF then
      if |s| >= 3 && IsContinuation(s[1]) && IsContinuation(s[2]) && (s[0] == 0xE0 ==> s[1] >= 0xA0)
         && (s[0] == 0xED ==> s[1] <= 0x9F) then 3 else 0
    else if 0xF0 <= s[0] <= 0xF4 then
      if |s| >= 4 && IsContinuation(s[1]) && IsContinuation(s[2]) && IsContinuation(s[3])
         && (s[0] == 0xF0 ==> s[1] >= 0x90) && (s[0] == 0xF4 ==> s[1] <= 0x8F) then 4 else 0
    else 0
  }

  predicate ValidUtf8(s: Bytes)
    decreases |s|
  {
    s == [] || (CharLength(s) > 0 && ValidUtf8(s[CharLength(s)..]))
  }

  /** An ASCII byte is a character boundary: text is well formed exactly when it is on both sides of one. */
  lemma {:induction false} ValidAroundAscii(a: Bytes, q: Byte, b: Bytes)
    requires q < 0x80
    ensures ValidUtf8(a + [q] + b) <==> ValidUtf8(a) && ValidUtf8(b)
    decreases |a|
  {
    var s := a + [q] + b;
    if a == [] {
      assert s == [q] + b && s[1..] == b;
    } else {
      var n := CharLength(s);
      assert s[|a|] == q;
      assert CharLength(a) == n by {
        assert forall i :: 0 <= i < |a| ==> s[i] == a[i];
      }
      if n > 0 {
        assert s[n..] == a[n..] + [q] + b;
        ValidAroundAscii(a[n..], q, b);
      }
    }
  }

  lemma {:induction false} ValidConcat(a: Bytes, b: Bytes)
    requires ValidUtf8(a) && ValidUtf8(b)
    ensures ValidUtf8(a + b)
    decreases |a|
  {
    if a == [] {
      assert a + b == b;
    } else {
      var n := CharLength(a);
      assert CharLength(a + b) == n by {
        assert forall i :: 0 <= i < |a| ==> (a + b)[i] == a[i];
      }
      assert (a + b)[n..] == a[n..] + b;
      ValidConcat(a[n..], b);
    }
  }

  // ----- White space -----

  /** Length of the white-space character at the head of the text, or 0 (Unicode `White_Space`). */
  function SpaceLength(s: Bytes): (n: nat)
    ensures n <= |s|
  {
    if s == [] then 0
    else if 9 <= s[0] <= 13 || s[0] == 32 then 1
    else if |s| >= 2 && s[0] == 0xC2 && (s[1] == 0x85 || s[1] == 0xA0) then 2
    else if |s| >= 3 && (
      || (s[0] == 0xE1 && s[1] == 0x9A && s[2] == 0x80)
      || (s[0] == 0xE2 && s[1] == 0x80 && (0x80 <= s[2] <= 0x8A || s[2] == 0xA8 || s[2] == 0xA9 || s[2] == 0xAF))
      || (s[0] == 0xE2 && s[1] == 0x81 && s[2] == 0x9F)
      || (s[0] == 0xE3 && s[1] == 0x80 && s[2] == 0x80)) then 3
    else 0
  }

  lemma SpaceInLonger(a: Bytes, b: Bytes)
    requires SpaceLength(a) > 0
    ensures SpaceLength(a + b) == SpaceLength(a)
  {
    assert (a + b)[0] == a[0];
    assert |a| >= 2 ==> (a + b)[1] == a[1];
    assert |a| >= 3 ==> (a + b)[2] == a[2];
  }

  function TrimStart(s: Bytes): (r: Bytes)
    ensures |r| <= |s| && r == s[|s| - |r|..]
    decreases |s|
  {
    var n := SpaceLength(s);
    if n > 0 then TrimStart(s[n..]) else s
  }

  /** Length of the white-space character at the end of the text, or 0. */
  function SpaceAtEnd(s: Bytes): (n: nat)
    ensures n <= |s|
  {
    if |s| >= 1 && SpaceLength(s[|s| - 1..]) == 1 then 1
    else if |s| >= 2 && SpaceLength(s[|s| - 2..]) == 2 then 2
    else if |s| >= 3 && SpaceLength(s[|s| - 3..]) == 3 then 3
    else 0
  }

  function TrimEnd(s: Bytes): (r: Bytes)
    ensures |r| <= |s| && r == s[..|r|]
    decreases |s|
  {
    var n := SpaceAtEnd(s);
    if n > 0 then TrimEnd(s[..|s| - n]) else s
  }

  lemma NothingAhead(s: Bytes)
    requires s != [] && 33 <= s[0] < 128
    ensures TrimStart(s) == s
  {
  }

  /** ASCII white space: tabs, line breaks and spaces. */
  predicate AsciiBlank(s: Bytes) {
    forall i :: 0 <= i < |s| ==> 9 <= s[i] <= 13 || s[i] == 32
  }

  lemma {:induction false} BlanksAhead(a: Bytes, s: Bytes)
    requires AsciiBlank(a) && s != [] && 33 <= s[0] < 128
    ensures TrimStart(a + s) == s
  {
    if a == [] {
      assert a + s == s;
    } else {
      assert (a + s)[1..] == a[1..] + s;
      BlanksAhead(a[1..], s);
    }
  }

  lemma {:induction false} BlanksBehind(s: Bytes, b: Bytes)
    requires AsciiBlank(b) && s != [] && 33 <= s[|s| - 1] < 128
    ensures TrimEnd(s + b) == s
  {
    if b == [] {
      assert s + b == s;
      NothingBehind(s);
    } else {
      var t, n := s + b, |s| + |b| - 1;
      assert t[n..] == [b[|b| - 1]] && t[..n] == s + b[..|b| - 1];
      BlanksBehind(s, b[..|b| - 1]);
    }
  }

  lemma SpaceBytes(s: Bytes)
    ensures SpaceLength(s) == 1 ==> s[0] <= 32
    ensures SpaceLength(s) == 2 ==> s[1] >= 0x80
    ensures SpaceLength(s) == 3 ==> s[2] >= 0x80
  {
  }

  lemma NothingBehind(s: Bytes)
    requires s != [] && 33 <= s[|s| - 1] < 128
    ensures TrimEnd(s) == s
  {
    SpaceBytes(s[|s| - 1..]);
    if |s| >= 2 { SpaceBytes(s[|s| - 2..]); }
    if |s| >= 3 { SpaceBytes(s[|s| - 3..]); }
    hide SpaceLength;
  }
}
