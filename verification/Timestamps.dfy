/** `%Y-%m-%dT%H:%M:%SZ` timestamps: printing, text order and parsing. */
module Timestamps {
  import opened Calendar
  import opened Numerals
  import opened Words
  import opened Wrappers

  // ----- Text order -----

  /** The byte order SQLite compares TEXT by. */
  predicate TextLess(a: string, b: string) {
    b != "" && (a == "" || a[0] < b[0] || (a[0] == b[0] && TextLess(a[1..], b[1..])))
  }

  predicate TextLessEq(a: string, b: string) {
    a == b || TextLess(a, b)
  }

  /** Parts of equal length are compared first; what follows decides ties. */
  lemma {:induction false} TextLessConcat(a: string, b: string, x: string, y: string)
    requires |a| == |b|
    ensures TextLess(a + x, b + y) <==> TextLess(a, b) || (a == b && TextLess(x, y))
  {
    if a == "" {
      assert a + x == x && b + y == y;
    } else {
      assert (a + x)[1..] == a[1..] + x && (b + y)[1..] == b[1..] + y;
      assert a == b <==> a[0] == b[0] && a[1..] == b[1..] by {
        assert a == [a[0]] + a[1..] && b == [b[0]] + b[1..];
      }
      TextLessConcat(a[1..], b[1..], x, y);
    }
  }

  lemma {:induction false} TextOrderIsTotal(a: string, b: string)
    ensures !(TextLess(a, b) && TextLess(b, a)) && !TextLess(a, a)
    ensures TextLess(a, b) || a == b || TextLess(b, a)
  {
    if a != "" {
      TextOrderIsTotal(a[1..], if b == "" then b else b[1..]);
    }
    if a != "" && b != "" && a[0] == b[0] && a[1..] == b[1..] {
      assert a == [a[0]] + a[1..] && b == [b[0]] + b[1..];
    }
  }

  lemma {:induction false} TextOrderIsTransitive(a: string, b: string, c: string)
    requires TextLess(a, b) && TextLess(b, c)
    ensures TextLess(a, c)
  {
    if a != "" && a[0] == b[0] == c[0] {
      TextOrderIsTransitive(a[1..], b[1..], c[1..]);
    }
  }

  lemma TextLessEqTransitive(a: string, b: string, c: string)
    requires TextLessEq(a, b) && TextLessEq(b, c)
    ensures TextLessEq(a, c)
  {
    if a != b && b != c {
      TextOrderIsTransitive(a, b, c);
    }
  }

  // ----- Fixed-width decimals -----

  function Pow10(width: nat): (p: int)
    ensures p >= 1
  {
    if width == 0 then 1 else 10 * Pow10(width - 1)
  }

  /** `n` zero-padded to `width` digits. */
  function Digits(n: int, width: nat): (s: string)
    requires 0 <= n < Pow10(width)
    ensures |s| == width && forall i :: 0 <= i < |s| ==> IsDigit(s[i])
  {
    if width == 0 then "" else Digits(n / 10, width - 1) + [DigitChar(n % 10)]
  }

  lemma {:induction false} DigitsOrder(m: int, n: int, width: nat)
    requires 0 <= m < Pow10(width) && 0 <= n < Pow10(width)
    ensures TextLess(Digits(m, width), Digits(n, width)) <==> m < n
    ensures Digits(m, width) == Digits(n, width) <==> m == n
  {
    if width > 0 {
      var a, b := Digits(m / 10, width - 1), Digits(n / 10, width - 1);
      var x, y := [DigitChar(m % 10)], [DigitChar(n % 10)];
      DigitsOrder(m / 10, n / 10, width - 1);
      TextLessConcat(a, b, x, y);
      assert TextLess(x, y) <==> m % 10 < n % 10;
      assert a + x == b + y <==> a == b && x == y by {
        if a + x == b + y {
          assert a == (a + x)[..width - 1] && b == (b + y)[..width - 1];
          assert x == (a + x)[width - 1..] && y == (b + y)[width - 1..];
        }
      }
    }
  }

  // ----- Printing -----

  predicate FourDigitYear(dt: DateTime) {
    0 <= dt.year <= 9999
  }

  function Date(dt: DateTime): string
    requires Valid(dt) && FourDigitYear(dt)
  {
    assert Pow10(2) == 100 && Pow10(4) == 10000 by { assert Pow10(1) == 10; }
    Digits(dt.year, 4) + "-" + Digits(dt.month, 2) + "-" + Digits(dt.day, 2)
  }

  function TimeOfDay(dt: DateTime): string
    requires Valid(dt)
  {
    assert Pow10(2) == 100 by { assert Pow10(1) == 10; }
    Digits(dt.hour, 2) + ":" + Digits(dt.minute, 2) + ":" + Digits(dt.second, 2)
  }

  /** The timestamp format of the application. */
  function Iso(dt: DateTime): string
    requires Valid(dt) && FourDigitYear(dt)
  {
    Date(dt) + "T" + TimeOfDay(dt) + "Z"
  }

  /** The timestamp of an instant. */
  ghost function Stamp(t: int): string
    requires Representable(t)
  {
    Iso(CivilOf(t))
  }

  /** Order and equality of a pair of fields joined by a separator. */
  lemma JoinOrder(a: string, b: string, sep: char, x: string, y: string)
    requires |a| == |b|
    ensures TextLess(a + [sep] + x, b + [sep] + y) <==> TextLess(a, b) || (a == b && TextLess(x, y))
    ensures a + [sep] + x == b + [sep] + y <==> a == b && x == y
  {
    assert a + [sep] + x == a + ([sep] + x) && b + [sep] + y == b + ([sep] + y);
    TextLessConcat(a, b, [sep] + x, [sep] + y);
    TextLessConcat([sep], [sep], x, y);
    assert !TextLess([sep], [sep]);
    if a + [sep] + x == b + [sep] + y {
      assert a == (a + [sep] + x)[..|a|] && b == (b + [sep] + y)[..|b|];
      assert x == (a + [sep] + x)[|a| + 1..] && y == (b + [sep] + y)[|b| + 1..];
    }
  }

  lemma DateOrder(a: DateTime, b: DateTime)
    requires Valid(a) && Valid(b) && FourDigitYear(a) && FourDigitYear(b)
    ensures TextLess(Date(a), Date(b)) <==>
            a.year < b.year || (a.year == b.year && (a.month < b.month || (a.month == b.month && a.day < b.day)))
    ensures Date(a) == Date(b) <==> a.year == b.year && a.month == b.month && a.day == b.day
  {
    assert Pow10(2) == 100 && Pow10(4) == 10000 by { assert Pow10(1) == 10; }
    DigitsOrder(a.year, b.year, 4);
    DigitsOrder(a.month, b.month, 2);
    DigitsOrder(a.day, b.day, 2);
    JoinOrder(Digits(a.year, 4), Digits(b.year, 4), '-', Digits(a.month, 2), Digits(b.month, 2));
    JoinOrder(Digits(a.year, 4) + "-" + Digits(a.month, 2), Digits(b.year, 4) + "-" + Digits(b.month, 2),
              '-', Digits(a.day, 2), Digits(b.day, 2));
  }

  lemma TimeOrder(a: DateTime, b: DateTime)
    requires Valid(a) && Valid(b)
    ensures TextLess(TimeOfDay(a), TimeOfDay(b)) <==>
            a.hour < b.hour || (a.hour == b.hour &&
              (a.minute < b.minute || (a.minute == b.minute && a.second < b.second)))
    ensures TimeOfDay(a) == TimeOfDay(b) <==> a.hour == b.hour && a.minute == b.minute && a.second == b.second
  {
    assert Pow10(2) == 100 by { assert Pow10(1) == 10; }
    DigitsOrder(a.hour, b.hour, 2);
    DigitsOrder(a.minute, b.minute, 2);
    DigitsOrder(a.second, b.second, 2);
    JoinOrder(Digits(a.hour, 2), Digits(b.hour, 2), ':', Digits(a.minute, 2), Digits(b.minute, 2));
    JoinOrder(Digits(a.hour, 2) + ":" + Digits(a.minute, 2), Digits(b.hour, 2) + ":" + Digits(b.minute, 2),
              ':', Digits(a.second, 2), Digits(b.second, 2));
  }

  /** For the years 0000 to 9999 the text order of timestamps is the order of the instants they name. */
  lemma TextOrderIsTimeOrder(a: DateTime, b: DateTime)
    requires Valid(a) && Valid(b) && FourDigitYear(a) && FourDigitYear(b)
    ensures TextLess(Iso(a), Iso(b)) <==> EpochOf(a) < EpochOf(b)
    ensures Iso(a) == Iso(b) <==> EpochOf(a) == EpochOf(b)
  {
    DateOrder(a, b);
    TimeOrder(a, b);
    EpochOrder(a, b);
    JoinOrder(Date(a), Date(b), 'T', TimeOfDay(a), TimeOfDay(b));
    var x, y := Date(a) + "T" + TimeOfDay(a), Date(b) + "T" + TimeOfDay(b);
    JoinOrder(x, y, 'Z', "", "");
    assert x + ['Z'] + "" == Iso(a) && y + ['Z'] + "" == Iso(b);
  }

  lemma StampOrder(s: int, t: int)
    requires Representable(s) && Representable(t)
    ensures TextLess(Stamp(s), Stamp(t)) <==> s < t
    ensures Stamp(s) == Stamp(t) <==> s == t
    ensures TextLessEq(Stamp(s), Stamp(t)) <==> s <= t
  {
    TextOrderIsTimeOrder(CivilOf(s), CivilOf(t));
  }

  // ----- Reading fields back -----

  lemma {:induction false} DigitsValueOf(n: int, width: nat)
    requires 0 <= n < Pow10(width)
    ensures DigitsValue(Digits(n, width)) == n
  {
    if width > 0 {
      var s := Digits(n, width);
      assert s[..width - 1] == Digits(n / 10, width - 1);
      DigitsValueOf(n / 10, width - 1);
    }
  }

  lemma ParsePrinted(n: int, width: nat)
    requires 0 <= n < Pow10(width) && width > 0
    ensures ParseSigned(Digits(n, width)) == ParseUnsigned(Digits(n, width)) == Some(n)
  {
    DigitsValueOf(n, width);
    var s := Digits(n, width);
    assert IsDigit(s[0]);
  }

  /** Where each field sits in a printed timestamp. */
  lemma IsoLayout(dt: DateTime)
    requires Valid(dt) && FourDigitYear(dt)
    ensures Pow10(2) == 100 && Pow10(4) == 10000
    ensures var s := Iso(dt);
            && |s| == 20 && IsDigit(s[0]) && s[19] == 'Z'
            && s[4] == '-' && s[7] == '-' && s[10] == 'T' && s[13] == ':' && s[16] == ':'
            && s[0..4] == Digits(dt.year, 4)
            && s[5..7] == Digits(dt.month, 2)
            && s[8..10] == Digits(dt.day, 2)
            && s[11..13] == Digits(dt.hour, 2)
            && s[14..16] == Digits(dt.minute, 2)
            && s[17..19] == Digits(dt.second, 2)
  {
    assert Pow10(2) == 100 && Pow10(4) == 10000 by { assert Pow10(1) == 10; }
    var d, t := Date(dt), TimeOfDay(dt);
    var s := Iso(dt);
    assert |d| == 10 && |t| == 8 && IsDigit(d[0]);
    assert s[0..10] == d && s[11..19] == t;
    assert d[0..4] == Digits(dt.year, 4) && d[5..7] == Digits(dt.month, 2) && d[8..10] == Digits(dt.day, 2);
    assert t[0..2] == Digits(dt.hour, 2) && t[3..5] == Digits(dt.minute, 2) && t[6..8] == Digits(dt.second, 2);
    forall i, j | 0 <= i <= j <= 10 ensures s[i..j] == d[i..j] {
      assert s[i..j] == s[0..10][i..j];
    }
    forall i, j | 0 <= i <= j <= 8 ensures s[11 + i..11 + j] == t[i..j] {
      assert s[11 + i..11 + j] == s[11..19][i..j];
    }
    assert s[11 + 0..11 + 2] == t[0..2] && s[11 + 3..11 + 5] == t[3..5] && s[11 + 6..11 + 8] == t[6..8];
  }

  lemma SliceParses(s: string, lo: nat, hi: nat, n: int, width: nat)
    requires lo <= hi <= |s| && width > 0 && 0 <= n < Pow10(width) && s[lo..hi] == Digits(n, width)
    ensures ParseSigned(s[lo..hi]) == ParseUnsigned(s[lo..hi]) == Some(n)
  {
    ParsePrinted(n, width);
  }
}
