/** Decimal numerals: single digits, printing without leading zeros, and integer parsing. */
module Numerals {
  import opened Wrappers

  predicate IsDigit(c: char) {
    '0' <= c <= '9'
  }

  function DigitChar(d: int): char
    requires 0 <= d < 10
  {
    '0' + d as char
  }

  function DigitValue(c: char): int
    requires IsDigit(c)
  {
    c as int - '0' as int
  }

  /** Decimal digits only, at least one of them. */
  predicate AllDigits(s: string) {
    s != "" && forall i :: 0 <= i < |s| ==> IsDigit(s[i])
  }

  function DigitsValue(s: string): (n: int)
    requires forall i :: 0 <= i < |s| ==> IsDigit(s[i])
    ensures n >= 0
  {
    if s == "" then 0 else 10 * DigitsValue(s[..|s| - 1]) + DigitValue(s[|s| - 1])
  }

  /** Signed integer parsing: an optional sign, then digits. */
  function ParseSigned(s: string): Option<int> {
    if AllDigits(s) then Some(DigitsValue(s))
    else if s != "" && s[0] == '+' && AllDigits(s[1..]) then Some(DigitsValue(s[1..]))
    else if s != "" && s[0] == '-' && AllDigits(s[1..]) then Some(-DigitsValue(s[1..]))
    else None
  }

  /** Unsigned integer parsing: a plus sign is allowed, a minus sign is not. */
  function ParseUnsigned(s: string): Option<int> {
    if s != "" && s[0] == '-' then None else ParseSigned(s)
  }

  /** Decimal digits of `n`, without leading zeros. */
  function Decimal(n: nat): (s: string)
    ensures AllDigits(s)
  {
    if n < 10 then [DigitChar(n)] else Decimal(n / 10) + [DigitChar(n % 10)]
  }

  /** An integer as `{}` prints it. */
  function PrintInt(n: int): string {
    if n < 0 then "-" + Decimal(-n) else Decimal(n)
  }

  lemma {:induction false} DecimalValue(n: nat)
    ensures DigitsValue(Decimal(n)) == n
  {
    var s := Decimal(n);
    if n >= 10 {
      assert s[..|s| - 1] == Decimal(n / 10);
      DecimalValue(n / 10);
    } else {
      assert s[..0] == "";
    }
  }

  /** Printed numbers have no leading zero. */
  lemma {:induction false} NoLeadingZero(n: nat)
    requires n > 0
    ensures Decimal(n)[0] != '0'
  {
    if n >= 10 {
      NoLeadingZero(n / 10);
    }
  }

  /** Printing is injective. */
  lemma DecimalIsInjective(m: nat, n: nat)
    ensures Decimal(m) == Decimal(n) <==> m == n
  {
    DecimalValue(m);
    DecimalValue(n);
  }

  /** A number may carry a sign in front of its digits. */
  lemma SignedForms(n: int)
    requires n >= 0
    ensures ParseSigned("+" + Decimal(n)) == Some(n) && ParseSigned("-" + Decimal(n)) == Some(-n)
    ensures ParseUnsigned("+" + Decimal(n)) == Some(n) && ParseUnsigned("-" + Decimal(n)) == None
  {
    DecimalValue(n);
    var plus, minus := "+" + Decimal(n), "-" + Decimal(n);
    assert plus[1..] == Decimal(n) && minus[1..] == Decimal(n);
    assert !IsDigit(plus[0]) && !IsDigit(minus[0]);
  }

  /** Parsing undoes printing. */
  lemma ParsePrintedInt(n: int)
    ensures ParseSigned(PrintInt(n)) == Some(n)
  {
    if n < 0 {
      var s := PrintInt(n);
      assert s[1..] == Decimal(-n);
      assert s[0] == '-' && !IsDigit(s[0]);
      DecimalValue(-n);
    } else {
      DecimalValue(n);
    }
  }
}
