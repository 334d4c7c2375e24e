/** Reading timestamps from header text, which is cut by byte positions. */
module IsoParser {
  import opened Bytes
  import opened Calendar
  import opened Numerals
  import opened Timestamps
  import opened Wrappers

  /** A slice that begins or ends inside a character panics. */
  datatype Parsed = Epoch(value: int) | Malformed | Panics

  datatype Fields = Values(values: seq<int>) | BadField | CutField

  /** Where the fields sit; the separators and anything behind the seconds are not looked at. */
  const COUNT := 6

  function From(n: nat): (i: nat)
    requires n < COUNT
    ensures i <= 17
  {
    [0, 5, 8, 11, 14, 17][n]
  }

  function Upto(n: nat): (i: nat)
    requires n < COUNT
    ensures From(n) < i <= 19
  {
    [4, 7, 10, 13, 16, 19][n]
  }

  predicate IsBoundary(s: Bytes, i: nat) {
    i >= |s| || !IsContinuation(s[i])
  }

  predicate FieldIsCut(s: Bytes, n: nat)
    requires n < COUNT
  {
    !IsBoundary(s, From(n)) || !IsBoundary(s, Upto(n))
  }

  /** The number in field `n`; only the year may carry a minus sign. */
  function FieldValue(s: Bytes, n: nat): Option<int>
    requires n < COUNT && |s| >= 19
  {
    var b := s[From(n)..Upto(n)];
    if exists i :: 0 <= i < |b| && b[i] >= 128 then None
    else if n == 0 then ParseSigned(Text(b))
    else ParseUnsigned(Text(b))
  }

  /** The fields from number `n` on, read one after the other up to the first that fails. */
  function FieldsFrom(s: Bytes, n: nat): (r: Fields)
    requires n <= COUNT && |s| >= 19
    ensures r.Values? ==> |r.values| == COUNT - n
    decreases COUNT - n
  {
    if n == COUNT then Values([])
    else if FieldIsCut(s, n) then CutField
    else
      match FieldValue(s, n)
      case None => BadField
      case Some(v) =>
        match FieldsFrom(s, n + 1)
        case Values(vs) => Values([v] + vs)
        case failure => failure
  }

  /** The values cut to the widths of the date record. */
  function DateOf(v: seq<int>): DateTime
    requires |v| == COUNT
  {
    DateTime(v[0] % 0x1_0000, v[1] % 0x100, v[2] % 0x100, v[3] % 0x100, v[4] % 0x100, v[5] % 0x100, false, 0, 0)
  }

  /** The text without white space around it. */
  function Trimmed(s: Bytes): Bytes {
    TrimEnd(TrimStart(s))
  }

  function EpochIn(s: Bytes): Parsed {
    var t := Trimmed(s);
    if |t| < 19 then Malformed
    else
      match FieldsFrom(t, 0)
      case CutField => Panics
      case BadField => Malformed
      case Values(v) => Epoch(EpochOf(DateOf(v)))
  }

  method ParseIso8601ToEpoch(s: Bytes) returns (r: Parsed)
    ensures r == EpochIn(s)
    ensures forall dt :: Valid(dt) && FourDigitYear(dt) && IsPrinted(s, dt) ==> r == Epoch(EpochOf(dt))
    ensures (forall i :: 0 <= i < |s| ==> s[i] < 128) ==> !r.Panics?
  {
    forall dt | Valid(dt) && FourDigitYear(dt) && IsPrinted(s, dt) ensures EpochIn(s) == Epoch(EpochOf(dt)) {
      ParseIsoRoundTrip(dt, s);
    }
    if forall i :: 0 <= i < |s| ==> s[i] < 128 {
      AsciiDateNeverPanics(s);
    }
    hide EpochIn, IsPrinted;
    r := ReadTrimmed(s);
  }

  method ReadTrimmed(s: Bytes) returns (r: Parsed)
    ensures r == EpochIn(s)
  {
    hide FieldIsCut, FieldValue, FieldsFrom, Trimmed, EpochOf;
    var t := Trimmed(s);
    if |t| < 19 {
      return Malformed;
    }
    var values: seq<int> := [];
    var n := 0;
    BehindStep([], FieldsFrom(t, 0));
    while n < COUNT
      invariant 0 <= n <= COUNT && |values| == n
      invariant FieldsFrom(t, 0) == Behind(values, FieldsFrom(t, n))
    {
      FieldsStep(t, n);
      if FieldIsCut(t, n) {
        return Panics;
      }
      var v := FieldValue(t, n);
      if v.None? {
        return Malformed;
      }
      BehindMore(values, v.value, FieldsFrom(t, n + 1));
      values := values + [v.value];
      n := n + 1;
    }
    FieldsEnd(t);
    BehindStep(values, Values([]));
    var e := DatetimeToEpoch(DateOf(values));
    return Epoch(e);
  }

  /** Values in front of the fields that follow. */
  function Behind(front: seq<int>, fields: Fields): Fields {
    match fields
    case Values(vs) => Values(front + vs)
    case failure => failure
  }

  lemma BehindStep(front: seq<int>, fields: Fields)
    ensures Behind([], fields) == fields && Behind(front, Values([])) == Values(front)
  {
    assert fields.Values? ==> [] + fields.values == fields.values;
    assert front + [] == front;
  }

  lemma BehindMore(front: seq<int>, v: int, fields: Fields)
    ensures Behind(front, Behind([v], fields)) == Behind(front + [v], fields)
  {
    assert fields.Values? ==> front + ([v] + fields.values) == front + [v] + fields.values;
  }

  lemma FieldsStep(s: Bytes, n: nat)
    requires n < COUNT && |s| >= 19
    ensures FieldsFrom(s, n) ==
            if FieldIsCut(s, n) then CutField
            else if FieldValue(s, n).None? then BadField
            else Behind([FieldValue(s, n).value], FieldsFrom(s, n + 1))
  {
    hide FieldIsCut, FieldValue;
  }

  lemma FieldsEnd(s: Bytes)
    requires |s| >= 19
    ensures FieldsFrom(s, COUNT) == Values([])
  {
  }

  // ----- Printed timestamps -----

  /** `s` is the printed form of a civil time. */
  predicate IsPrinted(s: Bytes, dt: DateTime)
    requires Valid(dt) && FourDigitYear(dt)
  {
    var text := Iso(dt);
    |s| == |text| && forall i :: 0 <= i < |s| ==> s[i] == text[i] as int && s[i] < 128
  }

  function FieldOf(dt: DateTime, n: nat): int
    requires n < COUNT
  {
    [dt.year, dt.month, dt.day, dt.hour, dt.minute, dt.second][n]
  }

  function Width(n: nat): nat {
    if n == 0 then 4 else 2
  }

  lemma FieldFits(dt: DateTime, n: nat)
    requires Valid(dt) && FourDigitYear(dt) && n < COUNT
    ensures 0 <= FieldOf(dt, n) < Pow10(Width(n))
    ensures n > 0 ==> FieldOf(dt, n) < 100
  {
    assert Pow10(2) == 100 && Pow10(4) == 10000 by { assert Pow10(1) == 10; }
  }

  lemma FieldSits(dt: DateTime, n: nat)
    requires Valid(dt) && FourDigitYear(dt) && n < COUNT
    ensures FieldOf(dt, n) >= 0 && FieldOf(dt, n) < Pow10(Width(n))
    ensures |Iso(dt)| == 20 && Iso(dt)[From(n)..Upto(n)] == Digits(FieldOf(dt, n), Width(n))
  {
    FieldFits(dt, n);
    IsoLayout(dt);
    hide Iso, Digits, Valid, Pow10;
    assert n == 0 || n == 1 || n == 2 || n == 3 || n == 4 || n == 5;
  }

  lemma PrintedField(s: Bytes, dt: DateTime, n: nat)
    requires Valid(dt) && FourDigitYear(dt) && IsPrinted(s, dt) && |s| >= 19 && n < COUNT
    ensures !FieldIsCut(s, n) && FieldValue(s, n) == Some(FieldOf(dt, n))
  {
    FieldSits(dt, n);
    hide Iso, Digits, ParseSigned, ParseUnsigned, Pow10, Valid, FieldOf, From, Upto;
    var lo, hi := From(n), Upto(n);
    var b := s[lo..hi];
    assert forall i :: 0 <= i < |b| ==> b[i] == s[lo + i];
    assert Text(b) == Iso(dt)[lo..hi];
    SliceParses(Iso(dt), lo, hi, FieldOf(dt, n), Width(n));
  }

  function FieldsOf(dt: DateTime, n: nat): seq<int>
    requires n <= COUNT
    decreases COUNT - n
  {
    if n == COUNT then [] else [FieldOf(dt, n)] + FieldsOf(dt, n + 1)
  }

  lemma {:induction false} PrintedFields(s: Bytes, dt: DateTime, n: nat)
    requires Valid(dt) && FourDigitYear(dt) && IsPrinted(s, dt) && |s| >= 19 && n <= COUNT
    ensures FieldsFrom(s, n) == Values(FieldsOf(dt, n))
    decreases COUNT - n
  {
    hide Valid, FieldValue, FieldIsCut, IsPrinted, FieldsFrom, FieldOf;
    if n == COUNT {
      FieldsEnd(s);
    } else {
      PrintedField(s, dt, n);
      PrintedFields(s, dt, n + 1);
      FieldsStep(s, n);
    }
  }

  /** A valid date of four digits is not changed by the field widths. */
  lemma DateOfFields(dt: DateTime)
    requires Valid(dt) && FourDigitYear(dt)
    ensures |FieldsOf(dt, 0)| == COUNT && DateOf(FieldsOf(dt, 0)) == dt
  {
    var v := [dt.year, dt.month, dt.day, dt.hour, dt.minute, dt.second];
    SixFields(dt);
    FieldFits(dt, 1);
    FieldFits(dt, 2);
    FieldFits(dt, 3);
    FieldFits(dt, 4);
    FieldFits(dt, 5);
    hide FieldsOf;
    assert DateOf(v) == dt;
  }

  lemma SixFields(dt: DateTime)
    ensures FieldsOf(dt, 0) == [dt.year, dt.month, dt.day, dt.hour, dt.minute, dt.second]
  {
    assert FieldsOf(dt, 5) == [dt.second];
    assert FieldsOf(dt, 4) == [dt.minute, dt.second];
    assert FieldsOf(dt, 3) == [dt.hour, dt.minute, dt.second];
    assert FieldsOf(dt, 2) == [dt.day, dt.hour, dt.minute, dt.second];
    assert FieldsOf(dt, 1) == [dt.month, dt.day, dt.hour, dt.minute, dt.second];
  }

  lemma NothingToTrim(s: Bytes)
    requires s != [] && 33 <= s[0] < 128 && 33 <= s[|s| - 1] < 128
    ensures Trimmed(s) == s
  {
    NothingAhead(s);
    NothingBehind(s);
  }

  lemma PrintedEnds(s: Bytes, dt: DateTime)
    requires Valid(dt) && FourDigitYear(dt) && IsPrinted(s, dt)
    ensures |s| == 20 && 48 <= s[0] <= 57 && s[19] == 90
  {
    IsoLayout(dt);
    hide Iso, Digits;
  }

  /** Parsing a printed timestamp returns the instant it was printed from. */
  lemma ParseIsoRoundTrip(dt: DateTime, s: Bytes)
    requires Valid(dt) && FourDigitYear(dt) && IsPrinted(s, dt)
    ensures EpochIn(s) == Epoch(EpochOf(dt))
  {
    hide Iso, Digits, FieldsFrom, FieldsOf, DateOf, Trimmed, EpochOf, Valid, FourDigitYear, IsPrinted;
    PrintedEnds(s, dt);
    NothingToTrim(s);
    PrintedFields(s, dt, 0);
    DateOfFields(dt);
  }

  /** So does parsing it with white space around it. */
  lemma PaddedTimestampParses(dt: DateTime, a: Bytes, s: Bytes, b: Bytes)
    requires Valid(dt) && FourDigitYear(dt) && IsPrinted(s, dt) && AsciiBlank(a) && AsciiBlank(b)
    ensures EpochIn(a + s + b) == Epoch(EpochOf(dt))
  {
    hide IsPrinted, Trimmed, FieldsFrom, EpochOf, Valid, FourDigitYear, AsciiBlank, Iso, Digits, DateOf;
    PrintedEnds(s, dt);
    NothingToTrim(s);
    PaddingIsTrimmed(a, s, b);
    ParseIsoRoundTrip(dt, s);
  }

  lemma PaddingIsTrimmed(a: Bytes, s: Bytes, b: Bytes)
    requires AsciiBlank(a) && AsciiBlank(b)
    requires s != [] && 33 <= s[0] < 128 && 33 <= s[|s| - 1] < 128
    ensures Trimmed(a + s + b) == s
  {
    assert a + s + b == a + (s + b) && (s + b)[0] == s[0];
    hide TrimStart, TrimEnd;
    BlanksAhead(a, s + b);
    BlanksBehind(s, b);
  }

  // ----- Any ASCII text -----

  /** The text between two positions. */
  function Slice(t: Bytes, lo: nat, hi: nat): string
    requires lo <= hi <= |t| && forall i :: 0 <= i < |t| ==> t[i] < 128
  {
    Text(t[lo..hi])
  }

  lemma AsciiField(t: Bytes, n: nat)
    requires |t| >= 19 && (forall i :: 0 <= i < |t| ==> t[i] < 128) && n < COUNT
    ensures !FieldIsCut(t, n)
    ensures FieldValue(t, n) ==
            if n == 0 then ParseSigned(Slice(t, From(n), Upto(n))) else ParseUnsigned(Slice(t, From(n), Upto(n)))
  {
  }

  /** In ASCII text the six fields stand at fixed bytes; only the year may be negative, and each is cut to its width. */
  lemma FieldsAtFixedBytes(s: Bytes)
    requires |Trimmed(s)| >= 19 && forall i :: 0 <= i < |Trimmed(s)| ==> Trimmed(s)[i] < 128
    ensures var t := Trimmed(s);
            var year, month := ParseSigned(Slice(t, 0, 4)), ParseUnsigned(Slice(t, 5, 7));
            var day, hour := ParseUnsigned(Slice(t, 8, 10)), ParseUnsigned(Slice(t, 11, 13));
            var minute, second := ParseUnsigned(Slice(t, 14, 16)), ParseUnsigned(Slice(t, 17, 19));
            EpochIn(s) ==
            if year.Some? && month.Some? && day.Some? && hour.Some? && minute.Some? && second.Some? then
              Epoch(EpochOf(DateTime(year.value % 65536, month.value % 256, day.value % 256, hour.value % 256,
                                     minute.value % 256, second.value % 256, false, 0, 0)))
            else Malformed
  {
    hide Slice, FieldValue, FieldIsCut, Trimmed, ParseSigned, ParseUnsigned, EpochOf, FieldsFrom;
    var t := Trimmed(s);
    forall n: nat | n < COUNT
      ensures !FieldIsCut(t, n)
      ensures FieldValue(t, n) ==
              if n == 0 then ParseSigned(Slice(t, From(n), Upto(n))) else ParseUnsigned(Slice(t, From(n), Upto(n)))
    {
      AsciiField(t, n);
    }
    SixSteps(t);
  }

  lemma SixSteps(t: Bytes)
    requires |t| >= 19 && forall n: nat :: n < COUNT ==> !FieldIsCut(t, n)
    ensures FieldsFrom(t, 0) ==
            if forall n: nat :: n < COUNT ==> FieldValue(t, n).Some? then
              Values([FieldValue(t, 0).value, FieldValue(t, 1).value, FieldValue(t, 2).value,
                      FieldValue(t, 3).value, FieldValue(t, 4).value, FieldValue(t, 5).value])
            else BadField
  {
    hide FieldValue, FieldIsCut, FieldsFrom;
    FieldsStep(t, 0);
    FieldsStep(t, 1);
    FieldsStep(t, 2);
    FieldsStep(t, 3);
    FieldsStep(t, 4);
    FieldsStep(t, 5);
    FieldsEnd(t);
  }

  // ----- Where parsing panics -----

  predicate PanicsAt(s: Bytes, n: nat)
    requires |s| >= 19
  {
    n < COUNT && FieldIsCut(s, n) && forall m :: 0 <= m < n ==> FieldValue(s, m).Some?
  }

  lemma {:induction false} FieldsPanicIff(s: Bytes, n: nat)
    requires n <= COUNT && |s| >= 19
    ensures FieldsFrom(s, n) == CutField <==>
            exists k :: n <= k < COUNT && FieldIsCut(s, k) && forall m :: n <= m < k ==> FieldValue(s, m).Some?
    decreases COUNT - n
  {
    hide FieldIsCut, FieldValue;
    if n < COUNT {
      FieldsPanicIff(s, n + 1);
    }
  }

  /** Parsing panics exactly if a field is cut inside a character and every field before it is a number. */
  lemma DatePanicsIff(s: Bytes)
    ensures var t := Trimmed(s);
            EpochIn(s) == Panics <==> |t| >= 19 && exists n: nat :: PanicsAt(t, n)
  {
    var t := Trimmed(s);
    hide Trimmed, FieldIsCut, FieldValue, EpochOf;
    if |t| >= 19 {
      FieldsPanicIff(t, 0);
      if FieldsFrom(t, 0) == CutField {
        var k :| 0 <= k < COUNT && FieldIsCut(t, k) && forall m :: 0 <= m < k ==> FieldValue(t, m).Some?;
        assert PanicsAt(t, k);
      }
    }
  }

  lemma {:induction false} TrimmedIsPart(s: Bytes)
    ensures forall c :: c in Trimmed(s) ==> c in s
  {
    var a := TrimStart(s);
    var b := TrimEnd(a);
    assert a == s[|s| - |a|..] && b == a[..|b|];
  }

  /** ASCII text never panics. */
  lemma AsciiDateNeverPanics(s: Bytes)
    requires forall i :: 0 <= i < |s| ==> s[i] < 128
    ensures EpochIn(s) != Panics
  {
    DatePanicsIff(s);
    TrimmedIsPart(s);
    var t := Trimmed(s);
    hide Trimmed, EpochIn;
    forall i | 0 <= i < |t| ensures t[i] < 128 {
      assert t[i] in s;
    }
  }

  /** A header whose fifth byte lies inside a character makes parsing panic. */
  lemma AccentedDatePanics(s: Bytes)
    requires |s| >= 19 && 33 <= s[0] < 128 && 33 <= s[|s| - 1] < 128 && IsContinuation(s[4])
    ensures EpochIn(s) == Panics
  {
    hide Trimmed, EpochIn, FieldValue;
    NothingToTrim(s);
    assert PanicsAt(s, 0);
    DatePanicsIff(s);
  }
}
