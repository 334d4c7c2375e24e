/** Civil dates and Unix time, with the loops the backend counts days by. */
module Calendar {

  /** A parsed date header; the field widths are those of the mail parser (u16 year, u8 for the rest). */
  datatype DateTime = DateTime(
    year: int, month: int, day: int,
    hour: int, minute: int, second: int,
    tzBeforeGmt: bool, tzHour: int, tzMinute: int)

  predicate InRange(dt: DateTime) {
    && 0 <= dt.year < 0x1_0000
    && 0 <= dt.month < 0x100 && 0 <= dt.day < 0x100
    && 0 <= dt.hour < 0x100 && 0 <= dt.minute < 0x100 && 0 <= dt.second < 0x100
    && 0 <= dt.tzHour < 0x100 && 0 <= dt.tzMinute < 0x100
  }

  predicate IsLeapYear(y: int) {
    (y % 4 == 0 && y % 100 != 0) || y % 400 == 0
  }

  function DaysInYear(y: int): int {
    if IsLeapYear(y) then 366 else 365
  }

  const MONTH_DAYS := [31, 28, 31, 30, 31, 30, 31, 31, 30, 31, 30, 31]

  function DaysInMonth(y: int, m: int): int
    requires 1 <= m <= 12
  {
    if m == 2 && IsLeapYear(y) then 29 else MONTH_DAYS[m - 1]
  }

  // ----- The closed form -----

  /** Days from 1 January 1970 to 1 January of `y`, by counting leap years with floor division. */
  function YearStart(y: int): int {
    365 * (y - 1970) + (y - 1) / 4 - (y - 1) / 100 + (y - 1) / 400 - 477
  }

  /** Days before month `m` within its year. */
  function MonthStart(y: int, m: int): int {
    (367 * m - 362) / 12 - (if m <= 2 then 0 else if IsLeapYear(y) then 1 else 2)
  }

  /** Month used for counting: zero counts as January, anything past twelve as December. */
  function CountedMonth(m: int): int {
    if m < 1 then 1 else if m > 12 then 12 else m
  }

  function TzOffset(dt: DateTime): int {
    var offset := dt.tzHour * 3600 + dt.tzMinute * 60;
    if dt.tzBeforeGmt then offset else -offset
  }

  /** Seconds since 1970 in closed form. */
  function EpochOf(dt: DateTime): int {
    var days := YearStart(dt.year) + MonthStart(dt.year, CountedMonth(dt.month)) + dt.day - 1;
    days * 86400 + dt.hour * 3600 + dt.minute * 60 + dt.second + TzOffset(dt)
  }

  lemma DivSteps(y: int)
    ensures y / 4 == (y - 1) / 4 + (if y % 4 == 0 then 1 else 0)
    ensures y / 100 == (y - 1) / 100 + (if y % 100 == 0 then 1 else 0)
    ensures y / 400 == (y - 1) / 400 + (if y % 400 == 0 then 1 else 0)
  {
  }

  lemma LeapMultiples(y: int)
    ensures y % 400 == 0 ==> y % 100 == 0
    ensures y % 100 == 0 ==> y % 4 == 0
  {
  }

  lemma YearStep(y: int)
    ensures YearStart(y + 1) == YearStart(y) + DaysInYear(y)
  {
    DivSteps(y);
    LeapMultiples(y);
  }

  lemma MonthStep(y: int, m: int)
    requires 1 <= m <= 12
    ensures m < 12 ==> MonthStart(y, m + 1) == MonthStart(y, m) + DaysInMonth(y, m)
    ensures m == 12 ==> DaysInYear(y) == MonthStart(y, m) + DaysInMonth(y, m)
  {
  }

  /** Counts whole years, then whole months, then the day, and adds the zone offset. */
  method DatetimeToEpoch(dt: DateTime) returns (epoch: int)
    requires InRange(dt)
    ensures epoch == EpochOf(dt)
  {
    var days := 0;
    var y := 1970;
    while y < dt.year
      invariant days == YearStart(y) && 1970 <= y && (y <= dt.year || y == 1970)
    {
      YearStep(y);
      days := days + if IsLeapYear(y) then 366 else 365;
      y := y + 1;
    }
    assert dt.year >= 1970 ==> days == YearStart(dt.year);
    y := 1970;
    while dt.year < y
      invariant dt.year <= y || y == 1970
      invariant days == YearStart(if dt.year < y then y else dt.year)
    {
      y := y - 1;
      YearStep(y);
      days := days - if IsLeapYear(y) then 366 else 365;
    }
    var month := if dt.month < 1 then 0 else if dt.month > 12 then 11 else dt.month - 1;
    var m := 0;
    while m < month
      invariant 0 <= m <= month
      invariant days == YearStart(dt.year) + MonthStart(dt.year, m + 1)
    {
      MonthStep(dt.year, m + 1);
      days := days + MONTH_DAYS[m];
      if m == 1 && IsLeapYear(dt.year) {
        days := days + 1;
      }
      m := m + 1;
    }
    days := days + dt.day - 1;
    var secs := days * 86400 + dt.hour * 3600 + dt.minute * 60 + dt.second;
    var tzOffsetSecs := dt.tzHour * 3600 + dt.tzMinute * 60;
    epoch := if dt.tzBeforeGmt then secs + tzOffsetSecs else secs - tzOffsetSecs;
  }

  // ----- Valid UTC instants -----

  predicate IsUtc(dt: DateTime) {
    !dt.tzBeforeGmt && dt.tzHour == 0 && dt.tzMinute == 0
  }

  /** A date and time that exists, in UTC. */
  predicate Valid(dt: DateTime) {
    && IsUtc(dt)
    && 1 <= dt.month <= 12 && 1 <= dt.day <= DaysInMonth(dt.year, dt.month)
    && 0 <= dt.hour < 24 && 0 <= dt.minute < 60 && 0 <= dt.second < 60
  }

  /** Earlier in (year, month, day, hour, minute, second). */
  predicate Earlier(a: DateTime, b: DateTime) {
    || a.year < b.year
    || (a.year == b.year && (
          || a.month < b.month
          || (a.month == b.month && (
                || a.day < b.day
                || (a.day == b.day && (
                      || a.hour < b.hour
                      || (a.hour == b.hour && (
                            || a.minute < b.minute
                            || (a.minute == b.minute && a.second < b.second)))))))))
  }

  lemma {:induction false} YearsGrow(a: int, b: int)
    requires a < b
    ensures YearStart(a) + DaysInYear(a) <= YearStart(b)
    decreases b - a
  {
    YearStep(b - 1);
    if a < b - 1 {
      YearsGrow(a, b - 1);
    }
  }

  lemma {:induction false} MonthsGrow(y: int, a: int, b: int)
    requires 1 <= a < b <= 12
    ensures MonthStart(y, a) + DaysInMonth(y, a) <= MonthStart(y, b)
    decreases b - a
  {
    MonthStep(y, b - 1);
    if a < b - 1 {
      MonthsGrow(y, a, b - 1);
    }
  }

  lemma WithinYear(y: int, m: int)
    requires 1 <= m <= 12
    ensures 0 <= MonthStart(y, m) && MonthStart(y, m) + DaysInMonth(y, m) <= DaysInYear(y)
  {
    MonthStep(y, 12);
    if m < 12 {
      MonthsGrow(y, m, 12);
    }
  }

  /** Unix time is strictly increasing in the civil fields. */
  lemma EpochIsIncreasing(a: DateTime, b: DateTime)
    requires Valid(a) && Valid(b) && Earlier(a, b)
    ensures EpochOf(a) < EpochOf(b)
  {
    WithinYear(a.year, a.month);
    WithinYear(b.year, b.month);
    if a.year < b.year {
      YearsGrow(a.year, b.year);
    } else if a.month < b.month {
      MonthsGrow(a.year, a.month, b.month);
    }
  }

  /** Comparing Unix times is comparing civil times; equal times are equal dates. */
  lemma EpochOrder(a: DateTime, b: DateTime)
    requires Valid(a) && Valid(b)
    ensures EpochOf(a) < EpochOf(b) <==> Earlier(a, b)
    ensures EpochOf(a) == EpochOf(b) <==> a == b
  {
    if Earlier(a, b) {
      EpochIsIncreasing(a, b);
    } else if a != b {
      assert Earlier(b, a);
      EpochIsIncreasing(b, a);
    }
  }

  /** The civil time one second later, carrying into minutes, hours, days, months and years. */
  function NextSecond(dt: DateTime): DateTime
    requires Valid(dt)
  {
    if dt.second < 59 then dt.(second := dt.second + 1)
    else if dt.minute < 59 then dt.(minute := dt.minute + 1, second := 0)
    else if dt.hour < 23 then dt.(hour := dt.hour + 1, minute := 0, second := 0)
    else
      var midnight := dt.(hour := 0, minute := 0, second := 0);
      if dt.day < DaysInMonth(dt.year, dt.month) then midnight.(day := dt.day + 1)
      else if dt.month < 12 then midnight.(month := dt.month + 1, day := 1)
      else midnight.(year := dt.year + 1, month := 1, day := 1)
  }

  predicate LastSecond(dt: DateTime) {
    dt.hour == 23 && dt.minute == 59 && dt.second == 59
  }

  /** The last second of a day is followed by the first of the next. */
  lemma MidnightIsOneLater(dt: DateTime)
    requires Valid(dt) && LastSecond(dt)
    ensures EpochOf(NextSecond(dt)) == EpochOf(dt) + 1
  {
    hide MonthStart, YearStart;
    var next := NextSecond(dt);
    MonthStep(dt.year, dt.month);
    YearStep(dt.year);
    FirstMonth(next.year);
    assert YearStart(next.year) + MonthStart(next.year, next.month) + next.day ==
           YearStart(dt.year) + MonthStart(dt.year, dt.month) + dt.day + 1;
  }

  /** Consecutive civil seconds are consecutive integers, over every month, year and century boundary. */
  lemma NextSecondIsOneLater(dt: DateTime)
    requires Valid(dt)
    ensures Valid(NextSecond(dt))
    ensures EpochOf(NextSecond(dt)) == EpochOf(dt) + 1
  {
    hide MonthStart, YearStart;
    if LastSecond(dt) {
      MidnightIsOneLater(dt);
    }
  }

  lemma FirstMonth(y: int)
    ensures MonthStart(y, 1) == 0
  {
  }

  lemma Midnight(y: int, m: int, d: int)
    requires 1 <= m <= 12
    ensures EpochOf(DateTime(y, m, d, 0, 0, 0, false, 0, 0)) == (YearStart(y) + MonthStart(y, m) + d - 1) * 86400
  {
    hide YearStart, MonthStart;
  }

  lemma SomeStarts()
    ensures YearStart(1970) == 0 && YearStart(2000) == 10957 && YearStart(1900) == -25567
    ensures MonthStart(1970, 1) == 0 && MonthStart(2000, 3) == 60 && MonthStart(1900, 3) == 59
  {
  }

  /** Counting starts at the first second of 1970; 2000 was a leap year and 1900 was not. */
  lemma FixedPoints()
    ensures EpochOf(DateTime(1970, 1, 1, 0, 0, 0, false, 0, 0)) == 0
    ensures EpochOf(DateTime(2000, 3, 1, 0, 0, 0, false, 0, 0)) == 951868800
    ensures EpochOf(DateTime(1900, 3, 1, 0, 0, 0, false, 0, 0)) == -2203891200
  {
    hide YearStart, MonthStart, EpochOf;
    SomeStarts();
    Midnight(1970, 1, 1);
    Midnight(2000, 3, 1);
    Midnight(1900, 3, 1);
  }

  /** The month that counts: months before January count as January, months after December as December. */
  function FirstOfMonth(dt: DateTime): DateTime {
    DateTime(dt.year, if dt.month == 0 then 1 else if dt.month <= 12 then dt.month else 12, 1, 0, 0, 0, false, 0, 0)
  }

  /** Whatever the fields say, days, hours, minutes and seconds are counted on from the first of the month. */
  lemma FieldsAreCountedOn(dt: DateTime)
    requires InRange(dt)
    ensures Valid(FirstOfMonth(dt))
    ensures EpochOf(dt.(tzHour := 0, tzMinute := 0)) ==
            EpochOf(FirstOfMonth(dt)) + (dt.day - 1) * 86400 + dt.hour * 3600 + dt.minute * 60 + dt.second
  {
    hide YearStart, MonthStart;
  }

  /** How far the clocks of a zone are ahead of UTC, in seconds. */
  function Ahead(dt: DateTime): int {
    (if dt.tzBeforeGmt then -1 else 1) * (3600 * dt.tzHour + 60 * dt.tzMinute)
  }

  // ----- Every instant of the years 0000 to 9999 -----

  const FIRST := DateTime(0, 1, 1, 0, 0, 0, false, 0, 0)
  const LAST := DateTime(9999, 12, 31, 23, 59, 59, false, 0, 0)

  const FIRST_EPOCH := -62167219200
  const LAST_EPOCH := 253402300799

  predicate Representable(t: int) {
    FIRST_EPOCH <= t <= LAST_EPOCH
  }

  /** The representable instants are those of the years 0000 to 9999. */
  lemma RangeOfYears()
    ensures EpochOf(FIRST) == FIRST_EPOCH && EpochOf(LAST) == LAST_EPOCH
  {
    assert YearStart(0) == -719528 && MonthStart(0, 1) == 0;
    assert YearStart(9999) == 2932532 && MonthStart(9999, 12) == 334;
    hide YearStart, MonthStart;
    assert EpochOf(FIRST) == -719528 * 86400;
    assert EpochOf(LAST) == 2932896 * 86400 + 86399;
  }

  /** The civil time of an instant, counted up from the first. */
  ghost function CivilOf(t: int): (dt: DateTime)
    requires Representable(t)
    ensures Valid(dt) && EpochOf(dt) == t && 0 <= dt.year <= 9999
    decreases t - FIRST_EPOCH
  {
    RangeOfYears();
    hide EpochOf;
    if t == FIRST_EPOCH then FIRST
    else
      var before := CivilOf(t - 1);
      NextSecondIsOneLater(before);
      var dt := NextSecond(before);
      assert dt.year <= 9999 by {
        EpochOrder(LAST, dt);
      }
      dt
  }

  /** At the instant a date header names, the clocks of its zone show the date and time it states. */
  lemma ZoneClockShowsFields(dt: DateTime)
    requires InRange(dt) && Valid(dt.(tzBeforeGmt := false, tzHour := 0, tzMinute := 0)) && dt.year <= 9999
    ensures Representable(EpochOf(dt) + Ahead(dt))
    ensures CivilOf(EpochOf(dt) + Ahead(dt)) == dt.(tzBeforeGmt := false, tzHour := 0, tzMinute := 0)
  {
    hide EpochOf, Valid, Ahead, Earlier;
    var shown := dt.(tzBeforeGmt := false, tzHour := 0, tzMinute := 0);
    ZoneShift(dt);
    ValidIsRepresentable(shown);
    EpochOrder(shown, CivilOf(EpochOf(shown)));
  }

  lemma ZoneShift(dt: DateTime)
    ensures EpochOf(dt) + Ahead(dt) == EpochOf(dt.(tzBeforeGmt := false, tzHour := 0, tzMinute := 0))
  {
    hide YearStart, MonthStart, CountedMonth;
  }

  lemma ValidIsRepresentable(dt: DateTime)
    requires Valid(dt) && 0 <= dt.year <= 9999
    ensures Representable(EpochOf(dt))
  {
    hide EpochOf, Valid, Earlier;
    RangeOfYears();
    NotOutside(dt);
    EpochOrder(dt, FIRST);
    EpochOrder(LAST, dt);
  }

  lemma NotOutside(dt: DateTime)
    requires Valid(dt) && 0 <= dt.year <= 9999
    ensures Valid(FIRST) && Valid(LAST) && !Earlier(dt, FIRST) && !Earlier(LAST, dt)
  {
    assert dt.day <= 31;
  }
}
