// Conversion of integer epoch seconds to the UTC calendar date and its
// `DD-MM-YYYY` rendering, as produced by
// `datetime.utcfromtimestamp(t).strftime('%d-%m-%Y')` in the news handlers.
// Dates are proleptic Gregorian, counted from 01-01-1970.
module UtcDate {

  const SecondsPerDay: int := 86400

  /** First second of year 10000: the largest instant with a four-digit year is one before it. */
  const MaxTimestamp: int := 253402300800

  datatype Date = Date(year: int, month: int, day: int)

  predicate IsLeapYear(y: int) {
    y % 4 == 0 && (y % 100 != 0 || y % 400 == 0)
  }

  function YearLength(y: int): int {
    if IsLeapYear(y) then 366 else 365
  }

  function DaysInMonth(y: int, m: int): int
    requires 1 <= m <= 12
  {
    if m == 2 then (if IsLeapYear(y) then 29 else 28)
    else if m == 4 || m == 6 || m == 9 || m == 11 then 30
    else 31
  }

  /** A calendar date on or after the epoch. */
  predicate ValidDate(d: Date) {
    d.year >= 1970 && 1 <= d.month <= 12 && 1 <= d.day <= DaysInMonth(d.year, d.month)
  }

  /** Number of leap years among the years 1 .. k. */
  function LeapYearsThrough(k: int): int
    requires k >= 0
  {
    k / 4 - k / 100 + k / 400
  }

  /** Days from 01-01-1970 to 01-01 of year `y`. */
  function DaysBeforeYear(y: int): int
    requires y >= 1970
  {
    365 * (y - 1970) + LeapYearsThrough(y - 1) - LeapYearsThrough(1969)
  }

  /** Days from 01-01 of year `y` to the first day of month `m` (month 13 is the next year). */
  function DaysBeforeMonth(y: int, m: int): int
    requires 1 <= m <= 13
  {
    var leap := if IsLeapYear(y) && m > 2 then 1 else 0;
    leap +
    if m == 1 then 0 else if m == 2 then 31 else if m == 3 then 59
    else if m == 4 then 90 else if m == 5 then 120 else if m == 6 then 151
    else if m == 7 then 181 else if m == 8 then 212 else if m == 9 then 243
    else if m == 10 then 273 else if m == 11 then 304 else if m == 12 then 334
    else 365
  }

  /** Days elapsed from 01-01-1970 to the given date: the counting definition. */
  function DaysFromCivil(d: Date): int
    requires ValidDate(d)
  {
    DaysBeforeYear(d.year) + DaysBeforeMonth(d.year, d.month) + d.day - 1
  }

  /** Floor division by `c` steps up by one exactly at the multiples of `c`. */
  lemma LeapCountStep(k: int)
    requires k >= 1
    ensures k / 4 - (k - 1) / 4 == (if k % 4 == 0 then 1 else 0)
    ensures k / 100 - (k - 1) / 100 == (if k % 100 == 0 then 1 else 0)
    ensures k / 400 - (k - 1) / 400 == (if k % 400 == 0 then 1 else 0)
  {
  }

  lemma DaysBeforeYearStep(y: int)
    requires y >= 1970
    ensures DaysBeforeYear(y + 1) == DaysBeforeYear(y) + YearLength(y)
  {
    LeapCountStep(y);
  }

  lemma DaysBeforeMonthStep(y: int, m: int)
    requires 1 <= m <= 12
    ensures DaysBeforeMonth(y, m + 1) == DaysBeforeMonth(y, m) + DaysInMonth(y, m)
  {
  }

  lemma {:induction false} DaysBeforeYearMonotone(y1: int, y2: int)
    requires 1970 <= y1 <= y2
    ensures DaysBeforeYear(y1) + 365 * (y2 - y1) <= DaysBeforeYear(y2)
    decreases y2 - y1
  {
    if y1 < y2 {
      DaysBeforeYearStep(y1);
      DaysBeforeYearMonotone(y1 + 1, y2);
    }
  }

  lemma {:induction false} DaysBeforeMonthMonotone(y: int, m1: int, m2: int)
    requires 1 <= m1 <= m2 <= 13
    ensures DaysBeforeMonth(y, m1) + 28 * (m2 - m1) <= DaysBeforeMonth(y, m2)
    decreases m2 - m1
  {
    if m1 < m2 {
      DaysBeforeMonthStep(y, m1);
      DaysBeforeMonthMonotone(y, m1 + 1, m2);
    }
  }

  /**
   * Walks whole years forward from 01-01 of `y`, `days` days ahead; returns the
   * year reached and the zero-based day of that year.
   */
  function SplitYear(days: nat, y: int): (int, nat)
    requires y >= 1970
    decreases days
  {
    if days < YearLength(y) then (y, days)
    else SplitYear(days - YearLength(y), y + 1)
  }

  /** The year reached is the one whose span contains the day, and no day is lost. */
  lemma {:induction false} SplitYearDenotes(days: nat, y: int)
    requires y >= 1970
    ensures SplitYear(days, y).0 >= y && SplitYear(days, y).1 < YearLength(SplitYear(days, y).0)
    ensures DaysBeforeYear(SplitYear(days, y).0) + SplitYear(days, y).1 == DaysBeforeYear(y) + days
    decreases days
  {
    if days >= YearLength(y) {
      DaysBeforeYearStep(y);
      SplitYearDenotes(days - YearLength(y), y + 1);
    }
  }

  /**
   * Walks whole months forward from the first of month `m` of year `y`;
   * returns the month reached and the zero-based day of that month.
   */
  function SplitMonth(y: int, doy: nat, m: int): (int, nat)
    requires 1 <= m <= 12
    requires DaysBeforeMonth(y, m) + doy < YearLength(y)
    decreases 12 - m
  {
    DaysBeforeMonthStep(y, m);
    if doy < DaysInMonth(y, m) then (m, doy)
    else SplitMonth(y, doy - DaysInMonth(y, m), m + 1)
  }

  /** The month reached is the one whose span contains the day, and no day is lost. */
  lemma {:induction false} SplitMonthDenotes(y: int, doy: nat, m: int)
    requires 1 <= m <= 12
    requires DaysBeforeMonth(y, m) + doy < YearLength(y)
    ensures var r := SplitMonth(y, doy, m);
      m <= r.0 <= 12 && r.1 < DaysInMonth(y, r.0)
      && DaysBeforeMonth(y, r.0) + r.1 == DaysBeforeMonth(y, m) + doy
    decreases 12 - m
  {
    DaysBeforeMonthStep(y, m);
    if doy >= DaysInMonth(y, m) {
      SplitMonthDenotes(y, doy - DaysInMonth(y, m), m + 1);
    }
  }

  /** The calendar date `days` days after 01-01-1970. */
  function CivilFromDays(days: nat): Date
  {
    SplitYearDenotes(days, 1970);
    var (y, doy) := SplitYear(days, 1970);
    var (m, dom) := SplitMonth(y, doy, 1);
    Date(y, m, dom + 1)
  }

  /** The walk lands on a real date, and counting that date's days gives `days` back. */
  lemma CivilFromDaysDenotes(days: nat)
    ensures ValidDate(CivilFromDays(days)) && DaysFromCivil(CivilFromDays(days)) == days
  {
    SplitYearDenotes(days, 1970);
    var (y, doy) := SplitYear(days, 1970);
    SplitMonthDenotes(y, doy, 1);
  }

  /** Days within a year: a valid date lies strictly before 01-01 of the next year. */
  lemma DayOfYearBound(d: Date)
    requires ValidDate(d)
    ensures DaysBeforeMonth(d.year, d.month) + d.day - 1 < YearLength(d.year)
  {
    DaysBeforeMonthStep(d.year, d.month);
    DaysBeforeMonthMonotone(d.year, d.month + 1, 13);
  }

  predicate Before(a: Date, b: Date) {
    a.year < b.year
    || (a.year == b.year && a.month < b.month)
    || (a.year == b.year && a.month == b.month && a.day < b.day)
  }

  /** Day counting is strictly increasing in calendar order. */
  lemma {:induction false} DaysFromCivilStrictlyIncreasing(a: Date, b: Date)
    requires ValidDate(a) && ValidDate(b) && Before(a, b)
    ensures DaysFromCivil(a) < DaysFromCivil(b)
  {
    DayOfYearBound(a);
    if a.year < b.year {
      DaysBeforeYearStep(a.year);
      DaysBeforeYearMonotone(a.year + 1, b.year);
    } else if a.month < b.month {
      DaysBeforeMonthStep(a.year, a.month);
      DaysBeforeMonthMonotone(a.year, a.month + 1, b.month);
    }
  }

  lemma DaysFromCivilInjective(a: Date, b: Date)
    requires ValidDate(a) && ValidDate(b) && DaysFromCivil(a) == DaysFromCivil(b)
    ensures a == b
  {
    if Before(a, b) {
      DaysFromCivilStrictlyIncreasing(a, b);
    } else if Before(b, a) {
      DaysFromCivilStrictlyIncreasing(b, a);
    }
  }

  /** Every date on or after the epoch is reached by walking its own day count. */
  lemma CivilFromDaysOfDaysFromCivil(d: Date)
    requires ValidDate(d)
    ensures DaysFromCivil(d) >= 0
    ensures CivilFromDays(DaysFromCivil(d)) == d
  {
    DaysBeforeYearMonotone(1970, d.year);
    CivilFromDaysDenotes(DaysFromCivil(d));
    DaysFromCivilInjective(CivilFromDays(DaysFromCivil(d)), d);
  }

  /** A date's day count is at least that of 01-01 of its year. */
  lemma DaysFromCivilOfYear(d: Date)
    requires ValidDate(d)
    ensures DaysBeforeYear(d.year) <= DaysFromCivil(d)
  {
    assert DaysBeforeMonth(d.year, d.month) >= 0;
  }

  /** Every valid date with fewer days than 01-01-10000 falls in a four-digit year. */
  lemma YearBound(d: Date)
    requires ValidDate(d) && DaysFromCivil(d) < MaxTimestamp / SecondsPerDay
    ensures d.year < 10000
  {
    DaysFromCivilOfYear(d);
    assert DaysBeforeYear(10000) == MaxTimestamp / SecondsPerDay;
    if d.year >= 10000 {
      DaysBeforeYearMonotone(10000, d.year);
      assert false;
    }
  }

  /** Every day before MaxTimestamp / SecondsPerDay falls in a four-digit year. */
  lemma CivilFromDaysYearBound(days: nat)
    requires days < MaxTimestamp / SecondsPerDay
    ensures CivilFromDays(days).year < 10000
  {
    CivilFromDaysDenotes(days);
    YearBound(CivilFromDays(days));
  }


  // Rendering

  function DigitChar(k: int): char
    requires 0 <= k < 10
  {
    ('0' as int + k) as char
  }

  predicate IsDigit(c: char) {
    '0' <= c <= '9'
  }

  function DigitValue(c: char): int
    requires IsDigit(c)
  {
    c as int - '0' as int
  }

  /** `v` as exactly two decimal digits, zero-padded, as `%d` and `%m` print it. */
  function TwoDigits(v: int): string
    requires 0 <= v < 100
  {
    [DigitChar(v / 10), DigitChar(v % 10)]
  }

  /** The decimal value of the two digits at `s[i]` and `s[i + 1]`. */
  function TwoDigitValue(s: string, i: int): int
    requires 0 <= i && i + 1 < |s| && IsDigit(s[i]) && IsDigit(s[i + 1])
  {
    10 * DigitValue(s[i]) + DigitValue(s[i + 1])
  }

  /** strftime('%d-%m-%Y'); every year on or after 1970 and before 10000 has four digits. */
  function FormatDate(d: Date): string
    requires ValidDate(d) && d.year < 10000
  {
    TwoDigits(d.day) + "-" + TwoDigits(d.month) + "-" + TwoDigits(d.year / 100) + TwoDigits(d.year % 100)
  }

  /** The shape `DD-MM-YYYY`: ten characters, dashes at offsets 2 and 5, digits elsewhere. */
  predicate IsDateText(s: string) {
    |s| == 10 && s[2] == '-' && s[5] == '-'
    && forall i :: 0 <= i < 10 && i != 2 && i != 5 ==> IsDigit(s[i])
  }

  /** Reads a `DD-MM-YYYY` text back into a date. */
  function ParseDate(s: string): Date
    requires IsDateText(s)
  {
    Date(100 * TwoDigitValue(s, 6) + TwoDigitValue(s, 8), TwoDigitValue(s, 3), TwoDigitValue(s, 0))
  }

  /** Two digits read back as the number they print. */
  lemma TwoDigitsValue(v: int)
    requires 0 <= v < 100
    ensures IsDigit(TwoDigits(v)[0]) && IsDigit(TwoDigits(v)[1])
    ensures TwoDigitValue(TwoDigits(v), 0) == v
  {
  }

  /** Rendering a date and reading the text back gives the same date. */
  lemma FormatDateParses(d: Date)
    requires ValidDate(d) && d.year < 10000
    ensures IsDateText(FormatDate(d)) && ParseDate(FormatDate(d)) == d
  {
    var dd, mm, cc, yy := TwoDigits(d.day), TwoDigits(d.month), TwoDigits(d.year / 100), TwoDigits(d.year % 100);
    TwoDigitsValue(d.day);
    TwoDigitsValue(d.month);
    TwoDigitsValue(d.year / 100);
    TwoDigitsValue(d.year % 100);
    var s := FormatDate(d);
    assert s == [dd[0], dd[1], '-', mm[0], mm[1], '-', cc[0], cc[1], yy[0], yy[1]];
  }

  /**
   * `datetime.utcfromtimestamp(t).strftime('%d-%m-%Y')` for whole seconds:
   * the UTC date of day floor(t / 86400) after 01-01-1970, as `DD-MM-YYYY`.
   */
  function FormatTimestamp(t: int): string
    requires 0 <= t < MaxTimestamp
  {
    CivilFromDaysDenotes(t / SecondsPerDay);
    CivilFromDaysYearBound(t / SecondsPerDay);
    FormatDate(CivilFromDays(t / SecondsPerDay))
  }

  /**
   * The rendering is well-formed `DD-MM-YYYY` text naming a real date, and that
   * date is the UTC day the instant falls on.
   */
  lemma FormatTimestampDenotes(t: int)
    requires 0 <= t < MaxTimestamp
    ensures IsDateText(FormatTimestamp(t))
    ensures ValidDate(ParseDate(FormatTimestamp(t)))
    ensures DaysFromCivil(ParseDate(FormatTimestamp(t))) == t / SecondsPerDay
  {
    var d := CivilFromDays(t / SecondsPerDay);
    CivilFromDaysDenotes(t / SecondsPerDay);
    CivilFromDaysYearBound(t / SecondsPerDay);
    FormatDateParses(d);
  }

  /** Instants on later days never render as an earlier date. */
  lemma FormatTimestampMonotone(t1: int, t2: int)
    requires 0 <= t1 <= t2 < MaxTimestamp
    ensures IsDateText(FormatTimestamp(t1)) && IsDateText(FormatTimestamp(t2))
      && !Before(ParseDate(FormatTimestamp(t2)), ParseDate(FormatTimestamp(t1)))
  {
    FormatTimestampDenotes(t1);
    FormatTimestampDenotes(t2);
    var d1, d2 := ParseDate(FormatTimestamp(t1)), ParseDate(FormatTimestamp(t2));
    if Before(d2, d1) {
      DaysFromCivilStrictlyIncreasing(d2, d1);
    }
  }

  /** Two instants render the same text exactly when they fall on the same UTC day. */
  lemma FormatTimestampSameDayIff(t1: int, t2: int)
    requires 0 <= t1 < MaxTimestamp && 0 <= t2 < MaxTimestamp
    ensures FormatTimestamp(t1) == FormatTimestamp(t2) <==> t1 / SecondsPerDay == t2 / SecondsPerDay
  {
    FormatTimestampDenotes(t1);
    FormatTimestampDenotes(t2);
  }

  /** The worked example: 1700000000 seconds is 14 November 2023. */
  lemma FormatTimestampExample()
    ensures FormatTimestamp(1700000000) == "14-11-2023"
  {
    var d := Date(2023, 11, 14);
    assert 1700000000 / SecondsPerDay == 19675;
    assert DaysFromCivil(d) == 19675;
    CivilFromDaysOfDaysFromCivil(d);
    FormatDateExample();
  }

  lemma FormatDateExample()
    ensures FormatDate(Date(2023, 11, 14)) == "14-11-2023"
  {
  }



}
