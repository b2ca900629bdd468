/** The calendar arithmetic behind `datetime.now() - timedelta(days=1)` and
    the `strftime` formats `'%Y-%m-%d'` and `'%Y-%m-%d %H:%M:%S'`: proleptic
    Gregorian dates of years 1 to 9999, as Python's `datetime` has them. */
module Dates {
  import opened Wrappers

  datatype Date = Date(year: int, month: int, day: int)

  /** A wall-clock reading: a date and a time of day to the second */
  datatype Moment = Moment(date: Date, hour: int, minute: int, second: int)

  predicate IsLeapYear(y: int) {
    y % 4 == 0 && (y % 100 != 0 || y % 400 == 0)
  }

  function DaysInMonth(y: int, m: int): (n: int)
    requires 1 <= m <= 12
    ensures 28 <= n <= 31
    ensures n == 29 <==> m == 2 && IsLeapYear(y)
  {
    if m == 2 then (if IsLeapYear(y) then 29 else 28)
    else if m == 4 || m == 6 || m == 9 || m == 11 then 30
    else 31
  }

  function DaysInYear(y: int): (r: int) {
    if IsLeapYear(y) then 366 else 365
  }

  /** The dates `datetime.date` accepts */
  predicate Valid(d: Date) {
    1 <= d.year <= 9999 && 1 <= d.month <= 12 && 1 <= d.day <= DaysInMonth(d.year, d.month)
  }

  predicate ValidMoment(t: Moment) {
    Valid(t.date) && 0 <= t.hour < 24 && 0 <= t.minute < 60 && 0 <= t.second < 60
  }

  const First: Date := Date(1, 1, 1)
  const Last: Date := Date(9999, 12, 31)

  /** The date one day earlier; at 0001-01-01 Python raises OverflowError. */
  function PreviousDay(d: Date): (p: Date)
    requires Valid(d) && d != First
    ensures Valid(p)
  {
    if d.day > 1 then Date(d.year, d.month, d.day - 1)
    else if d.month > 1 then Date(d.year, d.month - 1, DaysInMonth(d.year, d.month - 1))
    else Date(d.year - 1, 12, 31)
  }

  /** The date one day later */
  function NextDay(d: Date): (n: Date)
    requires Valid(d) && d != Last
    ensures Valid(n)
  {
    if d.day < DaysInMonth(d.year, d.month) then Date(d.year, d.month, d.day + 1)
    else if d.month < 12 then Date(d.year, d.month + 1, 1)
    else Date(d.year + 1, 1, 1)
  }

  // ---------------------------------------------------------------------
  // Day numbers: the independent reference (Python's `date.toordinal`)

  /** Days in the years before y */
  function DaysBeforeYear(y: int): (r: int)
    requires y >= 1
  {
    var n := y - 1;
    n * 365 + n / 4 - n / 100 + n / 400
  }

  /** Days in the months of year y before month m, by table */
  function DaysBeforeMonth(y: int, m: int): (r: int)
    requires 1 <= m <= 12
  {
    var leap := if IsLeapYear(y) then 1 else 0;
    if m == 1 then 0
    else if m == 2 then 31
    else if m == 3 then 59 + leap
    else if m == 4 then 90 + leap
    else if m == 5 then 120 + leap
    else if m == 6 then 151 + leap
    else if m == 7 then 181 + leap
    else if m == 8 then 212 + leap
    else if m == 9 then 243 + leap
    else if m == 10 then 273 + leap
    else if m == 11 then 304 + leap
    else 334 + leap
  }

  /** Day number of d, counting 0001-01-01 as day 1 */
  function Ordinal(d: Date): (r: int)
    requires Valid(d)
  {
    DaysBeforeYear(d.year) + DaysBeforeMonth(d.year, d.month) + d.day
  }

  lemma DaysBeforeYearStep(y: int)
    requires y >= 1
    ensures DaysBeforeYear(y + 1) == DaysBeforeYear(y) + DaysInYear(y)
  {
    var n := y - 1;
    assert y * 365 == n * 365 + 365;
    assert y / 4 - n / 4 == if y % 4 == 0 then 1 else 0;
    assert y / 100 - n / 100 == if y % 100 == 0 then 1 else 0;
    assert y / 400 - n / 400 == if y % 400 == 0 then 1 else 0;
  }

  lemma DaysBeforeMonthStep(y: int, m: int)
    requires 1 <= m < 12
    ensures DaysBeforeMonth(y, m + 1) == DaysBeforeMonth(y, m) + DaysInMonth(y, m)
  {
  }

  /** The previous day is the day numbered one less. */
  lemma PreviousDayOrdinal(d: Date)
    requires Valid(d) && d != First
    ensures Ordinal(PreviousDay(d)) == Ordinal(d) - 1
  {
    if d.day == 1 && d.month > 1 {
      DaysBeforeMonthStep(d.year, d.month - 1);
    } else if d.day == 1 {
      DaysBeforeYearStep(d.year - 1);
    }
  }

  /** The next day is the day numbered one more. */
  lemma NextDayOrdinal(d: Date)
    requires Valid(d) && d != Last
    ensures Ordinal(NextDay(d)) == Ordinal(d) + 1
  {
    if d.day == DaysInMonth(d.year, d.month) && d.month < 12 {
      DaysBeforeMonthStep(d.year, d.month);
    } else if d.day == DaysInMonth(d.year, d.month) {
      DaysBeforeYearStep(d.year);
    }
  }

  /** A date's number lies within its year's range of numbers. */
  lemma OrdinalInYear(d: Date)
    requires Valid(d)
    ensures DaysBeforeYear(d.year) < Ordinal(d) <= DaysBeforeYear(d.year) + DaysInYear(d.year)
  {
  }

  lemma {:induction false} DaysBeforeYearGrows(a: int, b: int)
    requires 1 <= a <= b
    ensures DaysBeforeYear(a) + 365 * (b - a) <= DaysBeforeYear(b)
    decreases b - a
  {
    if a < b {
      DaysBeforeYearGrows(a, b - 1);
      DaysBeforeYearStep(b - 1);
    }
  }

  /** Distinct valid dates have distinct numbers, so the previous day is the
      only date numbered one less. */
  lemma OrdinalInjective(d1: Date, d2: Date)
    requires Valid(d1) && Valid(d2) && Ordinal(d1) == Ordinal(d2)
    ensures d1 == d2
  {
    if d1.year != d2.year {
      if d1.year < d2.year {
        OrdinalYearOrder(d1, d2);
      } else {
        OrdinalYearOrder(d2, d1);
      }
      assert false;
    }
    SameYearInjective(d1, d2);
  }

  /** Every date of an earlier year has a smaller number. */
  lemma OrdinalYearOrder(d1: Date, d2: Date)
    requires Valid(d1) && Valid(d2) && d1.year < d2.year
    ensures Ordinal(d1) < Ordinal(d2)
  {
    OrdinalInYear(d1);
    OrdinalInYear(d2);
    DaysBeforeYearStep(d1.year);
    DaysBeforeYearGrows(d1.year + 1, d2.year);
  }

  /** Within one year, the day number fixes the month and the day. */
  lemma SameYearInjective(d1: Date, d2: Date)
    requires Valid(d1) && Valid(d2) && d1.year == d2.year
    requires DaysBeforeMonth(d1.year, d1.month) + d1.day == DaysBeforeMonth(d2.year, d2.month) + d2.day
    ensures d1 == d2
  {
    if d1.month != d2.month {
      var lo, hi := if d1.month < d2.month then d1 else d2, if d1.month < d2.month then d2 else d1;
      DaysBeforeMonthStep(lo.year, lo.month);
      DaysBeforeMonthGrows(lo.year, lo.month + 1, hi.month);
      assert false;
    }
  }

  lemma {:induction false} DaysBeforeMonthGrows(y: int, a: int, b: int)
    requires 1 <= a <= b <= 12
    ensures DaysBeforeMonth(y, a) <= DaysBeforeMonth(y, b)
    decreases b - a
  {
    if a < b {
      DaysBeforeMonthGrows(y, a, b - 1);
      DaysBeforeMonthStep(y, b - 1);
    }
  }

  /** One day back then one day forward, and the other way round, are the
      identity. */
  lemma NextOfPrevious(d: Date)
    requires Valid(d) && d != First
    ensures PreviousDay(d) != Last && NextDay(PreviousDay(d)) == d
  {
    PreviousDayOrdinal(d);
    OrdinalInYear(d);
    var p := PreviousDay(d);
    if p == Last {
      DaysBeforeYearStep(9999);
      assert false;
    }
    NextDayOrdinal(p);
    OrdinalInjective(NextDay(p), d);
  }

  lemma PreviousOfNext(d: Date)
    requires Valid(d) && d != Last
    ensures NextDay(d) != First && PreviousDay(NextDay(d)) == d
  {
    NextDayOrdinal(d);
    var n := NextDay(d);
    if n == First {
      OrdinalInYear(d);
      assert false;
    }
    PreviousDayOrdinal(n);
    OrdinalInjective(PreviousDay(n), d);
  }

  /** Month and year rollover on known dates */
  lemma PreviousDayExamples()
    ensures PreviousDay(Date(2024, 3, 15)) == Date(2024, 3, 14)
    ensures PreviousDay(Date(2024, 3, 1)) == Date(2024, 2, 29)
    ensures PreviousDay(Date(2023, 3, 1)) == Date(2023, 2, 28)
    ensures PreviousDay(Date(1900, 3, 1)) == Date(1900, 2, 28)
    ensures PreviousDay(Date(2000, 3, 1)) == Date(2000, 2, 29)
    ensures PreviousDay(Date(2024, 1, 1)) == Date(2023, 12, 31)
    ensures PreviousDay(Date(2024, 5, 1)) == Date(2024, 4, 30)
  {
  }

  // ---------------------------------------------------------------------
  // strftime

  function DigitChar(n: int): (c: char)
    requires 0 <= n <= 9
    ensures '0' <= c <= '9'
  {
    ('0' as int + n) as char
  }

  predicate IsDigit(c: char) {
    '0' <= c <= '9'
  }

  function DigitValue(c: char): (r: int) {
    c as int - '0' as int
  }

  /** Zero-padded two-digit field (`%m`, `%d`, `%H`, `%M`, `%S`) */
  function Two(n: int): (s: string)
    requires 0 <= n < 100
    ensures |s| == 2 && IsDigit(s[0]) && IsDigit(s[1])
  {
    [DigitChar(n / 10), DigitChar(n % 10)]
  }

  /** Zero-padded four-digit year (`%Y`) */
  function Four(n: int): (s: string)
    requires 0 <= n < 10000
    ensures |s| == 4 && forall i :: 0 <= i < 4 ==> IsDigit(s[i])
  {
    Two(n / 100) + Two(n % 100)
  }

  function TwoValue(s: string): (r: int)
    requires |s| == 2
  {
    10 * DigitValue(s[0]) + DigitValue(s[1])
  }

  function FourValue(s: string): (r: int)
    requires |s| == 4
  {
    100 * TwoValue(s[..2]) + TwoValue(s[2..])
  }

  /** `strftime('%Y-%m-%d')` */
  function FormatDate(d: Date): (s: string)
    requires Valid(d)
    ensures |s| == 10 && s[4] == '-' && s[7] == '-'
  {
    Four(d.year) + "-" + Two(d.month) + "-" + Two(d.day)
  }

  /** `strftime('%Y-%m-%d %H:%M:%S')` */
  function FormatMoment(t: Moment): (s: string)
    requires ValidMoment(t)
    ensures |s| == 19 && s[..10] == FormatDate(t.date)
    ensures s[10] == ' ' && s[13] == ':' && s[16] == ':'
  {
    FormatDate(t.date) + " " + Two(t.hour) + ":" + Two(t.minute) + ":" + Two(t.second)
  }

  /** Reading a `YYYY-MM-DD` text back: the inverse of FormatDate */
  function ParseDate(s: string): (r: Option<Date>) {
    if |s| == 10 && s[4] == '-' && s[7] == '-' &&
       (forall i :: 0 <= i < 10 && i != 4 && i != 7 ==> IsDigit(s[i]))
    then
      var d := Date(FourValue(s[..4]), TwoValue(s[5..7]), TwoValue(s[8..]));
      if Valid(d) then Some(d) else None
    else None
  }

  /** Reading a `YYYY-MM-DD HH:MM:SS` text back: the inverse of FormatMoment */
  function ParseMoment(s: string): (r: Option<Moment>) {
    if |s| == 19 && s[10] == ' ' && s[13] == ':' && s[16] == ':' &&
       IsDigit(s[11]) && IsDigit(s[12]) && IsDigit(s[14]) && IsDigit(s[15]) &&
       IsDigit(s[17]) && IsDigit(s[18])
    then
      match ParseDate(s[..10])
      case None => None
      case Some(d) =>
        var t := Moment(d, TwoValue(s[11..13]), TwoValue(s[14..16]), TwoValue(s[17..]));
        if ValidMoment(t) then Some(t) else None
    else None
  }

  lemma TwoRoundTrip(n: int)
    requires 0 <= n < 100
    ensures TwoValue(Two(n)) == n
  {
  }

  lemma FourRoundTrip(n: int)
    requires 0 <= n < 10000
    ensures FourValue(Four(n)) == n
  {
    var s := Four(n);
    assert s[..2] == Two(n / 100) && s[2..] == Two(n % 100);
    TwoRoundTrip(n / 100);
    TwoRoundTrip(n % 100);
  }

  /** The formatted date reads back as the same date. */
  lemma ParseFormatDate(d: Date)
    requires Valid(d)
    ensures ParseDate(FormatDate(d)) == Some(d)
  {
    var s := FormatDate(d);
    FourRoundTrip(d.year);
    TwoRoundTrip(d.month);
    TwoRoundTrip(d.day);
    assert s[..4] == Four(d.year);
    assert s[5..7] == Two(d.month);
    assert s[8..] == Two(d.day);
  }

  /** The formatted moment reads back as the same moment. */
  lemma ParseFormatMoment(t: Moment)
    requires ValidMoment(t)
    ensures ParseMoment(FormatMoment(t)) == Some(t)
  {
    var s := FormatMoment(t);
    ParseFormatDate(t.date);
    TwoRoundTrip(t.hour);
    TwoRoundTrip(t.minute);
    TwoRoundTrip(t.second);
    assert s[11..13] == Two(t.hour);
    assert s[14..16] == Two(t.minute);
    assert s[17..] == Two(t.second);
  }

  /** Distinct dates give distinct texts. */
  lemma FormatDateInjective(d1: Date, d2: Date)
    requires Valid(d1) && Valid(d2) && FormatDate(d1) == FormatDate(d2)
    ensures d1 == d2
  {
    ParseFormatDate(d1);
    ParseFormatDate(d2);
  }
}
