/**
 * Calendar dates as the cleaning pass produces them: `pd.to_datetime(...,
 * format='%d-%m-%Y')` on the order-date text, the strict "before the cutoff"
 * comparison the pages filter with, and the `%U` week label of `strftime`.
 */
module Dates {
  import opened Outcomes
  import opened Text

  /** A day of the proleptic Gregorian calendar. */
  datatype Date = Date(year: int, month: int, day: int)

  predicate IsLeapYear(y: int)
  {
    y % 4 == 0 && (y % 100 != 0 || y % 400 == 0)
  }

  function DaysInMonth(y: int, m: int): (n: int)
    requires 1 <= m <= 12
    ensures 28 <= n <= 31
  {
    if m == 2 then (if IsLeapYear(y) then 29 else 28)
    else if m == 4 || m == 6 || m == 9 || m == 11 then 30
    else 31
  }

  predicate IsValid(d: Date)
  {
    1 <= d.month <= 12 && 1 <= d.day <= DaysInMonth(d.year, d.month)
  }

  /** `a < b` on dates (midnight timestamps compare like their days). */
  predicate Before(a: Date, b: Date)
  {
    || a.year < b.year
    || (a.year == b.year && a.month < b.month)
    || (a.year == b.year && a.month == b.month && a.day < b.day)
  }

  /** `Before` is a strict total order. */
  lemma BeforeIsStrictTotalOrder(a: Date, b: Date, c: Date)
    ensures !Before(a, a)
    ensures Before(a, b) && Before(b, c) ==> Before(a, c)
    ensures a == b || Before(a, b) || Before(b, a)
    ensures !(Before(a, b) && Before(b, a))
  {
  }

  /**
   * The first and the last whole day inside the range of a nanosecond
   * timestamp (1677-09-21 00:12:43.145224193 to 2262-04-11 23:47:16.854775807);
   * a parsed date outside it is an out-of-bounds error.
   */
  const FirstTimestampDay := Date(1677, 9, 22)
  const LastTimestampDay := Date(2262, 4, 11)

  predicate InTimestampRange(d: Date)
  {
    !Before(d, FirstTimestampDay) && !Before(LastTimestampDay, d)
  }

  /**
   * `%d`: two digits from 01 to 31, one digit from 1 to 9, or a space and
   * one digit from 1 to 9.
   */
  function DayField(t: string): (r: Option<int>)
    ensures r.Some? ==> 1 <= r.value <= 31
  {
    if |t| == 2 && t[0] == ' ' && '1' <= t[1] <= '9' then Some(DigitValue(t[1]))
    else if (|t| == 1 || |t| == 2) && AllDigits(t) && 1 <= RunValue(t) <= 31 then Some(RunValue(t))
    else None
  }

  /** `%m`: two digits from 01 to 12 or one digit from 1 to 9. */
  function MonthField(t: string): (r: Option<int>)
    ensures r.Some? ==> 1 <= r.value <= 12
  {
    if (|t| == 1 || |t| == 2) && AllDigits(t) && 1 <= RunValue(t) <= 12 then Some(RunValue(t))
    else None
  }

  /** `%Y`: exactly four digits. */
  function YearField(t: string): Option<int>
  {
    if |t| == 4 && AllDigits(t) then Some(RunValue(t)) else None
  }

  /**
   * The order-date text read with the format `%d-%m-%Y`, matched in full:
   * none of the three fields can hold a dash, so the first two dashes
   * separate them. A matching text that names no calendar day, or a day
   * outside the timestamp range, is an error as well.
   */
  function ParseOrderDate(s: string): (r: Option<Date>)
    ensures r.Some? ==> IsValid(r.value) && InTimestampRange(r.value)
  {
    match IndexOf(s, '-')
    case None => None
    case Some(i) =>
      var rest := s[i + 1..];
      match IndexOf(rest, '-')
      case None => None
      case Some(j) =>
        match (DayField(s[..i]), MonthField(rest[..j]), YearField(rest[j + 1..]))
        case (Some(d), Some(m), Some(y)) =>
          var date := Date(y, m, d);
          if IsValid(date) && InTimestampRange(date) then Some(date) else None
        case _ => None
  }

  /** Two decimal digits, zero padded. */
  function Pad2(n: nat): (r: string)
    requires n < 100
    ensures |r| == 2 && AllDigits(r)
  {
    [DigitChar(n / 10), DigitChar(n % 10)]
  }

  /** Four decimal digits, zero padded. */
  function Pad4(n: nat): (r: string)
    requires n < 10000
    ensures |r| == 4 && AllDigits(r)
  {
    Pad2(n / 100) + Pad2(n % 100)
  }

  lemma Pad2Value(n: nat)
    requires n < 100
    ensures RunValue(Pad2(n)) == n
  {
    var s := Pad2(n);
    assert s[..1] == [s[0]];
    assert [s[0]][..0] == [];
    assert RunValue([s[0]]) == n / 10;
    assert RunValue(s) == 10 * RunValue(s[..1]) + n % 10;
  }

  lemma Pad4Value(n: nat)
    requires n < 10000
    ensures RunValue(Pad4(n)) == n
  {
    var s := Pad4(n);
    assert s[..3][..2][..1][..0] == [];
    assert s[..3][..2][..1] == [s[0]];
    assert s[..3][..2] == [s[0], s[1]];
    assert s[..3] == [s[0], s[1], s[2]];
    Pad2Value(n / 100);
    Pad2Value(n % 100);
    assert RunValue(Pad2(n / 100)) == 10 * DigitValue(s[0]) + DigitValue(s[1]);
  }

  /** A date written back in the `dd-mm-yyyy` form of the data file. */
  function FormatDate(d: Date): string
    requires IsValid(d) && InTimestampRange(d)
  {
    Pad2(d.day) + "-" + Pad2(d.month) + "-" + Pad4(d.year)
  }

  /** Reading a written date gives the date back. */
  lemma ParseFormatRoundTrip(d: Date)
    requires IsValid(d) && InTimestampRange(d)
    ensures ParseOrderDate(FormatDate(d)) == Some(d)
  {
    var s := FormatDate(d);
    assert IndexOf(s, '-') == Some(2) by {
      assert s[2] == '-' && IsDigit(s[0]) && IsDigit(s[1]);
    }
    var rest := s[3..];
    assert rest == Pad2(d.month) + "-" + Pad4(d.year);
    assert IndexOf(rest, '-') == Some(2) by {
      assert rest[2] == '-' && IsDigit(rest[0]) && IsDigit(rest[1]);
    }
    assert s[..2] == Pad2(d.day);
    assert rest[..2] == Pad2(d.month);
    assert rest[3..] == Pad4(d.year);
    Pad2Value(d.day);
    Pad2Value(d.month);
    Pad4Value(d.year);
    assert Pad2(d.day)[0] != ' ';
  }

  /** The form the data file uses. */
  lemma ParseOrderDateExample()
    ensures ParseOrderDate("19-02-2022") == Some(Date(2022, 2, 19))
  {
    var a := Date(2022, 2, 19);
    ParseFormatRoundTrip(a);
    assert FormatDate(a) == "19-02-2022";
  }

  lemma ParseOrderDateSecondExample()
    ensures ParseOrderDate("11-02-2022") == Some(Date(2022, 2, 11))
  {
    var b := Date(2022, 2, 11);
    ParseFormatRoundTrip(b);
    assert FormatDate(b) == "11-02-2022";
  }

  /** Text in the year-first layout is rejected. */
  lemma ParseOrderDateRejectsLayout()
    ensures ParseOrderDate("2022-02-19") == None
  {
    var s := "2022-02-19";
    assert IndexOf(s, '-') == Some(4) by { assert s[4] == '-' && '-' !in s[..4]; }
    assert DayField(s[..4]) == None;
  }

  /** Text that names no calendar day is rejected. */
  lemma ParseOrderDateRejectsDay()
    ensures ParseOrderDate("30-02-2022") == None
  {
    var t := "30-02-2022";
    assert t == Pad2(30) + "-" + Pad2(2) + "-" + Pad4(2022);
    RejectsInvalid(Date(2022, 2, 30));
  }

  /** A text in the right layout that names a day the month does not have is rejected. */
  lemma RejectsInvalid(d: Date)
    requires 1 <= d.day <= 31 && 1 <= d.month <= 12 && 0 <= d.year < 10000
    requires !IsValid(d)
    ensures ParseOrderDate(Pad2(d.day) + "-" + Pad2(d.month) + "-" + Pad4(d.year)) == None
  {
    var s := Pad2(d.day) + "-" + Pad2(d.month) + "-" + Pad4(d.year);
    assert IndexOf(s, '-') == Some(2) by {
      assert s[2] == '-' && IsDigit(s[0]) && IsDigit(s[1]);
    }
    var rest := s[3..];
    assert rest == Pad2(d.month) + "-" + Pad4(d.year);
    assert IndexOf(rest, '-') == Some(2) by {
      assert rest[2] == '-' && IsDigit(rest[0]) && IsDigit(rest[1]);
    }
    assert s[..2] == Pad2(d.day);
    assert rest[..2] == Pad2(d.month);
    assert rest[3..] == Pad4(d.year);
    Pad2Value(d.day);
    Pad2Value(d.month);
    Pad4Value(d.year);
  }

  // ---------------------------------------------------------------------
  // strftime('%U')

  /** Days of the year before the first of month `m`. */
  function DaysBeforeMonth(y: int, m: int): (n: nat)
    requires 1 <= m <= 12
    ensures n + DaysInMonth(y, m) <= (if IsLeapYear(y) then 366 else 365)
  {
    var common :=
      if m == 1 then 0 else if m == 2 then 31 else if m == 3 then 59 else if m == 4 then 90
      else if m == 5 then 120 else if m == 6 then 151 else if m == 7 then 181
      else if m == 8 then 212 else if m == 9 then 243 else if m == 10 then 273
      else if m == 11 then 304 else 334;
    if m > 2 && IsLeapYear(y) then common + 1 else common
  }

  /** `tm_yday`: the day of the year counted from 0. */
  function DayOfYear(d: Date): (n: nat)
    requires IsValid(d)
    ensures n < (if IsLeapYear(d.year) then 366 else 365)
  {
    DaysBeforeMonth(d.year, d.month) + d.day - 1
  }

  /** Days from 0001-01-01 to the first day of year `y`. */
  function DaysBeforeYear(y: int): int
  {
    var p := y - 1;
    365 * p + p / 4 - p / 100 + p / 400
  }

  /** `tm_wday` of day `k` (from 0) of year `y`: 0 is Sunday; 0001-01-01 was a Monday. */
  function WeekdayOf(y: int, k: int): (w: nat)
    ensures w < 7
  {
    (DaysBeforeYear(y) + k + 1) % 7
  }

  function Weekday(d: Date): (w: nat)
    requires IsValid(d)
    ensures w < 7
  {
    WeekdayOf(d.year, DayOfYear(d))
  }

  /** `%U` of day `k` of year `y`: weeks start on Sunday, days before the first Sunday are week 0. */
  function WeekNumber(y: int, k: int): int
  {
    (k + 7 - WeekdayOf(y, k)) / 7
  }

  function WeekOfYear(d: Date): (w: int)
    requires IsValid(d)
    ensures 0 <= w <= 53
  {
    WeekNumber(d.year, DayOfYear(d))
  }

  /** The text `strftime('%U')` writes: the week number as two digits. */
  function WeekLabel(d: Date): (r: string)
    requires IsValid(d)
    ensures |r| == 2 && AllDigits(r) && RunValue(r) == WeekOfYear(d)
  {
    Pad2Value(WeekOfYear(d));
    Pad2(WeekOfYear(d))
  }

  /** The first day of a year is in week 1 when it is a Sunday and in week 0 otherwise. */
  lemma FirstDayWeek(y: int)
    ensures WeekNumber(y, 0) == if WeekdayOf(y, 0) == 0 then 1 else 0
  {
  }

  /** Going to the next day, the week number grows by one exactly when that day is a Sunday. */
  lemma {:induction false} NextDayWeek(y: int, k: nat)
    ensures WeekdayOf(y, k + 1) == (WeekdayOf(y, k) + 1) % 7
    ensures WeekNumber(y, k + 1) == WeekNumber(y, k) + (if WeekdayOf(y, k + 1) == 0 then 1 else 0)
  {
    var c := DaysBeforeYear(y) + k + 1;
    var w := c % 7;
    assert c == 7 * (c / 7) + w;
    assert c + 1 == 7 * (c / 7) + w + 1;
    if w < 6 {
      assert (c + 1) % 7 == w + 1;
      assert k + 1 + 7 - (w + 1) == k + 7 - w;
    } else {
      assert c + 1 == 7 * (c / 7 + 1);
      assert (c + 1) % 7 == 0;
      assert k + 1 + 7 - 0 == (k + 7 - 6) + 7;
    }
  }

  /** 2022-02-19 was a Saturday in week 07. */
  lemma WeekExample()
    ensures Weekday(Date(2022, 2, 19)) == 6
    ensures WeekLabel(Date(2022, 2, 19)) == "07"
  {
    assert DayOfYear(Date(2022, 2, 19)) == 49;
    assert DaysBeforeYear(2022) == 738155;
  }
}
