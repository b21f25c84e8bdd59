/**
 * Calendar dates as the service sees them: Go's `time.Parse` with the
 * layouts "02/01/2006" and "02/01", `Format("02/01/2006")`,
 * `Format("15:04")`, the weekday of a date and the "before" comparison of
 * two midnights.
 */
module Calendar {
  import opened Wrappers
  import opened Text

  datatype Date = Date(year: int, month: int, day: int)

  predicate IsLeap(year: int) {
    year % 4 == 0 && (year % 100 != 0 || year % 400 == 0)
  }

  function DaysIn(month: int, year: int): int {
    if month == 2 then (if IsLeap(year) then 29 else 28)
    else if month == 4 || month == 6 || month == 9 || month == 11 then 30
    else 31
  }

  predicate ValidDate(d: Date) {
    1 <= d.month <= 12 && 1 <= d.day <= DaysIn(d.month, d.year)
  }

  /** A date that "02/01/2006" can print: four-digit year. */
  predicate Printable(d: Date) {
    ValidDate(d) && 0 <= d.year <= 9999
  }

  function DigitValue(c: char): int
    requires IsDigit(c)
  {
    c as int - '0' as int
  }

  function DigitChar(n: int): char
    requires 0 <= n < 10
  {
    ('0' as int + n) as char
  }

  lemma DigitChars()
    ensures DigitChar(0) == '0' && DigitChar(1) == '1' && DigitChar(2) == '2' && DigitChar(3) == '3'
    ensures DigitChar(4) == '4' && DigitChar(5) == '5' && DigitChar(6) == '6' && DigitChar(7) == '7'
    ensures DigitChar(8) == '8' && DigitChar(9) == '9'
  {
  }

  /** Go's fixed-width numeric fields: exactly two (or four) ASCII digits. */
  function Number2(s: string, i: int): int
    requires 0 <= i && i + 2 <= |s| && IsDigit(s[i]) && IsDigit(s[i + 1])
  {
    10 * DigitValue(s[i]) + DigitValue(s[i + 1])
  }

  function Pad2(n: int): string
    requires 0 <= n < 100
  {
    [DigitChar(n / 10), DigitChar(n % 10)]
  }

  function Pad4(n: int): string
    requires 0 <= n < 10000
  {
    Pad2(n / 100) + Pad2(n % 100)
  }

  predicate DateShaped(s: string) {
    |s| == 10 && s[2] == '/' && s[5] == '/'
    && IsDigit(s[0]) && IsDigit(s[1]) && IsDigit(s[3]) && IsDigit(s[4])
    && IsDigit(s[6]) && IsDigit(s[7]) && IsDigit(s[8]) && IsDigit(s[9])
  }

  /**
   * `time.Parse("02/01/2006", s)`: two-digit day, '/', two-digit month, '/',
   * four-digit year and nothing else; the month must lie in 1..12 and the day
   * in 1..(days of that month in that year).
   */
  function ParseDate(s: string): (r: Option<Date>)
    ensures r.Some? ==> Printable(r.value)
    ensures r.Some? ==> DateShaped(s)
  {
    if DateShaped(s) then
      var d := Date(100 * Number2(s, 6) + Number2(s, 8), Number2(s, 3), Number2(s, 0));
      if ValidDate(d) then Some(d) else None
    else None
  }

  /** `t.Format("02/01/2006")`. */
  function FormatDate(d: Date): string
    requires Printable(d)
  {
    Pad2(d.day) + "/" + Pad2(d.month) + "/" + Pad4(d.year)
  }

  lemma DigitRoundTrip(n: int)
    requires 0 <= n < 10
    ensures IsDigit(DigitChar(n)) && DigitValue(DigitChar(n)) == n
  {
  }

  /** Printing a date and parsing the text gives the date back. */
  lemma ParseFormatDate(d: Date)
    requires Printable(d)
    ensures ParseDate(FormatDate(d)) == Some(d)
  {
    var s := FormatDate(d);
    DigitRoundTrip(d.day / 10);
    DigitRoundTrip(d.day % 10);
    DigitRoundTrip(d.month / 10);
    DigitRoundTrip(d.month % 10);
    DigitRoundTrip(d.year / 100 / 10);
    DigitRoundTrip(d.year / 100 % 10);
    DigitRoundTrip(d.year % 100 / 10);
    DigitRoundTrip(d.year % 100 % 10);
    assert DateShaped(s);
    assert Number2(s, 0) == d.day;
    assert Number2(s, 3) == d.month;
    assert Number2(s, 6) == d.year / 100;
    assert Number2(s, 8) == d.year % 100;
  }

  /** A text that parses is exactly the printed form of its date. */
  lemma FormatParseDate(s: string)
    requires ParseDate(s).Some?
    ensures FormatDate(ParseDate(s).value) == s
  {
    var d := ParseDate(s).value;
    var t := FormatDate(d);
    assert d.day / 10 == DigitValue(s[0]) && d.day % 10 == DigitValue(s[1]);
    assert d.month / 10 == DigitValue(s[3]) && d.month % 10 == DigitValue(s[4]);
    assert d.year / 100 == Number2(s, 6) && d.year % 100 == Number2(s, 8);
    assert t[0] == s[0] && t[1] == s[1] && t[3] == s[3] && t[4] == s[4];
    assert t[6] == s[6] && t[7] == s[7] && t[8] == s[8] && t[9] == s[9];
    assert t == s;
  }

  /** Two printable dates print alike only when they are the same date. */
  lemma FormatDateInjective(a: Date, b: Date)
    requires Printable(a) && Printable(b)
    ensures FormatDate(a) == FormatDate(b) <==> a == b
  {
    ParseFormatDate(a);
    ParseFormatDate(b);
  }

  /**
   * `time.Parse("02/01", s)`: two-digit day, '/', two-digit month.  The
   * layout has no year, so the result lies in year 0, a leap year: "29/02"
   * is accepted.
   */
  function ParseDayMonth(s: string): (r: Option<Date>)
    ensures r.Some? ==> r.value.year == 0 && ValidDate(r.value)
    ensures r.Some? ==> |s| == 5 && s[2] == '/'
  {
    if |s| == 5 && s[2] == '/'
       && IsDigit(s[0]) && IsDigit(s[1]) && IsDigit(s[3]) && IsDigit(s[4])
    then
      var d := Date(0, Number2(s, 3), Number2(s, 0));
      if ValidDate(d) then Some(d) else None
    else None
  }

  /** Every valid day of year 0, 29 February included, printed as "dd/mm" parses back to itself. */
  lemma ParseFormatDayMonth(d: Date)
    requires d.year == 0 && ValidDate(d)
    ensures ParseDayMonth(Pad2(d.day) + "/" + Pad2(d.month)) == Some(d)
  {
    var s := Pad2(d.day) + "/" + Pad2(d.month);
    DigitRoundTrip(d.day / 10);
    DigitRoundTrip(d.day % 10);
    DigitRoundTrip(d.month / 10);
    DigitRoundTrip(d.month % 10);
    assert s[0] == DigitChar(d.day / 10) && s[1] == DigitChar(d.day % 10);
    assert s[3] == DigitChar(d.month / 10) && s[4] == DigitChar(d.month % 10);
    assert Number2(s, 0) == d.day;
    assert Number2(s, 3) == d.month;
  }

  /** A "dd/mm" token that parses is exactly the printed day and month of its result. */
  lemma FormatParseDayMonth(s: string)
    requires ParseDayMonth(s).Some?
    ensures var v := ParseDayMonth(s).value; Pad2(v.day) + "/" + Pad2(v.month) == s
  {
    var v := ParseDayMonth(s).value;
    var t := Pad2(v.day) + "/" + Pad2(v.month);
    assert v.day / 10 == DigitValue(s[0]) && v.day % 10 == DigitValue(s[1]);
    assert v.month / 10 == DigitValue(s[3]) && v.month % 10 == DigitValue(s[4]);
    assert t[0] == s[0] && t[1] == s[1] && t[3] == s[3] && t[4] == s[4];
    assert t == s;
  }

  /** `a.Before(b)` for two dates parsed at midnight in the same zone. */
  predicate Before(a: Date, b: Date) {
    a.year < b.year
    || (a.year == b.year && a.month < b.month)
    || (a.year == b.year && a.month == b.month && a.day < b.day)
  }

  /** The year counted from March, so that a leap day is the last day of its year. */
  function MarchYear(d: Date): int {
    if d.month <= 2 then d.year - 1 else d.year
  }

  /** The month counted from March: 0 for March, 11 for February. */
  function MarchMonth(d: Date): int {
    if d.month > 2 then d.month - 3 else d.month + 9
  }

  /** Days from the origin of the proleptic Gregorian calendar to the March that starts year `y`. */
  function YearStart(y: int): int {
    365 * y + y / 4 - y / 100 + y / 400
  }

  /** Days from March 1 to the first of March-based month `mp`. */
  function MonthStart(mp: int): int {
    (153 * mp + 2) / 5
  }

  /** Days since 1 January 1970 in the proleptic Gregorian calendar. */
  function DayNumber(d: Date): int {
    YearStart(MarchYear(d)) + MonthStart(MarchMonth(d)) + d.day - 1 - 719468
  }

  /** `t.Weekday()`: 0 is Sunday, 6 is Saturday; 1 January 1970 was a Thursday (4). */
  function Weekday(d: Date): (w: int)
    ensures 0 <= w < 7
  {
    (DayNumber(d) + 4) % 7
  }

  predicate IsWeekend(d: Date) {
    Weekday(d) == 0 || Weekday(d) == 6
  }

  /** The calendar day after `d`. */
  function NextDay(d: Date): Date {
    if d.day < DaysIn(d.month, d.year) then Date(d.year, d.month, d.day + 1)
    else if d.month < 12 then Date(d.year, d.month + 1, 1)
    else Date(d.year + 1, 1, 1)
  }

  lemma FloorSteps(y: int)
    ensures y / 4 - (y - 1) / 4 == if y % 4 == 0 then 1 else 0
    ensures y / 100 - (y - 1) / 100 == if y % 100 == 0 then 1 else 0
    ensures y / 400 - (y - 1) / 400 == if y % 400 == 0 then 1 else 0
  {
    var q4, q100, q400 := y / 4, y / 100, y / 400;
    assert y == 4 * q4 + y % 4;
    assert y == 100 * q100 + y % 100;
    assert y == 400 * q400 + y % 400;
  }

  /** A multiple of 400 is a multiple of 100 and of 4. */
  lemma Multiple400(y: int)
    requires y % 400 == 0
    ensures y % 100 == 0 && y % 4 == 0
  {
    var k := y / 400;
    assert y == 100 * (4 * k);
    assert y == 4 * (100 * k);
  }

  /** A multiple of 100 is a multiple of 4. */
  lemma Multiple100(y: int)
    requires y % 100 == 0
    ensures y % 4 == 0
  {
    var k := y / 100;
    assert y == 4 * (25 * k);
  }

  /** Moving from year y - 1 to year y adds one leap day exactly when y is a leap year. */
  lemma LeapDays(y: int)
    ensures (y / 4 - y / 100 + y / 400) - ((y - 1) / 4 - (y - 1) / 100 + (y - 1) / 400)
            == if IsLeap(y) then 1 else 0
  {
    FloorSteps(y);
    if y % 400 == 0 {
      Multiple400(y);
    } else if y % 100 == 0 {
      Multiple100(y);
    }
  }

  /** A March-based month is as long as the calendar month it stands for. */
  lemma MonthLengths(mp: int)
    requires 0 <= mp < 11
    ensures MonthStart(mp + 1) - MonthStart(mp) == DaysIn(if mp < 10 then mp + 3 else mp - 9, 1)
  {
  }

  /** A March-based year is 366 days long exactly when its February has a leap day. */
  lemma YearLength(y: int)
    ensures YearStart(y + 1) - YearStart(y) == if IsLeap(y + 1) then 366 else 365
  {
    LeapDays(y + 1);
  }

  /** Consecutive calendar days have consecutive day numbers. */
  lemma NextDayNumber(d: Date)
    requires ValidDate(d)
    ensures ValidDate(NextDay(d))
    ensures DayNumber(NextDay(d)) == DayNumber(d) + 1
  {
    var n := NextDay(d);
    if d.day < DaysIn(d.month, d.year) {
    } else if d.month == 2 {
      assert MarchYear(n) == MarchYear(d) + 1;
      YearLength(MarchYear(d));
      assert MonthStart(11) == 337 && MonthStart(0) == 0;
    } else {
      assert MarchYear(n) == MarchYear(d);
      assert MarchMonth(n) == MarchMonth(d) + 1;
      MonthLengths(MarchMonth(d));
    }
  }

  lemma ModSevenStep(x: int)
    ensures (x + 1) % 7 == (x % 7 + 1) % 7
  {
    var q, r := x / 7, x % 7;
    assert x == 7 * q + r;
    if r == 6 {
      assert x + 1 == 7 * (q + 1);
    } else {
      assert x + 1 == 7 * q + (r + 1);
    }
  }

  /** Hence the weekday of the next day is the following weekday. */
  lemma NextWeekday(d: Date)
    requires ValidDate(d)
    ensures Weekday(NextDay(d)) == (Weekday(d) + 1) % 7
  {
    NextDayNumber(d);
    ModSevenStep(DayNumber(d) + 4);
  }
  /**
   * The anchor: 1 January 1970 is day 0 and a Thursday.  With `NextWeekday`
   * this fixes the weekday of every valid date.
   */
  lemma WeekdayEpoch()
    ensures DayNumber(Date(1970, 1, 1)) == 0
    ensures Weekday(Date(1970, 1, 1)) == 4
  {
  }


  /** `now.Format("15:04")`: two-digit hour, ':', two-digit minute. */
  function ClockText(hour: int, minute: int): string
    requires 0 <= hour < 24 && 0 <= minute < 60
  {
    Pad2(hour) + ":" + Pad2(minute)
  }

  /** The five characters of a "15:04" text. */
  lemma ClockChars(hour: int, minute: int)
    requires 0 <= hour < 24 && 0 <= minute < 60
    ensures ClockText(hour, minute)
      == [DigitChar(hour / 10), DigitChar(hour % 10), ':', DigitChar(minute / 10), DigitChar(minute % 10)]
  {
  }

  lemma DigitCharOrder(a: int, b: int)
    requires 0 <= a < 10 && 0 <= b < 10
    ensures DigitChar(a) < DigitChar(b) <==> a < b
    ensures DigitChar(a) == DigitChar(b) <==> a == b
  {
  }

  /** Comparing two "15:04" texts as strings compares the times of day they name. */
  lemma ClockTextOrder(h1: int, m1: int, h2: int, m2: int)
    requires 0 <= h1 < 24 && 0 <= m1 < 60 && 0 <= h2 < 24 && 0 <= m2 < 60
    ensures LexLe(ClockText(h1, m1), ClockText(h2, m2)) <==> h1 * 60 + m1 <= h2 * 60 + m2
  {
    var a, b := ClockText(h1, m1), ClockText(h2, m2);
    DigitCharOrder(h1 / 10, h2 / 10);
    DigitCharOrder(h1 % 10, h2 % 10);
    DigitCharOrder(m1 / 10, m2 / 10);
    DigitCharOrder(m1 % 10, m2 % 10);
    var a1, b1 := a[1..], b[1..];
    var a2, b2 := a1[1..], b1[1..];
    var a3, b3 := a2[1..], b2[1..];
    var a4, b4 := a3[1..], b3[1..];
    assert a4[1..] == [] && b4[1..] == [];
    assert LexLe(a4, b4) <==> m1 % 10 <= m2 % 10;
    assert LexLe(a3, b3) <==> m1 <= m2;
    assert LexLe(a2, b2) <==> m1 <= m2;
    assert LexLe(a1, b1) <==> h1 % 10 < h2 % 10 || (h1 % 10 == h2 % 10 && m1 <= m2);
    assert LexLe(a, b) <==> h1 < h2 || (h1 == h2 && m1 <= m2);
  }
}
