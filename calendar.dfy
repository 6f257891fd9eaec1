/** The proleptic Gregorian calendar as Python's `datetime` and pandas' `.dt` accessors use
    it: month lengths, English month and weekday names, day ordinals, the weekday and the
    `%Y-%m-%d` rendering of a date. */
module Calendar {
  import opened Text

  predicate IsLeapYear(y: int) {
    y % 4 == 0 && (y % 100 != 0 || y % 400 == 0)
  }

  function DaysInMonth(y: int, m: int): (n: nat)
    requires 1 <= m <= 12
    ensures 28 <= n <= 31
    ensures n == 29 <==> m == 2 && IsLeapYear(y)
  {
    if m == 2 then (if IsLeapYear(y) then 29 else 28)
    else if m == 4 || m == 6 || m == 9 || m == 11 then 30
    else 31
  }

  /** `datetime.date(y, m, d)` can be built: the month exists and has that day. */
  predicate ValidDate(y: int, m: int, d: int) {
    1 <= m <= 12 && 1 <= d <= DaysInMonth(y, m)
  }

  const MonthNames: seq<string> := ["January", "February", "March", "April", "May", "June",
    "July", "August", "September", "October", "November", "December"]

  /** Weekday names, Monday first, as `date.weekday()` numbers them. */
  const DayNames: seq<string> := ["Monday", "Tuesday", "Wednesday", "Thursday", "Friday",
    "Saturday", "Sunday"]

  /** `.dt.month_name()`. */
  function MonthName(m: int): string
    requires 1 <= m <= 12
  {
    MonthNames[m - 1]
  }

  /** `.dt.day_name()` of a date whose `weekday()` is `w`. */
  function DayName(w: int): string
    requires 0 <= w < 7
  {
    DayNames[w]
  }

  /** Distinct months have distinct names, so grouping by name is grouping by number. */
  lemma MonthNameInjective(a: int, b: int)
    requires 1 <= a <= 12 && 1 <= b <= 12
    ensures MonthName(a) == MonthName(b) <==> a == b
  {
  }

  lemma DayNameInjective(a: int, b: int)
    requires 0 <= a < 7 && 0 <= b < 7
    ensures DayName(a) == DayName(b) <==> a == b
  {
  }

  // ---------------------------------------------------------------------------
  // Ordinals and weekdays

  function DaysBeforeYear(y: int): int
    requires y >= 1
  {
    var p := y - 1;
    p * 365 + p / 4 - p / 100 + p / 400
  }

  /** Days of year `y` before the first of month `m`. */
  function DaysBeforeMonth(y: int, m: int): nat
    requires 1 <= m <= 12
  {
    [0, 31, 59, 90, 120, 151, 181, 212, 243, 273, 304, 334][m - 1]
      + if m > 2 && IsLeapYear(y) then 1 else 0
  }

  lemma DaysBeforeNextMonth(y: int, m: int)
    requires 1 <= m < 12
    ensures DaysBeforeMonth(y, m + 1) == DaysBeforeMonth(y, m) + DaysInMonth(y, m)
  {
  }

  /** `date(y, m, d).toordinal()`: 1 for 1 January of year 1, one more for every day after. */
  function Ordinal(y: int, m: int, d: int): int
    requires y >= 1 && ValidDate(y, m, d)
  {
    DaysBeforeYear(y) + DaysBeforeMonth(y, m) + d
  }

  /** `date(y, m, d).weekday()`: 0 for Monday up to 6 for Sunday. */
  function Weekday(y: int, m: int, d: int): (w: nat)
    requires y >= 1 && ValidDate(y, m, d)
    ensures w < 7
  {
    (Ordinal(y, m, d) + 6) % 7
  }

  /** The calendar day after `(y, m, d)`. */
  function NextDay(y: int, m: int, d: int): (int, int, int)
    requires ValidDate(y, m, d)
  {
    if d < DaysInMonth(y, m) then (y, m, d + 1)
    else if m < 12 then (y, m + 1, 1)
    else (y + 1, 1, 1)
  }

  lemma DivStep4(p: int)
    requires p >= 0
    ensures (p + 1) / 4 - p / 4 == (if (p + 1) % 4 == 0 then 1 else 0)
  {
  }

  lemma DivStep100(p: int)
    requires p >= 0
    ensures (p + 1) / 100 - p / 100 == (if (p + 1) % 100 == 0 then 1 else 0)
  {
  }

  lemma DivStep400(p: int)
    requires p >= 0
    ensures (p + 1) / 400 - p / 400 == (if (p + 1) % 400 == 0 then 1 else 0)
  {
  }

  lemma CenturyDivisibility(y: int)
    ensures y % 400 == 0 ==> y % 100 == 0
    ensures y % 100 == 0 ==> y % 4 == 0
  {
    if y % 100 == 0 {
      var k := y / 100;
      assert y == 4 * (25 * k);
    }
    if y % 400 == 0 {
      var k := y / 400;
      assert y == 100 * (4 * k);
    }
  }

  /** A year has 366 days when it is a leap year and 365 otherwise. */
  lemma YearLength(y: int)
    requires y >= 1
    ensures DaysBeforeYear(y + 1) == DaysBeforeYear(y) + if IsLeapYear(y) then 366 else 365
  {
    var p := y - 1;
    DivStep4(p);
    DivStep100(p);
    DivStep400(p);
    CenturyDivisibility(y);
    assert DaysBeforeYear(y + 1) == y * 365 + y / 4 - y / 100 + y / 400;
    assert DaysBeforeYear(y) == p * 365 + p / 4 - p / 100 + p / 400;
  }

  /** The day after a valid date is a valid date whose ordinal is one larger. */
  lemma NextDayOrdinal(y: int, m: int, d: int)
    requires y >= 1 && ValidDate(y, m, d)
    ensures var (y', m', d') := NextDay(y, m, d);
      y' >= 1 && ValidDate(y', m', d') && Ordinal(y', m', d') == Ordinal(y, m, d) + 1
  {
    if d == DaysInMonth(y, m) {
      if m < 12 {
        DaysBeforeNextMonth(y, m);
      } else {
        YearLength(y);
      }
    }
  }

  /** Weekdays advance by one, cyclically, from one day to the next. */
  lemma WeekdayOfNextDay(y: int, m: int, d: int)
    requires y >= 1 && ValidDate(y, m, d)
    ensures var (y', m', d') := NextDay(y, m, d);
      y' >= 1 && ValidDate(y', m', d') && Weekday(y', m', d') == (Weekday(y, m, d) + 1) % 7
  {
    NextDayOrdinal(y, m, d);
    var (y', m', d') := NextDay(y, m, d);
    var o := Ordinal(y, m, d);
    assert Ordinal(y', m', d') == o + 1;
    WeekStep(o + 6);
  }

  lemma WeekStep(x: int)
    ensures (x + 1) % 7 == (x % 7 + 1) % 7
  {
    var q, r := x / 7, x % 7;
    assert x + 1 == 7 * q + (r + 1);
    if r + 1 == 7 {
      assert x + 1 == 7 * (q + 1);
    }
  }

  /** 1 January 2000 was a Saturday; with `WeekdayOfNextDay` this fixes every weekday. */
  lemma Y2KWasSaturday()
    ensures Weekday(2000, 1, 1) == 5 && DayName(Weekday(2000, 1, 1)) == "Saturday"
  {
  }

  // ---------------------------------------------------------------------------
  // "%Y-%m-%d"

  /** `strftime('%Y-%m-%d')` for a four-digit year. */
  function DateString(y: int, m: int, d: int): (s: string)
    requires 0 <= y < 10000 && ValidDate(y, m, d)
    ensures |s| == 10
  {
    ZeroPad(y, 4) + "-" + ZeroPad(m, 2) + "-" + ZeroPad(d, 2)
  }

  /** A `%Y-%m-%d` string reads back as its date: four digits of year, two of month and two
      of day, separated by dashes. */
  lemma DateStringFields(y: int, m: int, d: int)
    requires 0 <= y < 10000 && ValidDate(y, m, d)
    ensures DateString(y, m, d)[4] == '-' && DateString(y, m, d)[7] == '-'
    ensures AllDigits(DateString(y, m, d)[..4]) && DigitsValue(DateString(y, m, d)[..4]) == y
    ensures AllDigits(DateString(y, m, d)[5..7]) && DigitsValue(DateString(y, m, d)[5..7]) == m
    ensures AllDigits(DateString(y, m, d)[8..]) && DigitsValue(DateString(y, m, d)[8..]) == d
  {
    var s, Y, M, D := DateString(y, m, d), ZeroPad(y, 4), ZeroPad(m, 2), ZeroPad(d, 2);
    assert s == Y + "-" + M + "-" + D;
    assert s[..4] == Y && s[5..7] == M && s[8..] == D;
  }

  /** `(y1, m1, d1)` is an earlier date than `(y2, m2, d2)`. */
  predicate DateBefore(y1: int, m1: int, d1: int, y2: int, m2: int, d2: int) {
    y1 < y2 || (y1 == y2 && (m1 < m2 || (m1 == m2 && d1 < d2)))
  }

  /** Two strings joined by a dash compare first by their left parts (of equal length),
      then by their right parts. */
  lemma LexLessDashed(a: string, c: string, b: string, d: string)
    requires |a| == |b|
    ensures LexLess(a + "-" + c, b + "-" + d) <==> LexLess(a, b) || (a == b && LexLess(c, d))
  {
    assert a + "-" + c == a + ("-" + c) && b + "-" + d == b + ("-" + d);
    LexLessConcat(a, "-" + c, b, "-" + d);
    LexLessConcat("-", c, "-", d);
    LexLessIrreflexive("-");
  }

  /** Sorting `%Y-%m-%d` strings as strings sorts the dates chronologically. */
  lemma DateStringOrder(y1: int, m1: int, d1: int, y2: int, m2: int, d2: int)
    requires 0 <= y1 < 10000 && ValidDate(y1, m1, d1)
    requires 0 <= y2 < 10000 && ValidDate(y2, m2, d2)
    ensures LexLess(DateString(y1, m1, d1), DateString(y2, m2, d2)) <==> DateBefore(y1, m1, d1, y2, m2, d2)
  {
    var D1, D2 := ZeroPad(d1, 2), ZeroPad(d2, 2);
    var YM1, YM2 := ZeroPad(y1, 4) + "-" + ZeroPad(m1, 2), ZeroPad(y2, 4) + "-" + ZeroPad(m2, 2);
    YearMonthOrder(y1, m1, y2, m2);
    LexLessDashed(YM1, D1, YM2, D2);
    ZeroPadOrder(d1, d2, 2);
  }

  /** The `%Y-%m` prefixes sort as the (year, month) pairs do, and are equal exactly when
      the pairs are. */
  lemma YearMonthOrder(y1: int, m1: int, y2: int, m2: int)
    requires 0 <= y1 < 10000 && 1 <= m1 <= 12 && 0 <= y2 < 10000 && 1 <= m2 <= 12
    ensures |ZeroPad(y1, 4) + "-" + ZeroPad(m1, 2)| == |ZeroPad(y2, 4) + "-" + ZeroPad(m2, 2)|
    ensures LexLess(ZeroPad(y1, 4) + "-" + ZeroPad(m1, 2), ZeroPad(y2, 4) + "-" + ZeroPad(m2, 2)) <==>
      y1 < y2 || (y1 == y2 && m1 < m2)
    ensures ZeroPad(y1, 4) + "-" + ZeroPad(m1, 2) == ZeroPad(y2, 4) + "-" + ZeroPad(m2, 2) <==>
      y1 == y2 && m1 == m2
  {
    var Y1, M1, Y2, M2 := ZeroPad(y1, 4), ZeroPad(m1, 2), ZeroPad(y2, 4), ZeroPad(m2, 2);
    LexLessDashed(Y1, M1, Y2, M2);
    ZeroPadOrder(y1, y2, 4);
    ZeroPadInjective(y1, y2, 4);
    ZeroPadOrder(m1, m2, 2);
    ZeroPadInjective(m1, m2, 2);
    DashedInjective(Y1, M1, Y2, M2);
  }

  /** Two strings joined by a dash, with left parts of equal length, are equal only when
      both parts are. */
  lemma DashedInjective(a: string, c: string, b: string, d: string)
    requires |a| == |b|
    ensures a + "-" + c == b + "-" + d <==> a == b && c == d
  {
    if a + "-" + c == b + "-" + d {
      assert a == (a + "-" + c)[..|a|] && b == (b + "-" + d)[..|b|];
      assert c == (a + "-" + c)[|a| + 1..] && d == (b + "-" + d)[|b| + 1..];
    }
  }

  /** Different dates have different `%Y-%m-%d` strings. */
  lemma DateStringInjective(y1: int, m1: int, d1: int, y2: int, m2: int, d2: int)
    requires 0 <= y1 < 10000 && ValidDate(y1, m1, d1)
    requires 0 <= y2 < 10000 && ValidDate(y2, m2, d2)
    ensures DateString(y1, m1, d1) == DateString(y2, m2, d2) ==> y1 == y2 && m1 == m2 && d1 == d2
  {
    if DateString(y1, m1, d1) == DateString(y2, m2, d2) {
      LexLessIrreflexive(DateString(y1, m1, d1));
      DateStringOrder(y1, m1, d1, y2, m2, d2);
      DateStringOrder(y2, m2, d2, y1, m1, d1);
    }
  }
}
