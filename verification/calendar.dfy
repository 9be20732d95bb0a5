/** Local calendar dates: the Gregorian calendar the viewing device's clock
    reports, day numbers for comparing and subtracting instants, the next day,
    and the "YYYY-MM-DD" key the schedule table is indexed by. */
module Calendar {
  import opened Digits

  datatype Date = Date(year: int, month: int, day: int)

  predicate IsLeapYear(y: int) {
    (y % 4 == 0 && y % 100 != 0) || y % 400 == 0
  }

  function DaysInMonth(y: int, m: int): nat
    requires 1 <= m <= 12
  {
    if m == 2 then (if IsLeapYear(y) then 29 else 28)
    else if m == 4 || m == 6 || m == 9 || m == 11 then 30
    else 31
  }

  predicate ValidDate(d: Date) {
    1 <= d.month <= 12 && 1 <= d.day <= DaysInMonth(d.year, d.month)
  }

  function DaysInYear(y: int): nat {
    if IsLeapYear(y) then 366 else 365
  }

  /** Leap years from year 1 up to but not including year y, in the proleptic
      Gregorian calendar (floor division carries the count to earlier years). */
  function LeapYearsBefore(y: int): int {
    (y - 1) / 4 - (y - 1) / 100 + (y - 1) / 400
  }

  /** Days from 1970-01-01 to the first day of year y (negative before 1970). */
  function DaysBeforeYear(y: int): int {
    365 * (y - 1970) + LeapYearsBefore(y) - LeapYearsBefore(1970)
  }

  /** Days in the months of year y before month m. */
  function DaysBeforeMonth(y: int, m: int): nat
    requires 1 <= m <= 12
  {
    var leapDay := if m > 2 && IsLeapYear(y) then 1 else 0;
    [0, 31, 59, 90, 120, 151, 181, 212, 243, 273, 304, 334][m - 1] + leapDay
  }

  /** The day's position in the local day count, 1970-01-01 being day 0. */
  function DayNumber(d: Date): int
    requires ValidDate(d)
  {
    DaysBeforeYear(d.year) + DaysBeforeMonth(d.year, d.month) + d.day - 1
  }

  /** The calendar day after d: the date JavaScript's setDate(getDate() + 1) moves to. */
  function Tomorrow(d: Date): (t: Date)
    requires ValidDate(d)
    ensures ValidDate(t)
    ensures DayNumber(t) == DayNumber(d) + 1
  {
    if d.day < DaysInMonth(d.year, d.month) then
      Date(d.year, d.month, d.day + 1)
    else if d.month < 12 then
      Date(d.year, d.month + 1, 1)
    else
      YearStep(d.year);
      Date(d.year + 1, 1, 1)
  }

  /** Each year adds its own length to the day count. */
  lemma YearStep(y: int)
    ensures DaysBeforeYear(y + 1) == DaysBeforeYear(y) + DaysInYear(y)
  {
    MultipleStep(y, 4);
    MultipleStep(y, 100);
    MultipleStep(y, 400);
    if y % 400 == 0 {
      assert y == (y / 400 * 4) * 100;
      assert y == (y / 400 * 100) * 4;
    } else if y % 100 == 0 {
      assert y == (y / 100 * 25) * 4;
    }
  }

  /** Stepping from y - 1 to y passes one more multiple of k exactly when y is one. */
  lemma MultipleStep(y: int, k: int)
    requires k > 0
    ensures y / k - (y - 1) / k == if y % k == 0 then 1 else 0
  {
    var q, r := (y - 1) / k, (y - 1) % k;
    assert y == q * k + r + 1;
    if r + 1 == k {
      assert y == (q + 1) * k;
      DivisionOf(y, k, q + 1, 0);
    } else {
      DivisionOf(y, k, q, r + 1);
    }
  }

  /** Quotient and remainder are the unique pair that rebuilds the dividend. */
  lemma DivisionOf(y: int, k: int, q: int, r: int)
    requires k > 0 && 0 <= r < k && y == q * k + r
    ensures y / k == q && y % k == r
  {
    var q', r' := y / k, y % k;
    assert q' * k + r' == q * k + r;
    if q' < q {
      WholeMultiples(q', q, k);
    } else if q < q' {
      WholeMultiples(q, q', k);
    }
  }

  /** A larger multiple of k is at least k larger. */
  lemma WholeMultiples(a: int, b: int, k: int)
    requires a < b && k > 0
    ensures a * k + k <= b * k
  {
    var d := b - a;
    assert b * k == a * k + d * k;
    assert d * k >= k by {
      assert d * k == k + (d - 1) * k;
    }
  }

  /** Each year starts at least a full year's days after an earlier one. */
  lemma {:induction false} YearsApart(y1: int, y2: int)
    requires y1 < y2
    ensures DaysBeforeYear(y1) + DaysInYear(y1) <= DaysBeforeYear(y2)
    decreases y2 - y1
  {
    YearStep(y1);
    if y1 + 1 < y2 {
      YearsApart(y1 + 1, y2);
    }
  }

  /** A day's offset within its year is less than the year's length. */
  lemma DayOfYearBound(d: Date)
    requires ValidDate(d)
    ensures 0 <= DaysBeforeMonth(d.year, d.month) + d.day - 1 < DaysInYear(d.year)
  {
  }

  /** Each month starts after all the days of an earlier month. */
  lemma MonthsApart(y: int, m1: int, m2: int)
    requires 1 <= m1 < m2 <= 12
    ensures DaysBeforeMonth(y, m1) + DaysInMonth(y, m1) <= DaysBeforeMonth(y, m2)
  {
  }

  /** Calendar order: earlier year, or the same year and an earlier month, or the
      same month and an earlier day. */
  predicate Before(a: Date, b: Date) {
    || a.year < b.year
    || (a.year == b.year && a.month < b.month)
    || (a.year == b.year && a.month == b.month && a.day < b.day)
  }

  /** Day numbers follow calendar order, so comparing local instants by their
      dates is comparing them in time. */
  lemma DayNumberOrder(a: Date, b: Date)
    requires ValidDate(a) && ValidDate(b)
    ensures Before(a, b) <==> DayNumber(a) < DayNumber(b)
    ensures a == b <==> DayNumber(a) == DayNumber(b)
  {
    if a.year < b.year {
      EarlierYear(a, b);
    } else if b.year < a.year {
      EarlierYear(b, a);
    } else if a.month < b.month {
      MonthsApart(a.year, a.month, b.month);
    } else if b.month < a.month {
      MonthsApart(a.year, b.month, a.month);
    }
  }

  lemma EarlierYear(a: Date, b: Date)
    requires ValidDate(a) && ValidDate(b) && a.year < b.year
    ensures DayNumber(a) < DayNumber(b)
  {
    YearsApart(a.year, b.year);
    DayOfYearBound(a);
    DayOfYearBound(b);
  }

  /** The table key: `${year}-${MM}-${DD}` with month (1-based) and day padded to two digits. */
  function DateKey(d: Date): string
    requires ValidDate(d)
  {
    IntString(d.year) + "-" + TwoDigits(d.month) + "-" + TwoDigits(d.day)
  }

  /** A string laid out as a date key: a year, '-', two digits, '-', two digits. */
  predicate IsDateKey(k: string) {
    && |k| >= 7
    && k[|k| - 6] == '-' && k[|k| - 3] == '-'
    && AllDigits(k[|k| - 5..|k| - 3]) && AllDigits(k[|k| - 2..])
    && (var y := k[..|k| - 6]; if y[0] == '-' then AllDigits(y[1..]) else AllDigits(y))
  }

  /** Reads a date key back into a date. */
  function ParseDateKey(k: string): Date
    requires IsDateKey(k)
  {
    Date(ParseInt(k[..|k| - 6]), ParseDecimal(k[|k| - 5..|k| - 3]), ParseDecimal(k[|k| - 2..]))
  }

  /** The key of a date reads back as that date. */
  lemma DateKeyRoundTrip(d: Date)
    requires ValidDate(d)
    ensures IsDateKey(DateKey(d))
    ensures ParseDateKey(DateKey(d)) == d
  {
    var y, mm, dd := IntString(d.year), TwoDigits(d.month), TwoDigits(d.day);
    assert |mm| == 2 && AllDigits(mm) && ParseDecimal(mm) == d.month by {
      TwoDigitsValue(d.month);
    }
    assert |dd| == 2 && AllDigits(dd) && ParseDecimal(dd) == d.day by {
      TwoDigitsValue(d.day);
    }
    IntStringRoundTrip(d.year);
    KeyFields(y, mm, dd);
  }

  lemma KeyFields(y: string, mm: string, dd: string)
    requires |y| >= 1 && |mm| == 2 && |dd| == 2
    ensures var k := y + "-" + mm + "-" + dd;
      && |k| == |y| + 6
      && k[..|k| - 6] == y && k[|k| - 6] == '-' && k[|k| - 5..|k| - 3] == mm
      && k[|k| - 3] == '-' && k[|k| - 2..] == dd
  {
  }

  /** Different dates have different keys, so a key names one day. */
  lemma DateKeyInjective(a: Date, b: Date)
    requires ValidDate(a) && ValidDate(b)
    ensures DateKey(a) == DateKey(b) <==> a == b
  {
    DateKeyRoundTrip(a);
    DateKeyRoundTrip(b);
  }
}
