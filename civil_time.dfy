/** UNIX epoch seconds to the proleptic Gregorian calendar in UTC, as
    datetime.fromtimestamp(x, tz=timezone.utc) computes it. Day numbers count
    days since 0001-01-01 (day 0); epoch seconds count seconds since
    1970-01-01T00:00:00Z. All divisions here have a positive divisor, where
    Dafny's `/` and `%` are floor division and its remainder, as in Python. */
module CivilTime {

  const SecondsPerDay := 86400
  /** Day number of 1970-01-01. */
  const EpochDayNumber := 719162
  /** The range of years a Python datetime can hold. */
  const MinYear := 1
  const MaxYear := 9999

  predicate IsLeapYear(y: int) {
    y % 4 == 0 && (y % 100 != 0 || y % 400 == 0)
  }

  function DaysInYear(y: int): int {
    if IsLeapYear(y) then 366 else 365
  }

  /** Day number of January 1st of year y (closed form). */
  function DaysBeforeYear(y: int): (d: int)
    ensures y >= 1 ==> 365 * (y - 1) <= d <= 366 * (y - 1)
  {
    var p := y - 1;
    365 * p + p / 4 - p / 100 + p / 400
  }

  /** Floor division is unique: q and r with n == k * q + r, 0 <= r < k are n / k and n % k. */
  lemma DivUnique(n: int, k: int, q: int, r: int)
    requires k > 0 && n == k * q + r && 0 <= r < k
    ensures n / k == q && n % k == r
  {
    var q', r' := n / k, n % k;
    assert n == k * q' + r' && 0 <= r' < k;
    if q' > q {
      MulAtLeast(k, q' - q);
    } else if q' < q {
      MulAtLeast(k, q - q');
    }
  }

  lemma {:induction false} MulAtLeast(k: int, m: int)
    requires k > 0 && m >= 1
    ensures k * m >= k
    decreases m
  {
    if m > 1 {
      MulAtLeast(k, m - 1);
      assert k * m == k * (m - 1) + k;
    }
  }

  /** Stepping p to p + 1 raises p / k by one exactly when k divides p + 1. */
  lemma DivStep(p: int, k: int)
    requires k > 0
    ensures (p + 1) / k == p / k + (if (p + 1) % k == 0 then 1 else 0)
  {
    var q, r := p / k, p % k;
    if r + 1 == k {
      DivUnique(p + 1, k, q + 1, 0);
    } else {
      DivUnique(p + 1, k, q, r + 1);
    }
  }

  /** Consecutive New Years are a year's length apart: the closed form agrees
      with counting 365 or 366 days per year. */
  lemma YearLength(y: int)
    ensures DaysBeforeYear(y + 1) == DaysBeforeYear(y) + DaysInYear(y)
  {
    var p := y - 1;
    DivStep(p, 4);
    DivStep(p, 100);
    DivStep(p, 400);
    assert p + 1 == y;
    if y % 400 == 0 {
      DivUnique(y, 4, (y / 400) * 100, 0);
      DivUnique(y, 100, (y / 400) * 4, 0);
    } else if y % 100 == 0 {
      DivUnique(y, 4, (y / 100) * 25, 0);
    }
  }

  /** Later years start later: the year starting at DaysBeforeYear(y1) is over
      by the time year y2 > y1 begins. */
  lemma {:induction false} DaysBeforeYearMonotone(y1: int, y2: int)
    requires y1 < y2
    ensures DaysBeforeYear(y1) + DaysInYear(y1) <= DaysBeforeYear(y2)
    decreases y2 - y1
  {
    YearLength(y1);
    if y1 + 1 < y2 {
      DaysBeforeYearMonotone(y1 + 1, y2);
    }
  }

  /** A day belongs to at most one year. */
  lemma YearUnique(n: int, y1: int, y2: int)
    requires DaysBeforeYear(y1) <= n < DaysBeforeYear(y1) + DaysInYear(y1)
    requires DaysBeforeYear(y2) <= n < DaysBeforeYear(y2) + DaysInYear(y2)
    ensures y1 == y2
  {
    if y1 < y2 {
      DaysBeforeYearMonotone(y1, y2);
    } else if y2 < y1 {
      DaysBeforeYearMonotone(y2, y1);
    }
  }

  /** The closed form on a year written in 400/100/4/1-year blocks. */
  lemma DaysBeforeYearBlocks(a: int, b: int, c: int, d: int)
    requires 0 <= b < 4 && 0 <= c < 25 && 0 <= d < 4
    ensures DaysBeforeYear(400 * a + 100 * b + 4 * c + d + 1) == 146097 * a + 36524 * b + 1461 * c + 365 * d
  {
    var p := 400 * a + 100 * b + 4 * c + d;
    DivUnique(p, 4, 100 * a + 25 * b + c, d);
    DivUnique(p, 100, 4 * a + b, 4 * c + d);
    DivUnique(p, 400, a, 100 * b + 4 * c + d);
  }

  /** The year holding day number n, by splitting n into 400-, 100-, 4- and
      1-year blocks; the last day of a 4-year or 400-year block is December 31
      of a leap year. */
  function YearOfDayNumber(n: int): (y: int)
    ensures DaysBeforeYear(y) <= n < DaysBeforeYear(y) + DaysInYear(y)
  {
    var n400, r400 := n / 146097, n % 146097;
    var n100, r100 := r400 / 36524, r400 % 36524;
    var n4, r4 := r100 / 1461, r100 % 1461;
    var n1, r1 := r4 / 365, r4 % 365;
    YearOfDayNumberCorrect(n, n400, n100, n4, n1, r1);
    if n1 == 4 || n100 == 4 then 400 * n400 + 100 * n100 + 4 * n4 + n1
    else 400 * n400 + 100 * n100 + 4 * n4 + n1 + 1
  }

  lemma YearOfDayNumberCorrect(n: int, n400: int, n100: int, n4: int, n1: int, r1: int)
    requires n400 == n / 146097
    requires n100 == (n % 146097) / 36524
    requires n4 == ((n % 146097) % 36524) / 1461
    requires n1 == (((n % 146097) % 36524) % 1461) / 365
    requires r1 == (((n % 146097) % 36524) % 1461) % 365
    ensures var y := if n1 == 4 || n100 == 4 then 400 * n400 + 100 * n100 + 4 * n4 + n1
                     else 400 * n400 + 100 * n100 + 4 * n4 + n1 + 1;
            DaysBeforeYear(y) <= n < DaysBeforeYear(y) + DaysInYear(y)
  {
    var r400 := n % 146097;
    var r100 := r400 % 36524;
    var r4 := r100 % 1461;
    assert n == 146097 * n400 + 36524 * n100 + 1461 * n4 + 365 * n1 + r1;
    if n100 == 4 {
      // the last day of a 400-year block: December 31 of a year divisible by 400
      var y := 400 * n400 + 400;
      DaysBeforeYearBlocks(n400, 3, 24, 3);
      assert DaysBeforeYear(y) == 146097 * n400 + 145731;
      DivUnique(y, 400, n400 + 1, 0);
      DivUnique(y, 4, 100 * n400 + 100, 0);
      assert IsLeapYear(y);
    } else if n1 == 4 {
      // the last day of a 4-year block: December 31 of a year divisible by 4
      assert n4 < 24;
      var y := 400 * n400 + 100 * n100 + 4 * n4 + 4;
      DaysBeforeYearBlocks(n400, n100, n4, 3);
      DivUnique(y, 4, 100 * n400 + 25 * n100 + n4 + 1, 0);
      DivUnique(y, 100, 4 * n400 + n100, 4 * n4 + 4);
      assert IsLeapYear(y);
    } else {
      DaysBeforeYearBlocks(n400, n100, n4, n1);
    }
  }

  /** Calendar fields of a UTC instant. */
  datatype Civil = Civil(year: int, month: int, day: int, hour: int, minute: int, second: int)

  /** Days before the first of `month` within a year. */
  function DaysBeforeMonth(month: int, leap: bool): int
    requires 1 <= month <= 12
  {
    var common := [0, 31, 59, 90, 120, 151, 181, 212, 243, 273, 304, 334][month - 1];
    if leap && month > 2 then common + 1 else common
  }

  function DaysInMonth(month: int, leap: bool): int
    requires 1 <= month <= 12
  {
    if month == 2 then (if leap then 29 else 28)
    else if month in {4, 6, 9, 11} then 30
    else 31
  }

  /** The month that holds day `doy` (0-based) of a year, searching from `month` downwards. */
  function MonthOf(doy: int, leap: bool, month: int): (m: int)
    requires 1 <= month <= 12
    requires 0 <= doy < DaysBeforeMonth(month, leap) + DaysInMonth(month, leap)
    ensures 1 <= m <= month
    ensures DaysBeforeMonth(m, leap) <= doy < DaysBeforeMonth(m, leap) + DaysInMonth(m, leap)
  {
    if DaysBeforeMonth(month, leap) <= doy then month else MonthOf(doy, leap, month - 1)
  }

  /** Whole days since 1970-01-01 of an instant, rounding towards the past. */
  function EpochDay(seconds: int): (d: int)
    ensures d * SecondsPerDay <= seconds < d * SecondsPerDay + SecondsPerDay
  {
    seconds / SecondsPerDay
  }

  /** A calendar date. */
  datatype Date = Date(year: int, month: int, day: int)

  predicate ValidDate(d: Date) {
    1 <= d.month <= 12 && 1 <= d.day <= DaysInMonth(d.month, IsLeapYear(d.year))
  }

  /** The date of day number n. */
  function DateOfDayNumber(n: int): (d: Date)
    ensures ValidDate(d)
  {
    var y := YearOfDayNumber(n);
    var doy := n - DaysBeforeYear(y);
    var leap := IsLeapYear(y);
    var m := MonthOf(doy, leap, 12);
    Date(y, m, doy - DaysBeforeMonth(m, leap) + 1)
  }

  /** The day number of a date: the inverse of DateOfDayNumber. */
  function DayNumberOf(d: Date): int
    requires 1 <= d.month <= 12
  {
    DaysBeforeYear(d.year) + DaysBeforeMonth(d.month, IsLeapYear(d.year)) + d.day - 1
  }

  lemma DayNumberOfDate(n: int)
    ensures DayNumberOf(DateOfDayNumber(n)) == n
  {
  }

  lemma DateOfDayNumberOf(d: Date)
    requires ValidDate(d)
    ensures DateOfDayNumber(DayNumberOf(d)) == d
  {
    var leap := IsLeapYear(d.year);
    var doy := DaysBeforeMonth(d.month, leap) + d.day - 1;
    var n := DayNumberOf(d);
    MonthsAdvance12(d.month, leap);
    assert doy < DaysInYear(d.year);
    YearUnique(n, YearOfDayNumber(n), d.year);
    MonthOfUnique(doy, leap, 12, d.month);
  }

  /** The months of a year end within the year. */
  lemma MonthsAdvance12(m: int, leap: bool)
    requires 1 <= m <= 12
    ensures DaysBeforeMonth(m, leap) + DaysInMonth(m, leap) <= (if leap then 366 else 365)
  {
  }

  /** The UTC calendar fields of `seconds` since the epoch. */
  function ToCivil(seconds: int): (c: Civil)
    ensures 1 <= c.month <= 12
    ensures 1 <= c.day <= DaysInMonth(c.month, IsLeapYear(c.year))
    ensures 0 <= c.hour < 24 && 0 <= c.minute < 60 && 0 <= c.second < 60
  {
    var d := DateOfDayNumber(EpochDay(seconds) + EpochDayNumber);
    var s := seconds % SecondsPerDay;
    Civil(d.year, d.month, d.day, s / 3600, (s % 3600) / 60, s % 60)
  }

  /** Seconds since the epoch of the calendar fields: the inverse of ToCivil. */
  function FromCivil(c: Civil): int
    requires 1 <= c.month <= 12
  {
    (DayNumberOf(Date(c.year, c.month, c.day)) - EpochDayNumber) * SecondsPerDay
      + c.hour * 3600 + c.minute * 60 + c.second
  }

  predicate ValidCivil(c: Civil) {
    && ValidDate(Date(c.year, c.month, c.day))
    && 0 <= c.hour < 24 && 0 <= c.minute < 60 && 0 <= c.second < 60
  }

  /** Reading the calendar fields back gives the instant again. */
  lemma FromCivilToCivil(seconds: int)
    ensures FromCivil(ToCivil(seconds)) == seconds
  {
    var s := seconds % SecondsPerDay;
    var n := EpochDay(seconds) + EpochDayNumber;
    DayNumberOfDate(n);
    TimeOfDaySplit(s);
    assert seconds == (n - EpochDayNumber) * SecondsPerDay + s;
  }

  /** Hours, minutes and seconds put back together give the second of the day. */
  lemma TimeOfDaySplit(s: int)
    requires 0 <= s < SecondsPerDay
    ensures s == (s / 3600) * 3600 + ((s % 3600) / 60) * 60 + s % 60
  {
    var h, rest := s / 3600, s % 3600;
    assert s == h * 3600 + rest;
    assert rest == (rest / 60) * 60 + rest % 60;
    DivUnique(s, 60, h * 60 + rest / 60, rest % 60);
  }

  /** Every valid set of calendar fields is the image of exactly one instant. */
  lemma ToCivilFromCivil(c: Civil)
    requires ValidCivil(c)
    ensures ToCivil(FromCivil(c)) == c
  {
    var d := Date(c.year, c.month, c.day);
    var sod := c.hour * 3600 + c.minute * 60 + c.second;
    var day := DayNumberOf(d) - EpochDayNumber;
    var seconds := FromCivil(c);
    assert seconds == SecondsPerDay * day + sod;
    DivUnique(seconds, SecondsPerDay, day, sod);
    assert EpochDay(seconds) + EpochDayNumber == DayNumberOf(d);
    DateOfDayNumberOf(d);
    TimeOfDayFields(c.hour, c.minute, c.second);
    assert ToCivil(seconds) == Civil(d.year, d.month, d.day, sod / 3600, (sod % 3600) / 60, sod % 60);
  }

  /** Hours, minutes and seconds are read back from the second of the day they make up. */
  lemma TimeOfDayFields(h: int, m: int, s: int)
    requires 0 <= h < 24 && 0 <= m < 60 && 0 <= s < 60
    ensures var sod := h * 3600 + m * 60 + s;
      sod / 3600 == h && (sod % 3600) / 60 == m && sod % 60 == s
  {
    var sod := h * 3600 + m * 60 + s;
    DivUnique(sod, 3600, h, m * 60 + s);
    DivUnique(m * 60 + s, 60, m, s);
    DivUnique(sod, 60, h * 60 + m, s);
  }

  lemma MonthOfUnique(doy: int, leap: bool, month: int, m: int)
    requires 1 <= m <= month <= 12
    requires DaysBeforeMonth(m, leap) <= doy < DaysBeforeMonth(m, leap) + DaysInMonth(m, leap)
    ensures MonthOf(doy, leap, month) == m
    decreases month
  {
    if month > m {
      assert DaysBeforeMonth(month, leap) >= DaysBeforeMonth(m, leap) + DaysInMonth(m, leap) by {
        MonthsAdvance(m, month, leap);
      }
      MonthOfUnique(doy, leap, month - 1, m);
    }
  }

  lemma {:induction false} MonthsAdvance(m1: int, m2: int, leap: bool)
    requires 1 <= m1 < m2 <= 12
    ensures DaysBeforeMonth(m1, leap) + DaysInMonth(m1, leap) <= DaysBeforeMonth(m2, leap)
    decreases m2 - m1
  {
    if m1 + 1 < m2 {
      MonthsAdvance(m1 + 1, m2, leap);
    }
  }

  /** The calendar year of an instant, as `.dt.year` reads it off the timestamp. */
  function YearOf(seconds: int): (y: int)
    ensures (DaysBeforeYear(y) - EpochDayNumber) * SecondsPerDay <= seconds
    ensures seconds < (DaysBeforeYear(y) + DaysInYear(y) - EpochDayNumber) * SecondsPerDay
  {
    ToCivil(seconds).year
  }

  /** YearOf is the only year whose span holds the instant. */
  lemma YearOfUnique(seconds: int, y: int)
    requires (DaysBeforeYear(y) - EpochDayNumber) * SecondsPerDay <= seconds
    requires seconds < (DaysBeforeYear(y) + DaysInYear(y) - EpochDayNumber) * SecondsPerDay
    ensures YearOf(seconds) == y
  {
    var n := EpochDay(seconds) + EpochDayNumber;
    YearUnique(n, YearOf(seconds), y);
  }

  /** A later instant never has an earlier year. */
  lemma YearOfMonotone(s1: int, s2: int)
    requires s1 <= s2
    ensures YearOf(s1) <= YearOf(s2)
  {
    if YearOf(s2) < YearOf(s1) {
      DaysBeforeYearMonotone(YearOf(s2), YearOf(s1));
    }
  }

  /** The epoch is in 1970; one second before it is in 1969. */
  lemma YearOfEpoch()
    ensures YearOf(0) == 1970
    ensures YearOf(-1) == 1969
  {
    YearOfUnique(0, 1970);
    YearOfUnique(-1, 1969);
  }

  /** 1700000000 seconds is 2023-11-14T22:13:20Z. */
  lemma ToCivilExample()
    ensures ToCivil(1700000000) == Civil(2023, 11, 14, 22, 13, 20)
    ensures YearOf(1700000000) == 2023
  {
    var c := Civil(2023, 11, 14, 22, 13, 20);
    assert DaysBeforeYear(2023) == 738520;
    assert FromCivil(c) == 1700000000;
    ToCivilFromCivil(c);
  }

  /** A leap day: 951782400 seconds is 2000-02-29T00:00:00Z. */
  lemma ToCivilLeapDay()
    ensures ToCivil(951782400) == Civil(2000, 2, 29, 0, 0, 0)
  {
    var c := Civil(2000, 2, 29, 0, 0, 0);
    assert DaysBeforeYear(2000) == 730119;
    assert IsLeapYear(2000);
    assert FromCivil(c) == 951782400;
    ToCivilFromCivil(c);
  }

  /** First and last second a Python datetime can represent. */
  const MinEpochSeconds := -62135596800
  const MaxEpochSeconds := 253402300799

  /** datetime.fromtimestamp succeeds exactly when the year is one a datetime can hold. */
  predicate Representable(seconds: int) {
    MinYear <= YearOf(seconds) <= MaxYear
  }

  lemma RepresentableRange(seconds: int)
    ensures Representable(seconds) <==> MinEpochSeconds <= seconds <= MaxEpochSeconds
  {
    var y := YearOf(seconds);
    YearLength(MaxYear);
    assert DaysBeforeYear(MinYear) == 0;
    assert DaysBeforeYear(MaxYear + 1) == 3652059;
    if y < MinYear {
      DaysBeforeYearMonotone(y, MinYear);
    } else if y > MaxYear {
      DaysBeforeYearMonotone(MaxYear, y);
    } else {
      if y < MaxYear { DaysBeforeYearMonotone(y, MaxYear); }
      if MinYear < y { DaysBeforeYearMonotone(MinYear, y); }
    }
  }
}
