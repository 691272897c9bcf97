/**
  The Date abstract operations of section 21.4.1 of ECMA-262 that the converter
  relies on, over exact integers: a time value is a whole number of milliseconds
  since 1970-01-01T00:00:00Z, the calendar is the proleptic Gregorian one, and
  every date is read in UTC.

  YearFromTime is defined by the standard as "the largest year whose first
  millisecond is not after t"; here it is computed by counting 400-, 100-, 4- and
  1-year blocks, and the two are proved to agree. MonthFromTime and DateFromTime
  follow the standard's cascades and are tied to a table of month starts.
*/
module EcmaTime {

  const MsPerSecond: int := 1000
  const MsPerMinute: int := 60000
  const MsPerHour: int := 3600000
  const MsPerDay: int := 86400000
  const HoursPerDay: int := 24
  const MinutesPerHour: int := 60
  const SecondsPerMinute: int := 60

  /** Day(t): the number of the day holding t (day 0 is 1970-01-01). */
  function Day(t: int): (d: int)
    ensures d * MsPerDay <= t < (d + 1) * MsPerDay
  {
    t / MsPerDay
  }

  /** TimeWithinDay(t): milliseconds since the midnight that starts Day(t). */
  function TimeWithinDay(t: int): (ms: int)
    ensures 0 <= ms < MsPerDay
    ensures t == Day(t) * MsPerDay + ms
  {
    t % MsPerDay
  }

  // ---------------------------------------------------------------- years

  /** DaysInYear, in the order of the standard's cascade of tests. */
  function DaysInYear(y: int): (n: int)
    ensures n == 365 || n == 366
    ensures n == 366 <==> y % 4 == 0 && (y % 100 != 0 || y % 400 == 0)
  {
    if y % 4 != 0 then 365
    else if y % 100 != 0 then 366
    else if y % 400 != 0 then 365
    else 366
  }

  /** 1 in a leap year, 0 otherwise (InLeapYear on a year rather than a time). */
  function LeapDays(y: int): (l: int)
    ensures l == DaysInYear(y) - 365
    ensures l == 0 || l == 1
  {
    if DaysInYear(y) == 366 then 1 else 0
  }

  /** DayFromYear(y): the number of the first day of year y. */
  function DayFromYear(y: int): int
  {
    365 * (y - 1970) + (y - 1969) / 4 - (y - 1901) / 100 + (y - 1601) / 400
  }

  /** TimeFromYear(y): the time value of the first millisecond of year y. */
  function TimeFromYear(y: int): int
  {
    MsPerDay * DayFromYear(y)
  }

  /** Consecutive years are exactly DaysInYear apart. */
  lemma DayFromYearStep(y: int)
    ensures DayFromYear(y + 1) == DayFromYear(y) + DaysInYear(y)
  {
    LeapCountStep(y);
    CenturyCountStep(y);
    QuadCenturyCountStep(y);
    CenturyDivisors(y);
  }

  /** A year divisible by 400 is divisible by 100, and one divisible by 100 is divisible by 4. */
  lemma CenturyDivisors(y: int)
    ensures y % 400 == 0 ==> y % 100 == 0
    ensures y % 100 == 0 ==> y % 4 == 0
  {
    if y % 400 == 0 {
      QuotientOf(y, 100, 4 * (y / 400), 0);
    }
    if y % 100 == 0 {
      QuotientOf(y, 4, 25 * (y / 100), 0);
    }
  }

  /** The count of 4-year leap days grows by one past a year divisible by 4. */
  lemma LeapCountStep(y: int)
    ensures (y + 1 - 1969) / 4 == (y - 1969) / 4 + (if y % 4 == 0 then 1 else 0)
  {
  }

  /** The count of skipped century leap days grows by one past a year divisible by 100. */
  lemma CenturyCountStep(y: int)
    ensures (y + 1 - 1901) / 100 == (y - 1901) / 100 + (if y % 100 == 0 then 1 else 0)
  {
  }

  /** The count of restored 400-year leap days grows by one past a year divisible by 400. */
  lemma QuadCenturyCountStep(y: int)
    ensures (y + 1 - 1601) / 400 == (y - 1601) / 400 + (if y % 400 == 0 then 1 else 0)
  {
  }

  /** Years start in strictly increasing order, at least 365 days apart. */
  lemma {:induction false} DayFromYearMonotone(y1: int, y2: int)
    requires y1 <= y2
    ensures DayFromYear(y1) + 365 * (y2 - y1) <= DayFromYear(y2)
    decreases y2 - y1
  {
    if y1 < y2 {
      DayFromYearMonotone(y1, y2 - 1);
      DayFromYearStep(y2 - 1);
    }
  }

  /** The first day of year 1601 + 400q + 100a + 4b + c, counted in blocks. */
  lemma DayFromYearBlocks(q: int, a: int, b: int, c: int)
    requires 0 <= a < 4 && 0 <= b < 25 && 0 <= c < 4
    ensures DayFromYear(1601 + 400 * q + 100 * a + 4 * b + c)
         == -134774 + 146097 * q + 36524 * a + 1461 * b + 365 * c
  {
    var y := 1601 + 400 * q + 100 * a + 4 * b + c;
    assert y - 1969 == 4 * (100 * q + 25 * a + b - 92) + c;
    assert (y - 1969) / 4 == 100 * q + 25 * a + b - 92;
    assert y - 1901 == 100 * (4 * q + a - 3) + (4 * b + c);
    assert (y - 1901) / 100 == 4 * q + a - 3;
    assert y - 1601 == 400 * q + (100 * a + 4 * b + c);
    assert (y - 1601) / 400 == q;
  }

  /**
    The year holding day d, found by splitting the days since 1601-01-01 into
    400-year cycles, centuries, 4-year groups and single years.
  */
  function YearFromDay(d: int): (y: int)
    ensures DayFromYear(y) <= d < DayFromYear(y + 1)
  {
    var n := d + 134774;
    var q := n / 146097;
    var r := n % 146097;
    var a := if r / 36524 < 4 then r / 36524 else 3;
    var r1 := r - 36524 * a;
    var b := r1 / 1461;
    var r2 := r1 - 1461 * b;
    var c := if r2 / 365 < 4 then r2 / 365 else 3;
    YearFromDayBlocks(d, q, r, a, r1, b, r2, c);
    1601 + 400 * q + 100 * a + 4 * b + c
  }

  /** The proof obligation of YearFromDay, with its block counts named. */
  lemma YearFromDayBlocks(d: int, q: int, r: int, a: int, r1: int, b: int, r2: int, c: int)
    requires d + 134774 == 146097 * q + r && 0 <= r < 146097
    requires a == (if r / 36524 < 4 then r / 36524 else 3) && r1 == r - 36524 * a
    requires b == r1 / 1461 && r2 == r1 - 1461 * b
    requires c == (if r2 / 365 < 4 then r2 / 365 else 3)
    ensures var y := 1601 + 400 * q + 100 * a + 4 * b + c;
            DayFromYear(y) <= d < DayFromYear(y + 1)
  {
    assert 0 <= r1 <= 36524 && (r1 == 36524 ==> a == 3);
    assert 0 <= b < 25 && 0 <= r2 < 1461;
    assert 0 <= c < 4 && 0 <= r2 - 365 * c <= 365;
    var y := 1601 + 400 * q + 100 * a + 4 * b + c;
    DayFromYearBlocks(q, a, b, c);
    DayFromYearStep(y);
    if r2 - 365 * c == 365 {
      // the last day of a 4-year group, which falls in a leap year
      assert c == 3 && r2 == 1460;
      assert b == 24 ==> a == 3;
      LastYearOfGroupIsLeap(q, a, b);
    }
  }

  /** The fourth year of a 4-year group is a leap year, except at the end of a century other than the fourth. */
  lemma LastYearOfGroupIsLeap(q: int, a: int, b: int)
    requires 0 <= a < 4 && 0 <= b < 25 && (b == 24 ==> a == 3)
    ensures DaysInYear(1604 + 400 * q + 100 * a + 4 * b) == 366
  {
    var y := 1604 + 400 * q + 100 * a + 4 * b;
    assert y == 4 * (401 + 100 * q + 25 * a + b);
    assert y % 4 == 0;
    if b < 24 {
      assert y == 100 * (16 + 4 * q + a) + (4 + 4 * b);
      assert y % 100 == 4 + 4 * b;
    } else {
      assert y == 400 * (5 + q);
      assert y % 400 == 0;
    }
  }

  /** Only one year holds a given day. */
  lemma YearFromDayUnique(d: int, y: int)
    requires DayFromYear(y) <= d < DayFromYear(y + 1)
    ensures YearFromDay(d) == y
  {
    var z := YearFromDay(d);
    if z < y {
      DayFromYearMonotone(z + 1, y);
    } else if y < z {
      DayFromYearMonotone(y + 1, z);
    }
  }

  /** DayWithinYear: the 0-based number of day d within its year. */
  function DayWithinYear(d: int): (n: int)
    ensures 0 <= n < DaysInYear(YearFromDay(d))
  {
    DayFromYearStep(YearFromDay(d));
    d - DayFromYear(YearFromDay(d))
  }

  // --------------------------------------------------------------- months

  /** The day within a year on which month m (0-based, 12 = end of year) starts. */
  function MonthStart(m: int, leap: int): (n: int)
    requires 0 <= m <= 12 && 0 <= leap <= 1
    ensures m == 12 ==> n == 365 + leap
  {
    [0, 31, 59, 90, 120, 151, 181, 212, 243, 273, 304, 334, 365][m] + (if m >= 2 then leap else 0)
  }

  /** The number of days in month m (0-based) of year y. */
  function DaysInMonth(y: int, m: int): (n: int)
    requires 0 <= m < 12
    ensures 28 <= n <= 31
  {
    MonthStart(m + 1, LeapDays(y)) - MonthStart(m, LeapDays(y))
  }

  /** MonthFromTime on days, following the standard's cascade of ranges. */
  function MonthFromDay(d: int): (m: int)
    ensures 0 <= m < 12
    ensures MonthStart(m, LeapDays(YearFromDay(d))) <= DayWithinYear(d)
          < MonthStart(m + 1, LeapDays(YearFromDay(d)))
  {
    var dwy := DayWithinYear(d);
    var leap := LeapDays(YearFromDay(d));
    if dwy < 31 then 0
    else if dwy < 59 + leap then 1
    else if dwy < 90 + leap then 2
    else if dwy < 120 + leap then 3
    else if dwy < 151 + leap then 4
    else if dwy < 181 + leap then 5
    else if dwy < 212 + leap then 6
    else if dwy < 243 + leap then 7
    else if dwy < 273 + leap then 8
    else if dwy < 304 + leap then 9
    else if dwy < 334 + leap then 10
    else 11
  }

  /** DateFromTime on days, following the standard's per-month offsets. */
  function DateFromDay(d: int): (date: int)
    ensures date == DayWithinYear(d) - MonthStart(MonthFromDay(d), LeapDays(YearFromDay(d))) + 1
    ensures 1 <= date <= DaysInMonth(YearFromDay(d), MonthFromDay(d))
  {
    var dwy := DayWithinYear(d);
    var leap := LeapDays(YearFromDay(d));
    match MonthFromDay(d)
    case 0 => dwy + 1
    case 1 => dwy - 30
    case 2 => dwy - 58 - leap
    case 3 => dwy - 89 - leap
    case 4 => dwy - 119 - leap
    case 5 => dwy - 150 - leap
    case 6 => dwy - 180 - leap
    case 7 => dwy - 211 - leap
    case 8 => dwy - 242 - leap
    case 9 => dwy - 272 - leap
    case 10 => dwy - 303 - leap
    case 11 => dwy - 333 - leap
  }

  // --------------------------------------------------------- time values

  /** YearFromTime: the year holding time value t. */
  function YearFromTime(t: int): (y: int)
    ensures TimeFromYear(y) <= t < TimeFromYear(y + 1)
  {
    YearFromDay(Day(t))
  }

  /** MonthFromTime: the 0-based month holding t. */
  function MonthFromTime(t: int): (m: int)
    ensures 0 <= m < 12
  {
    MonthFromDay(Day(t))
  }

  /** DateFromTime: the 1-based day of the month holding t. */
  function DateFromTime(t: int): (date: int)
    ensures 1 <= date <= DaysInMonth(YearFromTime(t), MonthFromTime(t))
  {
    DateFromDay(Day(t))
  }

  /** HourFromTime: the hour of the day, 0 to 23. */
  function HourFromTime(t: int): (h: int)
    ensures 0 <= h < HoursPerDay
    ensures h == TimeWithinDay(t) / MsPerHour
  {
    var w := t % MsPerDay;
    assert t == MsPerHour * (HoursPerDay * (t / MsPerDay) + w / MsPerHour) + w % MsPerHour;
    assert t / MsPerHour == HoursPerDay * (t / MsPerDay) + w / MsPerHour;
    (t / MsPerHour) % HoursPerDay
  }

  /** MinFromTime: the minute of the hour, 0 to 59. */
  function MinFromTime(t: int): (m: int)
    ensures 0 <= m < MinutesPerHour
    ensures m == TimeWithinDay(t) % MsPerHour / MsPerMinute
  {
    MinuteWithinDay(t);
    (t / MsPerMinute) % MinutesPerHour
  }

  /** SecFromTime: the second of the minute, 0 to 59. */
  function SecFromTime(t: int): (s: int)
    ensures 0 <= s < SecondsPerMinute
    ensures s == TimeWithinDay(t) % MsPerMinute / MsPerSecond
  {
    SecondWithinDay(t);
    (t / MsPerSecond) % SecondsPerMinute
  }

  /** The minute count of t modulo 60 is the minute of t's time within the day. */
  lemma MinuteWithinDay(t: int)
    ensures (t / 60000) % 60 == (t % 86400000) % 3600000 / 60000
  {
    var k, w := t / 86400000, t % 86400000;
    var p, u := w / 3600000, w % 3600000;
    var v, z := u / 60000, u % 60000;
    assert t == 60000 * (60 * (24 * k + p) + v) + z;
    QuotientOf(t, 60000, 60 * (24 * k + p) + v, z);
    QuotientOf(60 * (24 * k + p) + v, 60, 24 * k + p, v);
  }

  /** The second count of t modulo 60 is the second of t's time within the day. */
  lemma SecondWithinDay(t: int)
    ensures (t / 1000) % 60 == (t % 86400000) % 60000 / 1000
  {
    var k, w := t / 86400000, t % 86400000;
    var p, u := w / 60000, w % 60000;
    var v, z := u / 1000, u % 1000;
    assert t == 1000 * (60 * (1440 * k + p) + v) + z;
    QuotientOf(t, 1000, 60 * (1440 * k + p) + v, z);
    QuotientOf(60 * (1440 * k + p) + v, 60, 1440 * k + p, v);
  }

  /** Euclidean division is fixed by a quotient and a remainder below the divisor. */
  lemma QuotientOf(x: int, d: int, q: int, r: int)
    requires 0 < d && 0 <= r < d && x == d * q + r
    ensures x / d == q && x % d == r
  {
    var q1, r1 := x / d, x % d;
    assert d * (q1 - q) == r - r1;
    if q1 > q {
      MultipleAtLeast(d, q1 - q);
    } else if q1 < q {
      MultipleAtLeast(d, q - q1);
    }
  }

  /** A positive multiple of a positive number is at least that number. */
  lemma {:induction false} MultipleAtLeast(d: int, e: int)
    requires 0 < d && 1 <= e
    ensures d <= d * e
    decreases e
  {
    if e > 1 {
      MultipleAtLeast(d, e - 1);
      assert d * e == d * (e - 1) + d;
    }
  }

  /**
    YearFromTime is the largest year whose first millisecond is not after t,
    which is how the standard defines it.
  */
  lemma YearFromTimeIsLargest(t: int, y: int)
    ensures TimeFromYear(YearFromTime(t)) <= t
    ensures TimeFromYear(y) <= t ==> y <= YearFromTime(t)
  {
    var z := YearFromTime(t);
    if z < y {
      DayFromYearMonotone(z + 1, y);
    }
  }

  // ------------------------------------------------------ making values

  /** MakeTime for whole-number arguments. */
  function MakeTime(hour: int, min: int, sec: int, ms: int): (time: int)
    ensures 0 <= hour < HoursPerDay && 0 <= min < 60 && 0 <= sec < 60 && 0 <= ms < 1000 ==> 0 <= time < MsPerDay
  {
    hour * MsPerHour + min * MsPerMinute + sec * MsPerSecond + ms
  }

  /**
    MakeDay: the day number of date `date` of month `month` of year `year`,
    where a month outside 0..11 carries into the year.
  */
  function MakeDay(year: int, month: int, date: int): int
  {
    var ym := year + month / 12;
    var mn := month % 12;
    DayFromYear(ym) + MonthStart(mn, LeapDays(ym)) + date - 1
  }

  /**
    The standard defines MakeDay as Day(t) + date - 1 for the t whose year,
    month and date are the carried year, the month modulo 12 and 1; MakeDay
    meets that definition.
  */
  lemma MakeDayIsFirstOfMonthPlusDate(year: int, month: int, date: int, first: int)
    requires first == MakeDay(year, month, date) - date + 1
    ensures YearFromDay(first) == year + month / 12 && MonthFromDay(first) == month % 12 && DateFromDay(first) == 1
  {
    FirstOfMonth(year + month / 12, month % 12, first);
  }

  /** A day given as year, month and date within that month falls in that year and month. */
  lemma FirstOfMonth(y: int, m: int, first: int)
    requires 0 <= m < 12 && first == DayFromYear(y) + MonthStart(m, LeapDays(y))
    ensures YearFromDay(first) == y && MonthFromDay(first) == m && DateFromDay(first) == 1
  {
    DayOfCivilDate(y, m, 1, first);
  }

  /** The day number of a valid civil date maps back to that date. */
  lemma DayOfCivilDate(y: int, m: int, date: int, d: int)
    requires 0 <= m < 12 && 1 <= date <= DaysInMonth(y, m)
    requires d == DayFromYear(y) + MonthStart(m, LeapDays(y)) + date - 1
    ensures YearFromDay(d) == y && MonthFromDay(d) == m && DateFromDay(d) == date
  {
    DayWithinCivilYear(y, m, date, d);
    MonthFromDayIs(d, m);
  }

  /** The month of a day is the one whose span holds the day's place in its year. */
  lemma MonthFromDayIs(d: int, m: int)
    requires 0 <= m < 12
    requires MonthStart(m, LeapDays(YearFromDay(d))) <= DayWithinYear(d) < MonthStart(m + 1, LeapDays(YearFromDay(d)))
    ensures MonthFromDay(d) == m
  {
    MonthHoldingDay(LeapDays(YearFromDay(d)), MonthFromDay(d), m, DayWithinYear(d));
  }

  /** The day number of a valid civil date falls in its year, that many days after the year's first. */
  lemma DayWithinCivilYear(y: int, m: int, date: int, d: int)
    requires 0 <= m < 12 && 1 <= date <= DaysInMonth(y, m)
    requires d == DayFromYear(y) + MonthStart(m, LeapDays(y)) + date - 1
    ensures YearFromDay(d) == y && DayWithinYear(d) == MonthStart(m, LeapDays(y)) + date - 1
  {
    var leap := LeapDays(y);
    assert 0 <= d - DayFromYear(y) < DaysInYear(y) by {
      MonthStartMonotone(leap);
      assert MonthStart(m + 1, leap) <= MonthStart(12, leap);
    }
    assert DayFromYear(y) <= d < DayFromYear(y + 1) by { DayFromYearStep(y); }
    YearFromDayUnique(d, y);
  }

  /** A day number is rebuilt from its year, month and date: the converse of DayOfCivilDate. */
  lemma DayFromFields(d: int)
    ensures var y := YearFromDay(d);
            d == DayFromYear(y) + MonthStart(MonthFromDay(d), LeapDays(y)) + DateFromDay(d) - 1
  {
  }

  /** Only one month's span holds a given day of the year. */
  lemma MonthHoldingDay(leap: int, i: int, j: int, n: int)
    requires 0 <= leap <= 1 && 0 <= i < 12 && 0 <= j < 12
    requires MonthStart(i, leap) <= n < MonthStart(i + 1, leap)
    requires MonthStart(j, leap) <= n < MonthStart(j + 1, leap)
    ensures i == j
  {
    MonthStartMonotone(leap);
  }

  /** Months start in increasing order. */
  lemma MonthStartMonotone(leap: int)
    requires 0 <= leap <= 1
    ensures forall i, j :: 0 <= i <= j <= 12 ==> MonthStart(i, leap) <= MonthStart(j, leap)
  {
  }

  /** Every day is the MakeDay of its own year, month and date. */
  lemma MakeDayOfCivilFields(d: int)
    ensures MakeDay(YearFromDay(d), MonthFromDay(d), DateFromDay(d)) == d
  {
    var y, m, date := YearFromDay(d), MonthFromDay(d), DateFromDay(d);
    assert m / 12 == 0 && m % 12 == m;
    assert date == d - DayFromYear(y) - MonthStart(m, LeapDays(y)) + 1;
    assert MakeDay(y, m, date) == DayFromYear(y) + MonthStart(m, LeapDays(y)) + date - 1;
  }

  /** MakeDay of a valid civil date gives a day whose fields are that date. */
  lemma CivilFieldsOfMakeDay(y: int, m: int, date: int)
    requires 0 <= m < 12 && 1 <= date <= DaysInMonth(y, m)
    ensures YearFromDay(MakeDay(y, m, date)) == y
    ensures MonthFromDay(MakeDay(y, m, date)) == m
    ensures DateFromDay(MakeDay(y, m, date)) == date
  {
    assert m / 12 == 0 && m % 12 == m;
    assert MakeDay(y, m, date) == DayFromYear(y) + MonthStart(m, LeapDays(y)) + date - 1;
    DayOfCivilDate(y, m, date, MakeDay(y, m, date));
  }

  /** MakeDate: the time value `time` milliseconds into day `day`. */
  function MakeDate(day: int, time: int): (t: int)
    ensures 0 <= time < MsPerDay ==> Day(t) == day && TimeWithinDay(t) == time
  {
    day * MsPerDay + time
  }

  /** MakeFullYear: years 0 to 99 are read as 1900 to 1999. */
  function MakeFullYear(year: int): (y: int)
    ensures 0 <= year <= 99 ==> y == 1900 + year
    ensures !(0 <= year <= 99) ==> y == year
  {
    if 0 <= year <= 99 then 1900 + year else year
  }

  /** Date.UTC(year, month, date, hours, minutes, seconds) without a millisecond argument. */
  function DateUtc(year: int, month: int, date: int, hours: int, minutes: int, seconds: int): int
  {
    MakeDate(MakeDay(MakeFullYear(year), month, date), MakeTime(hours, minutes, seconds, 0))
  }

  /** The UTC getters read back every field of a valid Date.UTC call. */
  lemma UtcFieldsOfDateUtc(year: int, month: int, date: int, hours: int, minutes: int, seconds: int)
    requires 0 <= month < 12 && 1 <= date <= DaysInMonth(MakeFullYear(year), month)
    requires 0 <= hours < 24 && 0 <= minutes < 60 && 0 <= seconds < 60
    ensures var t := DateUtc(year, month, date, hours, minutes, seconds);
            && YearFromTime(t) == MakeFullYear(year)
            && MonthFromTime(t) == month
            && DateFromTime(t) == date
            && HourFromTime(t) == hours
            && MinFromTime(t) == minutes
            && SecFromTime(t) == seconds
  {
    var day := MakeDay(MakeFullYear(year), month, date);
    ClockOfMakeDate(day, hours, minutes, seconds);
    CivilFieldsOfMakeDay(MakeFullYear(year), month, date);
  }

  /** The day and the clock fields of a time made from a day and a time of day. */
  lemma ClockOfMakeDate(day: int, hours: int, minutes: int, seconds: int)
    requires 0 <= hours < 24 && 0 <= minutes < 60 && 0 <= seconds < 60
    ensures var t := MakeDate(day, MakeTime(hours, minutes, seconds, 0));
            && Day(t) == day
            && HourFromTime(t) == hours
            && MinFromTime(t) == minutes
            && SecFromTime(t) == seconds
  {
    var time := MakeTime(hours, minutes, seconds, 0);
    var t := MakeDate(day, time);
    assert time == 3600000 * hours + (60000 * minutes + 1000 * seconds);
    assert 0 <= time < 86400000;
    assert t == 86400000 * day + time;
    assert t / 86400000 == day && t % 86400000 == time;
    assert time / 3600000 == hours;
    assert time % 3600000 == 60000 * minutes + 1000 * seconds;
    assert (60000 * minutes + 1000 * seconds) / 60000 == minutes;
    assert time % 60000 == 1000 * seconds;
  }

  /**
    TimeClip for a finite time inside the range the model keeps: the
    integer obtained by truncating toward zero (ToIntegerOrInfinity).
  */
  function TimeClip(time: real): (t: int)
    ensures 0.0 <= time ==> t as real <= time < t as real + 1.0
    ensures time < 0.0 ==> t as real - 1.0 < time <= t as real
  {
    if time >= 0.0 then time.Floor else -((-time).Floor)
  }
}
