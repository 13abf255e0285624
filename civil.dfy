/**
 * Naive local date-times as Python's `datetime` sees them: the proleptic
 * Gregorian calendar over years 1..9999, whole seconds.  A date-time is
 * mapped to an integer count of seconds through Python's day ordinal
 * (0001-01-01 is day 1), so `timedelta` arithmetic becomes integer
 * addition and comparison of date-times becomes comparison of integers.
 */
module Civil {

  datatype DateTime = DateTime(year: int, month: int, day: int, hour: int, minute: int, second: int)

  const SecondsPerDay: int := 86400

  /** `datetime.min` (0001-01-01 00:00:00) in seconds. */
  const MinSeconds: int := 86400

  /** `datetime.max` truncated to whole seconds (9999-12-31 23:59:59). */
  const MaxSeconds: int := 3652059 * 86400 + 86399

  predicate IsLeap(y: int) {
    y % 4 == 0 && (y % 100 != 0 || y % 400 == 0)
  }

  function DaysInYear(y: int): int {
    if IsLeap(y) then 366 else 365
  }

  function DaysInMonth(y: int, m: int): (n: int)
    requires 1 <= m <= 12
    ensures 28 <= n <= 31
  {
    if m == 2 then (if IsLeap(y) then 29 else 28)
    else if m == 4 || m == 6 || m == 9 || m == 11 then 30
    else 31
  }

  /** Days in the year before the first of month `m`. */
  function DaysBeforeMonth(y: int, m: int): int
    requires 1 <= m <= 12
  {
    var cumulative := [0, 31, 59, 90, 120, 151, 181, 212, 243, 273, 304, 334];
    cumulative[m - 1] + (if m > 2 && IsLeap(y) then 1 else 0)
  }

  /** Days in all the years before year `y`. */
  function DaysBeforeYear(y: int): int
    requires y >= 1
  {
    var p := y - 1;
    p * 365 + p / 4 - p / 100 + p / 400
  }

  /** The date part is one `datetime` accepts. */
  predicate ValidDate(t: DateTime) {
    1 <= t.year <= 9999 && 1 <= t.month <= 12 && 1 <= t.day <= DaysInMonth(t.year, t.month)
  }

  /** The whole date-time is one `datetime` accepts (no leap seconds). */
  predicate Valid(t: DateTime) {
    ValidDate(t) && 0 <= t.hour < 24 && 0 <= t.minute < 60 && 0 <= t.second < 60
  }

  /**
   * `date.toordinal()`: the days of January of year 1 are numbered from 1,
   * and every ordinal is positive.  `OrdinalNextDay` shows that each next
   * calendar date has the next ordinal, which fixes the numbering.
   */
  function Ordinal(t: DateTime): (r: int)
    requires ValidDate(t)
    ensures r >= 1
    ensures t.year == 1 && t.month == 1 ==> r == t.day
  {
    DaysBeforeYear(t.year) + DaysBeforeMonth(t.year, t.month) + t.day
  }

  /**
   * `calendar.weekday`: Monday is 0, Sunday is 6.  0001-01-01 of the
   * proleptic calendar is a Monday; `OrdinalNextDay` moves the weekday on
   * by one each day, which fixes every other date's weekday.
   */
  function Weekday(t: DateTime): (w: int)
    requires ValidDate(t)
    ensures 0 <= w < 7
    ensures t.year == 1 && t.month == 1 && t.day == 1 ==> w == 0
  {
    (Ordinal(t) + 6) % 7
  }

  /** Seconds since 0000-12-31 00:00:00 of the proleptic calendar. */
  function Seconds(t: DateTime): int
    requires Valid(t)
  {
    Ordinal(t) * SecondsPerDay + t.hour * 3600 + t.minute * 60 + t.second
  }

  /** Python's comparison of two date-times: their fields as a tuple, lexicographically. */
  predicate Before(a: DateTime, b: DateTime) {
    || a.year < b.year
    || (a.year == b.year && a.month < b.month)
    || (a.year == b.year && a.month == b.month && a.day < b.day)
    || (a.year == b.year && a.month == b.month && a.day == b.day && a.hour < b.hour)
    || (a.year == b.year && a.month == b.month && a.day == b.day && a.hour == b.hour && a.minute < b.minute)
    || (a.year == b.year && a.month == b.month && a.day == b.day && a.hour == b.hour && a.minute == b.minute
        && a.second < b.second)
  }

  /** The same time of day on the following calendar date. */
  function NextDay(t: DateTime): DateTime
    requires ValidDate(t)
  {
    if t.day < DaysInMonth(t.year, t.month) then t.(day := t.day + 1)
    else if t.month < 12 then t.(month := t.month + 1, day := 1)
    else t.(year := t.year + 1, month := 1, day := 1)
  }

  // ---------------------------------------------------------------------
  // Calendar arithmetic

  lemma DivStep4(p: int)
    requires p >= 0
    ensures (p + 1) / 4 == p / 4 + (if (p + 1) % 4 == 0 then 1 else 0)
  {
  }

  lemma DivStep100(p: int)
    requires p >= 0
    ensures (p + 1) / 100 == p / 100 + (if (p + 1) % 100 == 0 then 1 else 0)
  {
  }

  lemma DivStep400(p: int)
    requires p >= 0
    ensures (p + 1) / 400 == p / 400 + (if (p + 1) % 400 == 0 then 1 else 0)
  {
  }

  lemma LeapIndicator(y: int)
    ensures DaysInYear(y) == 365 + (if y % 4 == 0 then 1 else 0) - (if y % 100 == 0 then 1 else 0)
                                 + (if y % 400 == 0 then 1 else 0)
  {
  }

  lemma DaysBeforeYearStep(y: int)
    requires y >= 1
    ensures DaysBeforeYear(y + 1) == DaysBeforeYear(y) + DaysInYear(y)
  {
    DivStep4(y - 1);
    DivStep100(y - 1);
    DivStep400(y - 1);
    LeapIndicator(y);
  }

  lemma {:induction false} DaysBeforeYearMonotone(a: int, b: int)
    requires 1 <= a <= b
    ensures DaysBeforeYear(a) + 365 * (b - a) <= DaysBeforeYear(b)
    decreases b - a
  {
    if a < b {
      DaysBeforeYearMonotone(a, b - 1);
      DaysBeforeYearStep(b - 1);
    }
  }

  lemma MonthStep(y: int, m: int)
    requires 1 <= m <= 12
    ensures m < 12 ==> DaysBeforeMonth(y, m + 1) == DaysBeforeMonth(y, m) + DaysInMonth(y, m)
    ensures m == 12 ==> DaysBeforeMonth(y, m) + DaysInMonth(y, m) == DaysInYear(y)
  {
  }

  lemma {:induction false} DaysBeforeMonthMonotone(y: int, m1: int, m2: int)
    requires 1 <= m1 < m2 <= 12
    ensures DaysBeforeMonth(y, m1) + DaysInMonth(y, m1) <= DaysBeforeMonth(y, m2)
    decreases m2 - m1
  {
    MonthStep(y, m1);
    if m1 + 1 < m2 {
      DaysBeforeMonthMonotone(y, m1 + 1, m2);
    }
  }

  /** A date's ordinal lies inside its own year. */
  lemma OrdinalWithinYear(t: DateTime)
    requires ValidDate(t)
    ensures DaysBeforeYear(t.year) < Ordinal(t) <= DaysBeforeYear(t.year) + DaysInYear(t.year)
  {
    if t.month < 12 {
      DaysBeforeMonthMonotone(t.year, t.month, 12);
    }
    MonthStep(t.year, 12);
  }

  /** Python's day ordinal follows the calendar order of dates. */
  lemma OrdinalOrder(a: DateTime, b: DateTime)
    requires ValidDate(a) && ValidDate(b)
    ensures (a.year, a.month, a.day) == (b.year, b.month, b.day) ==> Ordinal(a) == Ordinal(b)
    ensures (|| a.year < b.year
             || (a.year == b.year && a.month < b.month)
             || (a.year == b.year && a.month == b.month && a.day < b.day))
            ==> Ordinal(a) < Ordinal(b)
  {
    if a.year < b.year {
      OrdinalWithinYear(a);
      OrdinalWithinYear(b);
      DaysBeforeYearStep(a.year);
      DaysBeforeYearMonotone(a.year + 1, b.year);
    } else if a.year == b.year && a.month < b.month {
      DaysBeforeMonthMonotone(a.year, a.month, b.month);
    }
  }

  /**
   * Comparing seconds is comparing date-times the way Python does, and
   * distinct date-times have distinct seconds: modelling instants as
   * integers loses nothing.
   */
  lemma SecondsOrder(a: DateTime, b: DateTime)
    requires Valid(a) && Valid(b)
    ensures Seconds(a) < Seconds(b) <==> Before(a, b)
    ensures Seconds(a) == Seconds(b) <==> a == b
  {
    OrdinalOrder(a, b);
    OrdinalOrder(b, a);
  }

  /** Every valid date-time lies between `datetime.min` and `datetime.max`. */
  lemma SecondsRange(t: DateTime)
    requires Valid(t)
    ensures MinSeconds <= Seconds(t) <= MaxSeconds
  {
    OrdinalWithinYear(t);
    DaysBeforeYearMonotone(1, t.year);
    DaysBeforeYearMonotone(t.year, 9999);
    DaysBeforeYearStep(t.year);
    if t.year < 9999 {
      DaysBeforeYearMonotone(t.year + 1, 9999);
    }
  }

  /** `+ timedelta(1)` on a date is the next calendar date. */
  lemma OrdinalNextDay(t: DateTime)
    requires ValidDate(t)
    requires (t.year, t.month, t.day) != (9999, 12, 31)
    ensures ValidDate(NextDay(t))
    ensures Ordinal(NextDay(t)) == Ordinal(t) + 1
    ensures Weekday(NextDay(t)) == (Weekday(t) + 1) % 7
  {
    var n := NextDay(t);
    if t.day < DaysInMonth(t.year, t.month) {
      assert Ordinal(n) == Ordinal(t) + 1;
    } else if t.month < 12 {
      MonthStep(t.year, t.month);
      assert Ordinal(n) == DaysBeforeYear(t.year) + DaysBeforeMonth(t.year, t.month + 1) + 1;
    } else {
      MonthStep(t.year, 12);
      DaysBeforeYearStep(t.year);
      assert Ordinal(n) == DaysBeforeYear(t.year + 1) + 1;
    }
    WeekdayStep(Ordinal(t));
  }

  lemma WeekdayStep(k: int)
    ensures (k + 1 + 6) % 7 == ((k + 6) % 7 + 1) % 7
  {
  }
}
