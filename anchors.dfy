/**
 * Where each tier's first window lies relative to `now`, and when
 * computing it overflows `datetime`'s range.
 */
module Anchors {
  import opened Results
  import opened Civil
  import opened Retention

  /** The last date `datetime` can represent, 9999-12-31. */
  const LastOrdinal: int := 3652059

  /** Away from the first and the last year, a date's ordinal is far from both ends of the range. */
  lemma OrdinalBounds(t: DateTime)
    requires ValidDate(t) && 2 <= t.year <= 9998
    ensures 366 <= Ordinal(t) <= LastOrdinal - 365
  {
    OrdinalWithinYear(t);
    DaysBeforeYearMonotone(2, t.year);
    DaysBeforeYearStep(t.year);
    DaysBeforeYearMonotone(t.year + 1, 9999);
  }

  /** No valid date lies after 9999-12-31, and only that date has its ordinal. */
  lemma LastDate(t: DateTime)
    requires ValidDate(t)
    ensures Ordinal(t) <= LastOrdinal
    ensures Ordinal(t) == LastOrdinal <==> (t.year, t.month, t.day) == (9999, 12, 31)
  {
    var last := DateTime(9999, 12, 31, 0, 0, 0);
    assert Ordinal(last) == LastOrdinal;
    OrdinalOrder(t, last);
  }

  /**
   * Daily: the first window is (midnight today, midnight tomorrow], one day
   * wide, and it exists unless today is 9999-12-31.
   */
  lemma DailyAnchor(now: DateTime)
    requires Valid(now)
    ensures FirstWindow("daily", now).Ok? <==> (now.year, now.month, now.day) != (9999, 12, 31)
    ensures FirstWindow("daily", now).Ok? ==>
              FirstWindow("daily", now).value == Schedule(Window(Midnight(now), Midnight(now) + Day), Day)
  {
    LastDate(now);
  }

  /**
   * Every backup taken on today's date after midnight falls in the first
   * daily window; one taken exactly at midnight does not, since the window
   * excludes its start.
   */
  lemma DailyHoldsToday(now: DateTime, t: DateTime)
    requires Valid(now) && Valid(t) && FirstWindow("daily", now).Ok?
    requires (t.year, t.month, t.day) == (now.year, now.month, now.day)
    ensures var w := FirstWindow("daily", now).value.first;
            w.start < Seconds(t) <= w.end <==> (t.hour, t.minute, t.second) != (0, 0, 0)
  {
    LastDate(now);
    OrdinalOrder(t, now);
  }

  /**
   * Hourly: the first window is (start of this hour, start of the next],
   * it holds `now` unless `now` is exactly on the hour, and it exists
   * unless this is the last hour of 9999-12-31.
   */
  lemma HourlyAnchor(now: DateTime)
    requires Valid(now)
    ensures FirstWindow("hourly", now).Ok? <==> (now.year, now.month, now.day, now.hour) != (9999, 12, 31, 23)
    ensures FirstWindow("hourly", now).Ok? ==>
              var top := Midnight(now) + now.hour * Hour;
              && FirstWindow("hourly", now).value == Schedule(Window(top, top + Hour), Hour)
              && top <= Seconds(now) < top + Hour
  {
    LastDate(now);
  }

  /**
   * Weekly: the first window ends at midnight of this week's Monday and is
   * seven days wide, so it is the previous calendar week; `now` lies in the
   * week after its end.
   */
  lemma WeeklyAnchor(now: DateTime)
    requires Valid(now)
    ensures FirstWindow("weekly", now).Ok? ==>
              var w := FirstWindow("weekly", now).value;
              && w.stride == 7 * Day
              && w.first.end % Day == 0
              && (w.first.end / Day + 6) % 7 == 0
              && w.first.end <= Midnight(now) < w.first.end + 7 * Day
  {
    if FirstWindow("weekly", now).Ok? {
      var w := FirstWindow("weekly", now).value;
      var monday := Ordinal(now) - Weekday(now);
      assert w.first.end == monday * Day;
      WholeDays(monday);
      MondayOrdinal(Ordinal(now));
    }
  }

  /** A whole number of days, divided back into days. */
  lemma WholeDays(d: int)
    ensures (d * Day) % Day == 0 && (d * Day) / Day == d
  {
  }

  /** Going back `calendar.weekday` days from any ordinal lands on a Monday. */
  lemma MondayOrdinal(o: int)
    ensures (o - (o + 6) % 7 + 6) % 7 == 0
  {
    assert o - (o + 6) % 7 + 6 == 7 * ((o + 6) / 7);
  }

  /**
   * Monthly: the first window ends at midnight on the first of this month
   * and reaches back a fixed 30 days, whatever the length of the month
   * before; `now` lies in the month after its end.
   */
  lemma MonthlyAnchor(now: DateTime)
    requires Valid(now)
    ensures FirstWindow("monthly", now).Ok? ==>
              var w := FirstWindow("monthly", now).value;
              && w.stride == 30 * Day
              && w.first.end == Ordinal(now.(day := 1)) * Day
              && w.first.end <= Midnight(now) < w.first.end + DaysInMonth(now.year, now.month) * Day
  {
  }

  /** Every tier has a first window whenever `now` is away from the first and the last year. */
  lemma FirstWindowDefined(tier: string, now: DateTime)
    requires Valid(now) && 2 <= now.year <= 9998
    requires tier == "monthly" || tier == "weekly" || tier == "daily" || tier == "hourly"
    ensures FirstWindow(tier, now).Ok?
  {
    OrdinalBounds(now);
    OrdinalBounds(now.(day := 1));
  }

  /** In January of year 1 the month before the first window is out of range. */
  lemma MonthlyOverflow(now: DateTime)
    requires Valid(now) && now.year == 1 && now.month == 1
    ensures FirstWindow("monthly", now) == Err(DateOutOfRange)
  {
    assert Ordinal(now.(day := 1)) == 1;
  }
}
