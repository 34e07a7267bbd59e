/** Dates and times as the pipeline sees them. A date is a day number counted
    from 1970-01-01 (a Thursday); a time of day is whole seconds since midnight,
    which is the resolution of the trade-report table's execution time. */
module Calendar {

  const SecondsPerDay: int := 86400

  type TimeOfDay = t: int | 0 <= t < 86400

  /** Day number of a proleptic Gregorian calendar date (days since 1970-01-01). */
  function DayNumber(year: int, month: int, day: int): int
    requires 1 <= month <= 12 && 1 <= day <= 31
  {
    var y := if month <= 2 then year - 1 else year;
    var era := y / 400;
    var yoe := y - era * 400;
    var doy := (153 * (if month > 2 then month - 3 else month + 9) + 2) / 5 + day - 1;
    var doe := yoe * 365 + yoe / 4 - yoe / 100 + doy;
    era * 146097 + doe - 719468
  }

  /** First and last day of the extraction window and of the trading-day reference. */
  const Jan1st2014: int := 16071
  const Jan1st2015: int := 16436
  const Dec31st2016: int := 17166

  lemma DateConstants()
    ensures DayNumber(1970, 1, 1) == 0
    ensures DayNumber(2014, 1, 1) == Jan1st2014
    ensures DayNumber(2015, 1, 1) == Jan1st2015
    ensures DayNumber(2016, 12, 31) == Dec31st2016
  {
  }

  /** pandas' Series.dt.weekday: Monday is 0 and Sunday is 6. */
  function Weekday(d: int): (w: int)
    ensures 0 <= w < 7
  {
    (d + 3) % 7
  }

  /** The weekday numbering is anchored in the calendar: 1970-01-01 was a Thursday,
      2015-01-05 a Monday and 2015-01-04 a Sunday. */
  lemma WeekdayAnchors()
    ensures Weekday(DayNumber(1970, 1, 1)) == 3
    ensures Weekday(DayNumber(2015, 1, 5)) == 0
    ensures Weekday(DayNumber(2015, 1, 4)) == 6
  {
  }

  /** Postgres' EXTRACT(ISODOW ...): Monday is 1 and Sunday is 7. */
  function IsoDow(d: int): (w: int)
    ensures 1 <= w <= 7
    ensures w < 6 <==> Weekday(d) < 5
  {
    Weekday(d) + 1
  }

  /** date - to_timedelta(date.weekday, unit='D'): the Monday that opens the date's week. */
  function WeekStart(d: int): (m: int)
    ensures Weekday(m) == 0
    ensures m <= d < m + 7
  {
    d - Weekday(d)
  }

  /** Only one Monday lies in the seven days ending on a date, so WeekStart is the
      one and only week start of the date. */
  lemma WeekStartUnique(d: int, m: int)
    requires Weekday(m) == 0 && m <= d < m + 7
    ensures m == WeekStart(d)
  {
    var k := d - m;
    assert (m + 3) % 7 == 0;
    assert (d + 3) % 7 == k by {
      assert d + 3 == (m + 3) + k;
    }
  }

  /** Two dates share a week start exactly when they lie in the same Monday-to-Sunday week. */
  lemma SameWeek(d: int, e: int)
    ensures WeekStart(d) == WeekStart(e) <==> WeekStart(d) <= e < WeekStart(d) + 7
  {
    if WeekStart(d) <= e < WeekStart(d) + 7 {
      WeekStartUnique(e, WeekStart(d));
    }
  }

  lemma {:induction false} WeekStartIdempotent(d: int)
    ensures WeekStart(WeekStart(d)) == WeekStart(d)
  {
    WeekStartUnique(WeekStart(d), WeekStart(d));
  }

  /** The date and time of a trade as one instant, in seconds. */
  function Timestamp(date: int, time: TimeOfDay): int
  {
    date * SecondsPerDay + time
  }

  /** Timestamps order instants as (date, time) pairs do, and .dt.normalize()
      recovers the date from the instant. */
  lemma TimestampOrder(d1: int, t1: TimeOfDay, d2: int, t2: TimeOfDay)
    ensures Timestamp(d1, t1) < Timestamp(d2, t2) <==> d1 < d2 || (d1 == d2 && t1 < t2)
    ensures Timestamp(d1, t1) / SecondsPerDay == d1
  {
    if d1 < d2 {
      assert d1 * SecondsPerDay + SecondsPerDay <= d2 * SecondsPerDay;
    } else if d2 < d1 {
      assert d2 * SecondsPerDay + SecondsPerDay <= d1 * SecondsPerDay;
    }
  }
}
