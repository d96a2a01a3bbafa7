/**
 * The periods the roll-ups cover, computed from a reference date the way
 * `updateHourlyAverages`, `updateDailyStatistics`, `updateWeeklyStatistics`
 * and `updateMonthlyStatistics` compute them with Go's `time` package.
 */
module Windows {
  import opened Calendar

  /** The cron schedules of the jobs (minute hour day-of-month month day-of-week). */
  const IngestSchedule := "*/5 * * * *"
  const DailySchedule := "5 0 * * *"
  const WeeklySchedule := "10 0 * * 1"
  const MonthlySchedule := "15 0 1 * *"

  /** A local instant already decomposed into its calendar date and hour of day. */
  datatype Stamp = Stamp(date: Date, hour: int)

  predicate ValidStamp(t: Stamp) {
    ValidDate(t.date) && 0 <= t.hour < 24
  }

  /** The natural key of an hourly summary row. */
  datatype HourKey = HourKey(date: Date, hour: int)

  /** The hourly roll-up key: the formatted date and the hour of the reading's own time. */
  function HourlyKey(t: Stamp): (k: HourKey)
    ensures ValidStamp(t) ==> ValidDate(k.date) && 0 <= k.hour <= 23
  {
    HourKey(t.date, t.hour)
  }

  // ------------------------------------------------------------------ daily

  /** `time.Now().AddDate(0, 0, -1)`: the day before the reference date. */
  function DailyDate(now: Date): (d: Date)
    requires ValidDate(now)
    ensures ValidDate(d) && Serial(d) == Serial(now) - 1
  {
    AddDateDays(now, -1);
    AddDate(now, 0, 0, -1)
  }

  /** Yesterday, field by field, across month and year boundaries. */
  lemma DailyDateCases(now: Date)
    requires ValidDate(now)
    ensures now.day > 1 ==> DailyDate(now) == Date(now.year, now.month, now.day - 1)
    ensures now.day == 1 && now.month > 1 ==>
              DailyDate(now) == Date(now.year, now.month - 1, DaysInMonth(now.year, now.month - 1))
    ensures now.day == 1 && now.month == 1 ==> DailyDate(now) == Date(now.year - 1, 12, 31)
  {
    if now.day > 1 {
      DayBefore(now, Date(now.year, now.month, now.day - 1));
    } else if now.month > 1 {
      MonthStartNext(now.year, now.month - 1);
      DayBefore(now, Date(now.year, now.month - 1, DaysInMonth(now.year, now.month - 1)));
    } else {
      NewYearsEve(now.year - 1);
      DayBefore(now, Date(now.year - 1, 12, 31));
    }
  }

  /** Any real date whose serial is one less is the day before. */
  lemma DayBefore(now: Date, d: Date)
    requires ValidDate(now) && ValidDate(d) && Serial(d) + 1 == Serial(now)
    ensures DailyDate(now) == d
  {
    SerialInjective(DailyDate(now), d);
  }

  /** December 31 is the last day before the next year's January 1. */
  lemma NewYearsEve(y: int)
    ensures Serial(Date(y, 12, 31)) + 1 == Serial(Date(y + 1, 1, 1))
  {
    YearStep(y);
    MonthsFillYear(y, 12);
  }

  // ----------------------------------------------------------------- weekly

  /** The weekly row's key and range: ISO year and week, and the Monday-to-Sunday dates. */
  datatype WeekWindow = WeekWindow(year: int, week: int, start: Date, end: Date)

  /**
   * `updateWeeklyStatistics`: go back `weekday + 6` days (13 on a Sunday) to
   * the Monday, truncate it to midnight, take the Sunday six days later, and
   * number the week with `ISOWeek` of the Monday.
   */
  function WeeklyWindow(now: Date): (w: WeekWindow)
    requires ValidDate(now)
    ensures ValidDate(w.start) && ValidDate(w.end)
  {
    var back := if Weekday(now) == Sunday then AddDate(now, 0, 0, -13)
                else AddDate(now, 0, 0, -Weekday(now) - 6);
    var lastMonday := DateOf(back.year, back.month, back.day);
    var lastSunday := AddDate(lastMonday, 0, 0, 6);
    var iso := ISOWeek(lastMonday);
    WeekWindow(iso.year, iso.week, lastMonday, lastSunday)
  }

  /**
   * The week starts on the Monday seven days before the Monday of the
   * reference date's week: a Monday 7 to 13 days back, exactly 13 on a Sunday.
   */
  lemma WeeklyStart(now: Date)
    requires ValidDate(now)
    ensures WeeklyWindow(now).start == AddDays(MondayOf(now), -7)
    ensures Weekday(WeeklyWindow(now).start) == Monday
    ensures 7 <= Serial(now) - Serial(WeeklyWindow(now).start) <= 13
    ensures Weekday(now) == Sunday ==> Serial(now) - Serial(WeeklyWindow(now).start) == 13
    ensures Weekday(now) == Monday ==> Serial(now) - Serial(WeeklyWindow(now).start) == 7
  {
    var m := MondayOf(now);
    var start := WeeklyWindow(now).start;
    WeeklyStartShift(now);
    AddDaysIs(m, -7, start);
    WeekApartSameWeekday(m, start);
  }

  /** Both branches of the source step back to the Monday of the week, then seven days more. */
  lemma WeeklyStartShift(now: Date)
    requires ValidDate(now)
    ensures Serial(WeeklyWindow(now).start) == Serial(now) - DaysSinceMonday(Weekday(now)) - 7
  {
    var wd := Weekday(now);
    var shift := if wd == Sunday then -13 else -wd - 6;
    AddDateDays(now, shift);
    DateOfValid(AddDays(now, shift));
  }

  /** The Monday of a Monday is itself. */
  lemma MondayOfMonday(m: Date)
    requires ValidDate(m) && Weekday(m) == Monday
    ensures MondayOf(m) == m
  {
    AddDaysIs(m, 0, m);
  }

  /** The week ends on the Sunday six days after its Monday, in the same ISO week. */
  lemma WeeklyEnd(now: Date)
    requires ValidDate(now)
    ensures Serial(WeeklyWindow(now).end) == Serial(WeeklyWindow(now).start) + 6
    ensures Weekday(WeeklyWindow(now).end) == Sunday
    ensures MondayOf(WeeklyWindow(now).end) == WeeklyWindow(now).start
    ensures ISOWeek(WeeklyWindow(now).end) == ISOWeek(WeeklyWindow(now).start)
  {
    var w := WeeklyWindow(now);
    WeeklyStart(now);
    AddDateDays(w.start, 6);
    WeekdayOfSerialShift(Serial(w.start), 6, Serial(w.end));
    AddDaysIs(w.end, -6, w.start);
    MondayOfMonday(w.start);
    SameWeekSameISOWeek(w.end, w.start);
  }

  /** Two Mondays less than a week apart are the same day. */
  lemma MondaysApart(a: Date, b: Date)
    requires ValidDate(a) && ValidDate(b)
    requires Weekday(a) == Monday && Weekday(b) == Monday
    requires -6 <= Serial(b) - Serial(a) <= 6
    ensures a == b
  {
    var weeks := SameWeekdayOfSerial(Serial(a), Serial(b));
    SerialInjective(a, b);
  }

  /** The queried date range is exactly the days whose ISO week starts on the window's Monday. */
  lemma WeeklyRangeIsOneWeek(now: Date, d: Date)
    requires ValidDate(now) && ValidDate(d)
    ensures DateLe(WeeklyWindow(now).start, d) && DateLe(d, WeeklyWindow(now).end)
            <==> MondayOf(d) == WeeklyWindow(now).start
  {
    var w := WeeklyWindow(now);
    WeeklyStart(now);
    WeeklyEnd(now);
    DateLeIsSerialOrder(w.start, d);
    DateLeIsSerialOrder(d, w.end);
    if Serial(w.start) <= Serial(d) <= Serial(w.end) {
      MondaysApart(MondayOf(d), w.start);
    }
  }

  /** The row's `(year, week)` is `ISOWeek` of the Monday, which is the ISO 8601 week of that Monday. */
  lemma WeeklyIsoWeek(now: Date)
    requires ValidDate(now)
    ensures IsoWeek(WeeklyWindow(now).year, WeeklyWindow(now).week) == ISOWeek(WeeklyWindow(now).start)
    ensures IsoWeek(WeeklyWindow(now).year, WeeklyWindow(now).week) == IsoWeekReference(WeeklyWindow(now).start)
    ensures WeeklyWindow(now).year == ThursdayOf(WeeklyWindow(now).start).year
    ensures 1 <= WeeklyWindow(now).week <= 53
  {
    ISOWeekUsesThursday(WeeklyWindow(now).start);
    ISOWeekIsISO8601(WeeklyWindow(now).start);
  }

  /** The window is the ISO week immediately before the reference date's ISO week. */
  lemma WeeklyIsPreviousWeek(now: Date)
    requires ValidDate(now)
    ensures AddDays(WeeklyWindow(now).start, 7) == MondayOf(now)
    ensures ISOWeek(AddDays(WeeklyWindow(now).start, 7)) == ISOWeek(now)
  {
    var w := WeeklyWindow(now);
    WeeklyStart(now);
    AddDaysIs(w.start, 7, MondayOf(now));
    MondayOfMonday(MondayOf(now));
    SameWeekSameISOWeek(MondayOf(now), now);
  }

  /**
   * The window's week number is one less than the reference date's, except in
   * week 1, where it is the last week (52 or 53) of the previous ISO year.
   */
  lemma WeeklyWeekNumber(now: Date)
    requires ValidDate(now)
    ensures ISOWeek(now).week > 1 ==>
              WeeklyWindow(now).year == ISOWeek(now).year && WeeklyWindow(now).week == ISOWeek(now).week - 1
    ensures ISOWeek(now).week == 1 ==>
              WeeklyWindow(now).year == ISOWeek(now).year - 1 && 52 <= WeeklyWindow(now).week <= 53
  {
    var w := WeeklyWindow(now);
    WeeklyStart(now);
    MondayOfMonday(w.start);
    ISOWeekUsesThursday(now);
    ISOWeekUsesThursday(w.start);
    PreviousThursday(ThursdayOf(now), ThursdayOf(w.start));
  }

  /** The Thursday a week before `th` is in the same year unless `th` is in the first seven days of its year. */
  lemma PreviousThursday(th: Date, prev: Date)
    requires ValidDate(th) && ValidDate(prev)
    requires Serial(prev) == Serial(th) - 7
    ensures DayOfYear(th) >= 7 ==> prev.year == th.year && DayOfYear(prev) / 7 + 1 == DayOfYear(th) / 7
    ensures DayOfYear(th) < 7 ==> prev.year == th.year - 1 && 51 <= DayOfYear(prev) / 7
  {
    var y := th.year;
    SerialInYear(th);
    YearStep(y - 1);
    if DayOfYear(th) >= 7 {
      YearOfSerial(prev, y);
    } else {
      YearOfSerial(prev, y - 1);
    }
  }

  // ---------------------------------------------------------------- monthly

  /** The monthly row's key and range: year, month, and its first and last day. */
  datatype MonthWindow = MonthWindow(year: int, month: int, first: Date, last: Date)

  /**
   * `updateMonthlyStatistics`: `AddDate(0, -1, 0)` of the reference date
   * gives the year and month, `time.Date(year, month, 1)` the first day and
   * `AddDate(0, 1, -1)` of that the last day.
   */
  function MonthlyWindow(now: Date): (w: MonthWindow)
    requires ValidDate(now)
    ensures ValidDate(w.first) && ValidDate(w.last)
  {
    var lastMonth := AddDate(now, 0, -1, 0);
    var firstDay := DateOf(lastMonth.year, lastMonth.month, 1);
    var lastDay := AddDate(firstDay, 0, 1, -1);
    MonthWindow(lastMonth.year, lastMonth.month, firstDay, lastDay)
  }

  /** The window is one whole calendar month, from day 1 to the month's last day. */
  lemma MonthlyWholeMonth(now: Date)
    requires ValidDate(now)
    ensures 1 <= MonthlyWindow(now).month <= 12
    ensures MonthlyWindow(now).first == Date(MonthlyWindow(now).year, MonthlyWindow(now).month, 1)
    ensures MonthlyWindow(now).last
            == Date(MonthlyWindow(now).year, MonthlyWindow(now).month,
                    DaysInMonth(MonthlyWindow(now).year, MonthlyWindow(now).month))
  {
    var w := MonthlyWindow(now);
    DateOfValid(Date(w.year, w.month, 1));
    LastDayOfMonth(w.year, w.month);
  }

  /**
   * Which month `AddDate(0, -1, 0)` picks: the previous month when the day
   * number exists there, and otherwise (March 31 back to "February 31") the
   * overflow carries it into the reference date's own month.
   */
  lemma MonthlyWhichMonth(now: Date)
    requires ValidDate(now)
    ensures var (py, pm) := PrevMonth(now.year, now.month);
            now.day <= DaysInMonth(py, pm) ==> MonthlyWindow(now).year == py && MonthlyWindow(now).month == pm
    ensures var (py, pm) := PrevMonth(now.year, now.month);
            now.day > DaysInMonth(py, pm) ==>
              MonthlyWindow(now).year == now.year && MonthlyWindow(now).month == now.month
  {
    var (py, pm) := PrevMonth(now.year, now.month);
    var lastMonth := AddDate(now, 0, -1, 0);
    MonthBack(now);
    if now.day <= DaysInMonth(py, pm) {
      SerialInjective(lastMonth, Date(py, pm, now.day));
    } else {
      MonthStartNext(py, pm);
      SerialInjective(lastMonth, Date(now.year, now.month, now.day - DaysInMonth(py, pm)));
    }
  }

  /** On the scheduled day, the first of a month, the window is the whole previous month. */
  lemma MonthlyOnFirstDay(now: Date)
    requires ValidDate(now) && now.day == 1
    ensures var (py, pm) := PrevMonth(now.year, now.month);
            MonthlyWindow(now) == MonthWindow(py, pm, Date(py, pm, 1), Date(py, pm, DaysInMonth(py, pm)))
    ensures now.month == 1 ==> MonthlyWindow(now).year == now.year - 1 && MonthlyWindow(now).month == 12
    ensures now.month > 1 ==> MonthlyWindow(now).year == now.year && MonthlyWindow(now).month == now.month - 1
  {
    MonthlyWhichMonth(now);
    MonthlyWholeMonth(now);
  }

  /** On 1 March the window is February, whose last day is the 29th exactly in leap years. */
  lemma MonthlyOnMarchFirst(y: int)
    ensures MonthlyWindow(Date(y, 3, 1)) == MonthWindow(y, 2, Date(y, 2, 1), Date(y, 2, if IsLeapYear(y) then 29 else 28))
  {
    MonthlyOnFirstDay(Date(y, 3, 1));
  }

  /** On 31 March "February 31" overflows and the window is March itself. */
  lemma MonthlyOnMarch31(y: int)
    ensures MonthlyWindow(Date(y, 3, 31)) == MonthWindow(y, 3, Date(y, 3, 1), Date(y, 3, 31))
  {
    MonthlyWhichMonth(Date(y, 3, 31));
    MonthlyWholeMonth(Date(y, 3, 31));
  }
}
