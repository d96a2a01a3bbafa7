/**
 * Civil-calendar arithmetic on proleptic Gregorian dates, as Go's `time`
 * package performs it: a day serial (days since 0001-01-01), the
 * normalisation that `time.Date` and `AddDate` apply to out-of-range months
 * and days, the weekday (Sunday = 0, as `time.Weekday`) and `ISOWeek`.
 */
module Calendar {

  /** A calendar date; `ValidDate` says when it names a real day. */
  datatype Date = Date(year: int, month: int, day: int)

  /** An ISO 8601 week-numbering year and week, as `ISOWeek` returns them. */
  datatype IsoWeek = IsoWeek(year: int, week: int)

  /** The Gregorian leap-year rule. */
  predicate IsLeapYear(y: int) {
    y % 4 == 0 && (y % 100 != 0 || y % 400 == 0)
  }

  function YearLength(y: int): int {
    if IsLeapYear(y) then 366 else 365
  }

  function DaysInMonth(y: int, m: int): (n: int)
    requires 1 <= m <= 12
    ensures 28 <= n <= 31
  {
    if m == 2 then (if IsLeapYear(y) then 29 else 28)
    else if m == 4 || m == 6 || m == 9 || m == 11 then 30
    else 31
  }

  predicate ValidDate(d: Date) {
    1 <= d.month <= 12 && 1 <= d.day <= DaysInMonth(d.year, d.month)
  }

  /** Days from 0001-01-01 to January 1 of year `y` (negative before year 1), year by year. */
  function DaysBeforeYear(y: int): int
    decreases if y >= 1 then y - 1 else 1 - y
  {
    if y == 1 then 0
    else if y > 1 then DaysBeforeYear(y - 1) + YearLength(y - 1)
    else DaysBeforeYear(y + 1) - YearLength(y)
  }

  /** The closed form Go's `daysSinceEpoch` uses: 365 days a year plus the leap days. */
  function LeapDaysFormula(y: int): int {
    var p := y - 1;
    365 * p + p / 4 - p / 100 + p / 400
  }

  /** Days from January 1 to the first of month `m` of year `y`, month by month. */
  function DaysBeforeMonth(y: int, m: int): (n: int)
    requires 1 <= m <= 12
    ensures 28 * (m - 1) <= n <= 31 * (m - 1)
  {
    if m == 1 then 0 else DaysBeforeMonth(y, m - 1) + DaysInMonth(y, m - 1)
  }

  /** The month-start table Go keeps in `daysBefore`, with February 29 added in leap years. */
  lemma DaysBeforeMonthTable(y: int, m: int)
    requires 1 <= m <= 12
    ensures DaysBeforeMonth(y, m) == [0, 31, 59, 90, 120, 151, 181, 212, 243, 273, 304, 334][m - 1]
                                     + (if m > 2 && IsLeapYear(y) then 1 else 0)
  {
    if m > 1 {
      DaysBeforeMonthTable(y, m - 1);
    }
  }

  /** The serial of the first day of month `m` of year `y`. */
  function MonthStart(y: int, m: int): int
    requires 1 <= m <= 12
  {
    DaysBeforeYear(y) + DaysBeforeMonth(y, m)
  }

  /** Days since 0001-01-01 (which has serial 0). */
  function Serial(d: Date): int
    requires 1 <= d.month <= 12
  {
    MonthStart(d.year, d.month) + d.day - 1
  }

  function NextMonth(y: int, m: int): (r: (int, int))
    requires 1 <= m <= 12
    ensures 1 <= r.1 <= 12
  {
    if m == 12 then (y + 1, 1) else (y, m + 1)
  }

  function PrevMonth(y: int, m: int): (r: (int, int))
    requires 1 <= m <= 12
    ensures 1 <= r.1 <= 12
    ensures NextMonth(r.0, r.1) == (y, m)
  {
    if m == 1 then (y - 1, 12) else (y, m - 1)
  }

  lemma YearStep(y: int)
    ensures DaysBeforeYear(y + 1) == DaysBeforeYear(y) + YearLength(y)
  {
  }

  /** The closed form grows by one year length from each year to the next. */
  lemma LeapDaysFormulaStep(y: int)
    ensures LeapDaysFormula(y + 1) == LeapDaysFormula(y) + YearLength(y)
  {
    FloorStep(y, 4);
    FloorStep(y, 100);
    FloorStep(y, 400);
  }

  /** Floor division by `k` steps down by one exactly at the multiples of `k`. */
  lemma FloorStep(y: int, k: int)
    requires k > 0
    ensures y / k - (y - 1) / k == if y % k == 0 then 1 else 0
  {
    var q, r := y / k, y % k;
    if r == 0 {
      DivUnique(y - 1, k, q - 1, k - 1);
    } else {
      DivUnique(y - 1, k, q, r - 1);
    }
  }

  /** Euclidean division has one quotient. */
  lemma DivUnique(x: int, k: int, q: int, r: int)
    requires k > 0 && 0 <= r < k && x == k * q + r
    ensures x / k == q
  {
    var q0, r0 := x / k, x % k;
    assert k * (q - q0) == r0 - r;
    MulSign(k, q - q0);
  }

  /** A non-zero multiple of `k` is at least `k` away from zero. */
  lemma MulSign(k: int, d: int)
    requires k > 0
    ensures d >= 1 ==> k * d >= k
    ensures d <= -1 ==> k * d <= -k
  {
    if d >= 1 {
      MulAtLeast(k, d);
    } else if d <= -1 {
      MulAtLeast(k, -d);
      assert k * d == -(k * -d);
    }
  }

  lemma {:induction false} MulAtLeast(k: int, d: int)
    requires k > 0 && d >= 1
    ensures k * d >= k
  {
    if d > 1 {
      MulAtLeast(k, d - 1);
      assert k * d == k * (d - 1) + k;
    }
  }

  /** Counting year by year agrees with the closed form, for every year. */
  lemma {:induction false} DaysBeforeYearClosedForm(y: int)
    ensures DaysBeforeYear(y) == LeapDaysFormula(y)
    decreases if y >= 1 then y - 1 else 1 - y
  {
    if y > 1 {
      DaysBeforeYearClosedForm(y - 1);
      LeapDaysFormulaStep(y - 1);
    } else if y < 1 {
      DaysBeforeYearClosedForm(y + 1);
      LeapDaysFormulaStep(y);
    }
  }

  /** Months are laid end to end: the next month starts where this one ends. */
  lemma MonthStartNext(y: int, m: int)
    requires 1 <= m <= 12
    ensures MonthStart(NextMonth(y, m).0, NextMonth(y, m).1) == MonthStart(y, m) + DaysInMonth(y, m)
  {
    if m == 12 {
      YearStep(y);
      MonthsFillYear(y, 12);
    }
  }

  /**
   * Go's day normalisation: the valid date that lies `d - 1` days after the
   * first of month `m` of year `y`, for any `d` (zero, negative or past the
   * end of the month).
   */
  function Normalize(y: int, m: int, d: int): (r: Date)
    requires 1 <= m <= 12
    ensures ValidDate(r)
    ensures Serial(r) == MonthStart(y, m) + d - 1
    decreases if d < 1 then 1 - d else 0, if d > 0 then d else 0
  {
    if d < 1 then
      var (py, pm) := PrevMonth(y, m);
      MonthStartNext(py, pm);
      Normalize(py, pm, d + DaysInMonth(py, pm))
    else if d > DaysInMonth(y, m) then
      var (ny, nm) := NextMonth(y, m);
      MonthStartNext(y, m);
      Normalize(ny, nm, d - DaysInMonth(y, m))
    else
      Date(y, m, d)
  }

  /** Go's month normalisation (`norm(year, month-1, 12)`): floor division into the year. */
  function NormMonth(y: int, m: int): (r: (int, int))
    ensures 1 <= r.1 <= 12
    ensures 12 * r.0 + r.1 == 12 * y + m
  {
    (y + (m - 1) / 12, (m - 1) % 12 + 1)
  }

  /** `time.Date(y, m, d, ...)` with its documented normalisation of month and day. */
  function DateOf(y: int, m: int, d: int): (r: Date)
    ensures ValidDate(r)
    ensures Serial(r) == MonthStart(NormMonth(y, m).0, NormMonth(y, m).1) + d - 1
  {
    var (ny, nm) := NormMonth(y, m);
    Normalize(ny, nm, d)
  }

  /** `t.AddDate(years, months, days)`: add to each field, then normalise. */
  function AddDate(t: Date, years: int, months: int, days: int): (r: Date)
    ensures ValidDate(r)
    ensures Serial(r) == MonthStart(NormMonth(t.year + years, t.month + months).0,
                                    NormMonth(t.year + years, t.month + months).1) + t.day + days - 1
  {
    DateOf(t.year + years, t.month + months, t.day + days)
  }

  /** The date `n` days after `t` (before it when `n` is negative). */
  function AddDays(t: Date, n: int): (r: Date)
    requires ValidDate(t)
    ensures ValidDate(r)
    ensures Serial(r) == Serial(t) + n
  {
    Normalize(t.year, t.month, t.day + n)
  }

  /** The serial of a date lies inside its month. */
  lemma SerialInMonth(d: Date)
    requires ValidDate(d)
    ensures MonthStart(d.year, d.month) <= Serial(d) < MonthStart(d.year, d.month) + DaysInMonth(d.year, d.month)
  {
  }

  /** The twelve months fill the year exactly. */
  lemma MonthsFillYear(y: int, m: int)
    requires 1 <= m <= 12
    ensures DaysBeforeMonth(y, m) + DaysInMonth(y, m) <= YearLength(y)
    ensures m == 12 ==> DaysBeforeMonth(y, m) + DaysInMonth(y, m) == YearLength(y)
  {
    DaysBeforeMonthTable(y, m);
  }

  lemma {:induction false} DaysBeforeYearMonotone(a: int, b: int)
    requires a <= b
    ensures DaysBeforeYear(a) <= DaysBeforeYear(b)
    ensures a < b ==> DaysBeforeYear(a) + 365 <= DaysBeforeYear(b)
    decreases b - a
  {
    if a < b {
      YearStep(a);
      DaysBeforeYearMonotone(a + 1, b);
    }
  }

  /** The serial of a date lies inside its year. */
  lemma SerialInYear(d: Date)
    requires ValidDate(d)
    ensures DaysBeforeYear(d.year) <= Serial(d) < DaysBeforeYear(d.year + 1)
  {
    MonthsFillYear(d.year, d.month);
    YearStep(d.year);
  }

  /** A serial that falls between the bounds of year `y` belongs to a date of year `y`. */
  lemma YearOfSerial(d: Date, y: int)
    requires ValidDate(d)
    requires DaysBeforeYear(y) <= Serial(d) < DaysBeforeYear(y + 1)
    ensures d.year == y
  {
    SerialInYear(d);
    if d.year < y {
      DaysBeforeYearMonotone(d.year + 1, y);
    } else if d.year > y {
      DaysBeforeYearMonotone(y + 1, d.year);
    }
  }

  /** Within a year, each month begins after the previous months have ended. */
  lemma MonthsOrdered(y: int, m1: int, m2: int)
    requires 1 <= m1 < m2 <= 12
    ensures DaysBeforeMonth(y, m1) + DaysInMonth(y, m1) <= DaysBeforeMonth(y, m2)
  {
    DaysBeforeMonthTable(y, m1);
    DaysBeforeMonthTable(y, m2);
  }

  /** The day serial is one-to-one on valid dates. */
  lemma SerialInjective(a: Date, b: Date)
    requires ValidDate(a) && ValidDate(b)
    requires Serial(a) == Serial(b)
    ensures a == b
  {
    SerialInYear(a);
    YearOfSerial(b, a.year);
    if a.month < b.month {
      MonthsOrdered(a.year, a.month, b.month);
    } else if b.month < a.month {
      MonthsOrdered(a.year, b.month, a.month);
    }
  }

  /** The date with a given serial: the inverse of `Serial`. */
  function FromSerial(n: int): (r: Date)
    ensures ValidDate(r)
    ensures Serial(r) == n
  {
    AddDays(Date(1, 1, 1), n)
  }

  lemma SerialRoundTrip(d: Date)
    requires ValidDate(d)
    ensures FromSerial(Serial(d)) == d
  {
    SerialInjective(FromSerial(Serial(d)), d);
  }

  /** `t.AddDate(0, 0, n)` on a valid date is the shift by `n` days. */
  lemma AddDateDays(t: Date, n: int)
    requires ValidDate(t)
    ensures AddDate(t, 0, 0, n) == AddDays(t, n)
  {
    assert NormMonth(t.year, t.month) == (t.year, t.month);
    SerialInjective(AddDate(t, 0, 0, n), AddDays(t, n));
  }

  /** `time.Date` on the fields of a valid date gives that date back (Go's truncation to midnight). */
  lemma DateOfValid(d: Date)
    requires ValidDate(d)
    ensures DateOf(d.year, d.month, d.day) == d
  {
    assert NormMonth(d.year, d.month) == (d.year, d.month);
  }

  /** One month forward, then one day back, from the first of a month lands on its last day. */
  lemma LastDayOfMonth(y: int, m: int)
    requires 1 <= m <= 12
    ensures AddDate(Date(y, m, 1), 0, 1, -1) == Date(y, m, DaysInMonth(y, m))
  {
    assert NormMonth(y, m + 1) == NextMonth(y, m);
    MonthStartNext(y, m);
    SerialInjective(AddDate(Date(y, m, 1), 0, 1, -1), Date(y, m, DaysInMonth(y, m)));
  }

  /** `t.AddDate(0, -1, 0)` keeps the day number and starts counting it from the previous month. */
  lemma MonthBack(t: Date)
    requires ValidDate(t)
    ensures Serial(AddDate(t, 0, -1, 0)) == MonthStart(PrevMonth(t.year, t.month).0, PrevMonth(t.year, t.month).1) + t.day - 1
  {
    assert NormMonth(t.year, t.month - 1) == PrevMonth(t.year, t.month);
  }

  /** Two shifts by days compose. */
  lemma AddDaysAdd(t: Date, a: int, b: int)
    requires ValidDate(t)
    ensures AddDays(AddDays(t, a), b) == AddDays(t, a + b)
  {
    SerialInjective(AddDays(AddDays(t, a), b), AddDays(t, a + b));
  }

  /** A date is recognised by its serial. */
  lemma AddDaysIs(t: Date, n: int, r: Date)
    requires ValidDate(t) && ValidDate(r)
    requires Serial(r) == Serial(t) + n
    ensures AddDays(t, n) == r
  {
    SerialInjective(AddDays(t, n), r);
  }

  /** The weekday of the day with serial `s`: 0001-01-01 (serial 0) was a Monday. */
  function WeekdayOfSerial(s: int): (w: int)
    ensures 0 <= w < 7
  {
    (s + 1) % 7
  }

  /** `time.Weekday`: Sunday = 0, Monday = 1, ..., Saturday = 6. */
  function Weekday(d: Date): (w: int)
    requires 1 <= d.month <= 12
    ensures 0 <= w < 7
  {
    WeekdayOfSerial(Serial(d))
  }

  const Sunday := 0
  const Monday := 1
  const Thursday := 4

  /** The numbering matches the real calendar: 7 January 2024 was a Sunday. */
  lemma January7th2024IsSunday()
    ensures Weekday(Date(2024, 1, 7)) == Sunday
  {
    DaysBeforeYearClosedForm(2024);
  }

  /** Moving `n` days moves the weekday `n` places round the week. */
  lemma WeekdayOfSerialShift(s: int, n: int, s2: int)
    requires s2 == s + n
    ensures WeekdayOfSerial(s2) == (WeekdayOfSerial(s) + n) % 7
  {
    var q := (s + 1) / 7;
    assert s + 1 == 7 * q + WeekdayOfSerial(s);
    assert s2 + 1 == 7 * q + (WeekdayOfSerial(s) + n);
  }

  lemma WeekdayAddDays(t: Date, n: int)
    requires ValidDate(t)
    ensures Weekday(AddDays(t, n)) == (Weekday(t) + n) % 7
  {
    WeekdayOfSerialShift(Serial(t), n, Serial(AddDays(t, n)));
  }

  /** Dates a whole week apart fall on the same weekday. */
  lemma WeekApartSameWeekday(a: Date, b: Date)
    requires 1 <= a.month <= 12 && 1 <= b.month <= 12
    requires Serial(b) == Serial(a) - 7
    ensures Weekday(b) == Weekday(a)
  {
    var q := (Serial(a) + 1) / 7;
    assert Serial(a) + 1 == 7 * q + Weekday(a);
    assert Serial(b) + 1 == 7 * (q - 1) + Weekday(a);
  }

  /** Days elapsed since the Monday of the ISO week: six on a Sunday, `w - 1` on weekday `w` otherwise. */
  function DaysSinceMonday(w: int): (back: int)
    requires 0 <= w < 7
    ensures 0 <= back <= 6
  {
    if w == Sunday then 6 else w - 1
  }

  lemma BackToMonday(s: int, s2: int)
    requires s2 == s - DaysSinceMonday(WeekdayOfSerial(s))
    ensures WeekdayOfSerial(s2) == Monday
  {
    WeekdayOfSerialShift(s, -DaysSinceMonday(WeekdayOfSerial(s)), s2);
  }

  lemma MondayToThursday(s: int, s2: int)
    requires WeekdayOfSerial(s) == Monday && s2 == s + 3
    ensures WeekdayOfSerial(s2) == Thursday
  {
    WeekdayOfSerialShift(s, 3, s2);
  }

  /** Two days on the same weekday are a whole number of weeks apart. */
  lemma SameWeekdayOfSerial(s: int, s2: int) returns (weeks: int)
    requires WeekdayOfSerial(s) == WeekdayOfSerial(s2)
    ensures s2 - s == 7 * weeks
  {
    var q, q2 := (s + 1) / 7, (s2 + 1) / 7;
    weeks := q2 - q;
  }

  /** Zero-based day of the year (January 1 is 0), Go's `yday`. */
  function DayOfYear(d: Date): (k: int)
    requires ValidDate(d)
    ensures 0 <= k < YearLength(d.year)
    ensures Serial(d) == DaysBeforeYear(d.year) + k
  {
    SerialInYear(d);
    YearStep(d.year);
    DaysBeforeMonth(d.year, d.month) + d.day - 1
  }

  /**
   * `t.ISOWeek()` as Go computes it: move to the Thursday of the Monday-to-Sunday
   * week (a Sunday moves back three days), take that Thursday's year, and number
   * the week by the Thursday's day of the year.
   */
  function ISOWeek(t: Date): (r: IsoWeek)
    requires ValidDate(t)
    ensures 1 <= r.week <= 53
  {
    var d := Thursday - Weekday(t);
    var shift := if d == 4 then -3 else d;
    var thursday := AddDays(t, shift);
    IsoWeek(thursday.year, DayOfYear(thursday) / 7 + 1)
  }

  /** The Monday that starts the ISO week of `t`. */
  function MondayOf(t: Date): (r: Date)
    requires ValidDate(t)
    ensures ValidDate(r) && Weekday(r) == Monday
    ensures 0 <= Serial(t) - Serial(r) <= 6
  {
    var r := AddDays(t, -DaysSinceMonday(Weekday(t)));
    BackToMonday(Serial(t), Serial(r));
    r
  }

  /** The Thursday of the ISO week of `t`. */
  function ThursdayOf(t: Date): (r: Date)
    requires ValidDate(t)
    ensures ValidDate(r) && Weekday(r) == Thursday
    ensures Serial(r) == Serial(MondayOf(t)) + 3
    ensures -3 <= Serial(r) - Serial(t) <= 3
  {
    var m := MondayOf(t);
    var r := AddDays(m, 3);
    MondayToThursday(Serial(m), Serial(r));
    r
  }

  /** Go's shift to the Thursday lands on the Thursday of the ISO week. */
  lemma ISOWeekUsesThursday(t: Date)
    requires ValidDate(t)
    ensures ISOWeek(t) == IsoWeek(ThursdayOf(t).year, DayOfYear(ThursdayOf(t)) / 7 + 1)
  {
    var w := Weekday(t);
    var d := Thursday - w;
    var shift := if d == 4 then -3 else d;
    assert Serial(ThursdayOf(t)) == Serial(t) - DaysSinceMonday(w) + 3;
    AddDaysIs(t, shift, ThursdayOf(t));
  }

  /** Dates of the same Monday-to-Sunday week have the same ISO week. */
  lemma SameWeekSameISOWeek(a: Date, b: Date)
    requires ValidDate(a) && ValidDate(b)
    requires MondayOf(a) == MondayOf(b)
    ensures ISOWeek(a) == ISOWeek(b)
  {
    ISOWeekUsesThursday(a);
    ISOWeekUsesThursday(b);
  }

  /**
   * The ISO 8601 week-date rule (section 4.1.4 of ISO 8601:2004), stated
   * independently of Go's computation: a week belongs to the year of its
   * Thursday, week 1 is the week that contains January 4, and later weeks are
   * counted in Mondays from week 1's Monday.
   */
  function IsoWeekReference(t: Date): IsoWeek
    requires ValidDate(t)
  {
    IsoWeek(ThursdayOf(t).year, WeeksBetween(Week1Monday(ThursdayOf(t).year), MondayOf(t)) + 1)
  }

  /** The Monday of ISO week 1 of year `y`: the Monday of the week that contains January 4. */
  function Week1Monday(y: int): Date {
    MondayOf(Date(y, 1, 4))
  }

  /** Whole weeks from `a` to `b`, rounded down. */
  function WeeksBetween(a: Date, b: Date): int
    requires 1 <= a.month <= 12 && 1 <= b.month <= 12
  {
    (Serial(b) - Serial(a)) / 7
  }

  /** The Thursday of the week containing January 4 lies in January 1..7. */
  lemma Week1Thursday(y: int)
    ensures ThursdayOf(Date(y, 1, 4)).year == y
    ensures 0 <= DayOfYear(ThursdayOf(Date(y, 1, 4))) <= 6
  {
    var j := Date(y, 1, 4);
    var th := ThursdayOf(j);
    var k := Serial(th) - Serial(j);
    SerialInjective(th, Date(y, 1, 4 + k));
  }

  /** Go's `ISOWeek` agrees with the ISO 8601 reference definition on every date. */
  lemma ISOWeekIsISO8601(t: Date)
    requires ValidDate(t)
    ensures ISOWeek(t) == IsoWeekReference(t)
  {
    ISOWeekUsesThursday(t);
    ThursdayWeekOfYear(t);
  }

  /** The Thursday's day of the year, in whole weeks, counts the Mondays since week 1's Monday. */
  lemma ThursdayWeekOfYear(t: Date)
    requires ValidDate(t)
    ensures DayOfYear(ThursdayOf(t)) / 7 == WeeksBetween(Week1Monday(ThursdayOf(t).year), MondayOf(t))
  {
    var th := ThursdayOf(t);
    var y := th.year;
    Week1Thursday(y);
    var th1 := ThursdayOf(Date(y, 1, 4));
    var weeks := SameWeekdayOfSerial(Serial(th1), Serial(th));
    WeekNumber(th, th1, MondayOf(t), Week1Monday(y), weeks);
  }

  /**
   * A Thursday `weeks` whole weeks after the Thursday `th1` of week 1, in the
   * same year, is in the week whose Monday is counted from week 1's Monday.
   */
  lemma WeekNumber(th: Date, th1: Date, m: Date, m1: Date, weeks: int)
    requires ValidDate(th) && ValidDate(th1) && ValidDate(m) && ValidDate(m1)
    requires th.year == th1.year && 0 <= DayOfYear(th1) <= 6
    requires Serial(th) - Serial(th1) == 7 * weeks
    requires Serial(m) == Serial(th) - 3 && Serial(m1) == Serial(th1) - 3
    ensures DayOfYear(th) / 7 == WeeksBetween(m1, m)
  {
    assert DayOfYear(th) == DayOfYear(th1) + 7 * weeks;
  }

  /** January 4 is always in week 1 of its own year. */
  lemma January4InWeek1(y: int)
    ensures ISOWeek(Date(y, 1, 4)) == IsoWeek(y, 1)
  {
    ISOWeekUsesThursday(Date(y, 1, 4));
    Week1Thursday(y);
  }

  /** SQL `DATE` comparison: lexicographic on (year, month, day). */
  predicate DateLe(a: Date, b: Date) {
    a.year < b.year || (a.year == b.year && (a.month < b.month || (a.month == b.month && a.day <= b.day)))
  }

  /** On valid dates, the lexicographic order is the order of serials. */
  lemma DateLeIsSerialOrder(a: Date, b: Date)
    requires ValidDate(a) && ValidDate(b)
    ensures DateLe(a, b) <==> Serial(a) <= Serial(b)
  {
    SerialInYear(a);
    SerialInYear(b);
    if a.year < b.year {
      DaysBeforeYearMonotone(a.year + 1, b.year);
    } else if b.year < a.year {
      DaysBeforeYearMonotone(b.year + 1, a.year);
    } else if a.month < b.month {
      MonthsOrdered(a.year, a.month, b.month);
    } else if b.month < a.month {
      MonthsOrdered(a.year, b.month, a.month);
    }
  }
}
