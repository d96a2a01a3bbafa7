/**
 * The four summary tables, each a map from its natural key to its row, and
 * what one roll-up does to a table: the `INSERT ... ON DUPLICATE KEY UPDATE`
 * of the rounded aggregates, or nothing when the window holds no readings.
 */
module Summaries {
  import opened Calendar
  import opened Windows
  import opened Rounding
  import opened Aggregate

  /** Natural keys of `weather_weekly` and `weather_monthly`. */
  datatype WeekKey = WeekKey(year: int, week: int)
  datatype MonthKey = MonthKey(year: int, month: int)

  /** A `weather_hourly` row: averages only, in tenths. */
  datatype HourlyRow = HourlyRow(avgTemperature: int, avgPressure: int, avgHumidity: int, samples: nat)

  /** Rounded `AVG`, `MIN` and `MAX` of one metric, in tenths. */
  datatype Stats = Stats(avg: int, min: int, max: int)

  /** A `weather_daily` row; `seaTemperature` is maintained elsewhere and never written here. */
  datatype DailyRow = DailyRow(temperature: Stats, pressure: Stats, humidity: Stats, samples: nat,
                               seaTemperature: Option<int>)

  datatype WeeklyRow = WeeklyRow(weekStart: Date, weekEnd: Date,
                                 temperature: Stats, pressure: Stats, humidity: Stats, samples: nat)

  datatype MonthlyRow = MonthlyRow(temperature: Stats, pressure: Stats, humidity: Stats, samples: nat)

  /**
   * The three `math.Round(x*10)/10` steps for one metric. The minimum and
   * maximum are already whole tenths, so rounding them again changes nothing,
   * and the rounded average stays between them.
   */
  function RoundStats(a: MetricAgg): (s: Stats)
    ensures s.min == a.min && s.max == a.max
    ensures a.min as real <= a.avg <= a.max as real ==> s.min <= s.avg <= s.max
    ensures s.avg == RoundHalfAway(a.avg)
  {
    RoundOfInteger(a.min);
    RoundOfInteger(a.max);
    RoundedMeanBetween(a);
    Stats(RoundHalfAway(a.avg), RoundHalfAway(a.min as real), RoundHalfAway(a.max as real))
  }

  /** A mean between its minimum and maximum still lies between them once rounded. */
  lemma RoundedMeanBetween(a: MetricAgg)
    ensures a.min as real <= a.avg <= a.max as real ==> a.min <= RoundHalfAway(a.avg) <= a.max
  {
    if a.min as real <= a.avg <= a.max as real {
      RoundBetween(a.min, a.avg, a.max);
    }
  }

  // ------------------------------------------------------ roll-up specifications

  /** The hourly roll-up for key `k`: nothing when the hour has no readings, else the upserted row. */
  function HourlyRollup(rs: seq<Reading>, k: HourKey, table: map<HourKey, HourlyRow>): (t: map<HourKey, HourlyRow>)
    ensures table.Keys <= t.Keys <= table.Keys + {k}
    ensures k in t <==> k in table || exists r :: r in rs && InWindow(HourOf(k), r)
  {
    match Query(rs, HourOf(k))
    case None => table
    case Some(q) =>
      table[k := HourlyRow(RoundHalfAway(q.temperature.avg), RoundHalfAway(q.pressure.avg),
                           RoundHalfAway(q.humidity.avg), q.samples)]
  }

  /** The daily roll-up for `date`; an existing row keeps its sea temperature, a new one has none. */
  function DailyRollup(rs: seq<Reading>, date: Date, table: map<Date, DailyRow>): (t: map<Date, DailyRow>)
    ensures table.Keys <= t.Keys <= table.Keys + {date}
    ensures date in t <==> date in table || exists r :: r in rs && InWindow(DayOf(date), r)
  {
    match Query(rs, DayOf(date))
    case None => table
    case Some(q) =>
      table[date := DailyRow(RoundStats(q.temperature), RoundStats(q.pressure), RoundStats(q.humidity), q.samples,
                             if date in table then table[date].seaTemperature else None)]
  }

  /** The weekly roll-up for window `w`; the row's `week_start` and `week_end` are overwritten too. */
  function WeeklyRollup(rs: seq<Reading>, w: WeekWindow, table: map<WeekKey, WeeklyRow>): (t: map<WeekKey, WeeklyRow>)
    ensures table.Keys <= t.Keys <= table.Keys + {WeekKey(w.year, w.week)}
    ensures WeekKey(w.year, w.week) in t <==>
              WeekKey(w.year, w.week) in table || exists r :: r in rs && InWindow(DateRange(w.start, w.end), r)
  {
    match Query(rs, DateRange(w.start, w.end))
    case None => table
    case Some(q) =>
      table[WeekKey(w.year, w.week) := WeeklyRow(w.start, w.end, RoundStats(q.temperature), RoundStats(q.pressure),
                                                 RoundStats(q.humidity), q.samples)]
  }

  /** The monthly roll-up for window `w`. */
  function MonthlyRollup(rs: seq<Reading>, w: MonthWindow, table: map<MonthKey, MonthlyRow>): (t: map<MonthKey, MonthlyRow>)
    ensures table.Keys <= t.Keys <= table.Keys + {MonthKey(w.year, w.month)}
    ensures MonthKey(w.year, w.month) in t <==>
              MonthKey(w.year, w.month) in table || exists r :: r in rs && InWindow(DateRange(w.first, w.last), r)
  {
    match Query(rs, DateRange(w.first, w.last))
    case None => table
    case Some(q) =>
      table[MonthKey(w.year, w.month) := MonthlyRow(RoundStats(q.temperature), RoundStats(q.pressure),
                                                    RoundStats(q.humidity), q.samples)]
  }

  // ----------------------------------------------------- roll-up properties

  /** An hourly row holds the rounded means of the stored tenths of its hour and the count of readings. */
  lemma HourlyRowContents(rs: seq<Reading>, k: HourKey, table: map<HourKey, HourlyRow>)
    requires exists r :: r in rs && InWindow(HourOf(k), r)
    ensures k in HourlyRollup(rs, k, table)
    ensures var row := HourlyRollup(rs, k, table)[k];
            var s := Select(rs, HourOf(k));
            row.samples == |s| > 0
            && row.avgTemperature == RoundHalfAway(Sum(s, Temperature) as real / |s| as real)
            && row.avgPressure == RoundHalfAway(Sum(s, Pressure) as real / |s| as real)
            && row.avgHumidity == RoundHalfAway(Sum(s, Humidity) as real / |s| as real)
  {
  }

  /** Re-running a roll-up on unchanged readings leaves the table as the first run left it. */
  lemma HourlyRollupIdempotent(rs: seq<Reading>, k: HourKey, table: map<HourKey, HourlyRow>)
    ensures HourlyRollup(rs, k, HourlyRollup(rs, k, table)) == HourlyRollup(rs, k, table)
  {
  }

  lemma DailyRollupIdempotent(rs: seq<Reading>, d: Date, table: map<Date, DailyRow>)
    ensures DailyRollup(rs, d, DailyRollup(rs, d, table)) == DailyRollup(rs, d, table)
  {
  }

  lemma WeeklyRollupIdempotent(rs: seq<Reading>, w: WeekWindow, table: map<WeekKey, WeeklyRow>)
    ensures WeeklyRollup(rs, w, WeeklyRollup(rs, w, table)) == WeeklyRollup(rs, w, table)
  {
  }

  lemma MonthlyRollupIdempotent(rs: seq<Reading>, w: MonthWindow, table: map<MonthKey, MonthlyRow>)
    ensures MonthlyRollup(rs, w, MonthlyRollup(rs, w, table)) == MonthlyRollup(rs, w, table)
  {
  }

  /** An empty window writes nothing: every existing row, including the one under the key, is left alone. */
  lemma HourlyEmptyWindow(rs: seq<Reading>, k: HourKey, table: map<HourKey, HourlyRow>)
    requires forall r :: r in rs ==> !InWindow(HourOf(k), r)
    ensures HourlyRollup(rs, k, table) == table
  {
  }

  lemma DailyEmptyWindow(rs: seq<Reading>, d: Date, table: map<Date, DailyRow>)
    requires forall r :: r in rs ==> !InWindow(DayOf(d), r)
    ensures DailyRollup(rs, d, table) == table
  {
  }

  lemma WeeklyEmptyWindow(rs: seq<Reading>, w: WeekWindow, table: map<WeekKey, WeeklyRow>)
    requires forall r :: r in rs ==> !InWindow(DateRange(w.start, w.end), r)
    ensures WeeklyRollup(rs, w, table) == table
  {
  }

  lemma MonthlyEmptyWindow(rs: seq<Reading>, w: MonthWindow, table: map<MonthKey, MonthlyRow>)
    requires forall r :: r in rs ==> !InWindow(DateRange(w.first, w.last), r)
    ensures MonthlyRollup(rs, w, table) == table
  {
  }

  /** A roll-up touches its own key only: no row disappears and every other row is unchanged. */
  lemma HourlyTouchesOneKey(rs: seq<Reading>, k: HourKey, table: map<HourKey, HourlyRow>)
    ensures HourlyRollup(rs, k, table).Keys == table.Keys + (if Query(rs, HourOf(k)).Some? then {k} else {})
    ensures forall k2 :: k2 in table && k2 != k ==> HourlyRollup(rs, k, table)[k2] == table[k2]
  {
  }

  lemma DailyTouchesOneKey(rs: seq<Reading>, d: Date, table: map<Date, DailyRow>)
    ensures DailyRollup(rs, d, table).Keys == table.Keys + (if Query(rs, DayOf(d)).Some? then {d} else {})
    ensures forall d2 :: d2 in table && d2 != d ==> DailyRollup(rs, d, table)[d2] == table[d2]
  {
  }

  lemma WeeklyTouchesOneKey(rs: seq<Reading>, w: WeekWindow, table: map<WeekKey, WeeklyRow>)
    ensures WeeklyRollup(rs, w, table).Keys
            == table.Keys + (if Query(rs, DateRange(w.start, w.end)).Some? then {WeekKey(w.year, w.week)} else {})
    ensures forall k2 :: k2 in table && k2 != WeekKey(w.year, w.week) ==> WeeklyRollup(rs, w, table)[k2] == table[k2]
  {
  }

  lemma MonthlyTouchesOneKey(rs: seq<Reading>, w: MonthWindow, table: map<MonthKey, MonthlyRow>)
    ensures MonthlyRollup(rs, w, table).Keys
            == table.Keys + (if Query(rs, DateRange(w.first, w.last)).Some? then {MonthKey(w.year, w.month)} else {})
    ensures forall k2 :: k2 in table && k2 != MonthKey(w.year, w.month) ==> MonthlyRollup(rs, w, table)[k2] == table[k2]
  {
  }

  /** The daily roll-up never changes `sea_temperature`, and a row it creates has none. */
  lemma DailyKeepsSeaTemperature(rs: seq<Reading>, d: Date, table: map<Date, DailyRow>)
    ensures forall d2 :: d2 in table ==> DailyRollup(rs, d, table)[d2].seaTemperature == table[d2].seaTemperature
    ensures d !in table && d in DailyRollup(rs, d, table) ==> DailyRollup(rs, d, table)[d].seaTemperature == None
  {
  }

  /** A daily row's statistics are the rounded aggregates of that day's readings; min and max are exact. */
  lemma DailyRowContents(rs: seq<Reading>, d: Date, table: map<Date, DailyRow>)
    requires exists r :: r in rs && InWindow(DayOf(d), r)
    ensures d in DailyRollup(rs, d, table)
    ensures var row := DailyRollup(rs, d, table)[d];
            var s := Select(rs, DayOf(d));
            row.samples == |s| > 0
            && row.temperature == Stats(RoundHalfAway(Sum(s, Temperature) as real / |s| as real),
                                        Min(s, Temperature), Max(s, Temperature))
            && row.pressure == Stats(RoundHalfAway(Sum(s, Pressure) as real / |s| as real),
                                     Min(s, Pressure), Max(s, Pressure))
            && row.humidity == Stats(RoundHalfAway(Sum(s, Humidity) as real / |s| as real),
                                     Min(s, Humidity), Max(s, Humidity))
            && row.temperature.min <= row.temperature.avg <= row.temperature.max
  {
  }

  /** A weekly row records the window's Monday and Sunday and the rounded aggregates of the readings between them. */
  lemma WeeklyRowContents(rs: seq<Reading>, w: WeekWindow, table: map<WeekKey, WeeklyRow>)
    requires exists r :: r in rs && InWindow(DateRange(w.start, w.end), r)
    ensures WeekKey(w.year, w.week) in WeeklyRollup(rs, w, table)
    ensures var row := WeeklyRollup(rs, w, table)[WeekKey(w.year, w.week)];
            var s := Select(rs, DateRange(w.start, w.end));
            row.weekStart == w.start && row.weekEnd == w.end
            && row.samples == |s| > 0
            && row.temperature == Stats(RoundHalfAway(Sum(s, Temperature) as real / |s| as real),
                                        Min(s, Temperature), Max(s, Temperature))
            && row.pressure == Stats(RoundHalfAway(Sum(s, Pressure) as real / |s| as real),
                                     Min(s, Pressure), Max(s, Pressure))
            && row.humidity == Stats(RoundHalfAway(Sum(s, Humidity) as real / |s| as real),
                                     Min(s, Humidity), Max(s, Humidity))
  {
  }

  /** A monthly row holds the rounded aggregates of the readings from the window's first to its last day. */
  lemma MonthlyRowContents(rs: seq<Reading>, w: MonthWindow, table: map<MonthKey, MonthlyRow>)
    requires exists r :: r in rs && InWindow(DateRange(w.first, w.last), r)
    ensures MonthKey(w.year, w.month) in MonthlyRollup(rs, w, table)
    ensures var row := MonthlyRollup(rs, w, table)[MonthKey(w.year, w.month)];
            var s := Select(rs, DateRange(w.first, w.last));
            row.samples == |s| > 0
            && row.temperature == Stats(RoundHalfAway(Sum(s, Temperature) as real / |s| as real),
                                        Min(s, Temperature), Max(s, Temperature))
            && row.pressure == Stats(RoundHalfAway(Sum(s, Pressure) as real / |s| as real),
                                     Min(s, Pressure), Max(s, Pressure))
            && row.humidity == Stats(RoundHalfAway(Sum(s, Humidity) as real / |s| as real),
                                     Min(s, Humidity), Max(s, Humidity))
  {
  }

  // ---------------------------------------------------------- table invariants

  /** A week's dates fit its key: Monday to Sunday of the ISO week the key names. */
  predicate WeekFits(k: WeekKey, start: Date, end: Date) {
    ValidDate(start) && ValidDate(end)
    && Weekday(start) == Monday
    && Serial(end) == Serial(start) + 6
    && ISOWeek(start) == IsoWeek(k.year, k.week)
  }

  /** The weekly window always fits the key it is stored under. */
  lemma WeeklyWindowFits(now: Date)
    requires ValidDate(now)
    ensures WeekFits(WeekKey(WeeklyWindow(now).year, WeeklyWindow(now).week), WeeklyWindow(now).start, WeeklyWindow(now).end)
  {
    WeeklyStart(now);
    WeeklyEnd(now);
    WeeklyIsoWeek(now);
  }

  /** Every row counts at least one and at most all stored readings, under a key that names a real period. */
  predicate HourlyTableValid(rs: seq<Reading>, table: map<HourKey, HourlyRow>) {
    forall k :: k in table ==> ValidDate(k.date) && 0 <= k.hour < 24 && 0 < table[k].samples <= |rs|
  }

  predicate DailyTableValid(rs: seq<Reading>, table: map<Date, DailyRow>) {
    forall d :: d in table ==> ValidDate(d) && 0 < table[d].samples <= |rs|
  }

  predicate WeeklyTableValid(rs: seq<Reading>, table: map<WeekKey, WeeklyRow>) {
    forall k :: k in table ==> WeekFits(k, table[k].weekStart, table[k].weekEnd) && 0 < table[k].samples <= |rs|
  }

  predicate MonthlyTableValid(rs: seq<Reading>, table: map<MonthKey, MonthlyRow>) {
    forall k :: k in table ==> 1 <= k.month <= 12 && 0 < table[k].samples <= |rs|
  }

  /** A roll-up keeps its table valid when its key names a real period. */
  lemma HourlyRollupKeepsValid(rs: seq<Reading>, k: HourKey, table: map<HourKey, HourlyRow>)
    requires ValidDate(k.date) && 0 <= k.hour < 24 && HourlyTableValid(rs, table)
    ensures HourlyTableValid(rs, HourlyRollup(rs, k, table))
  {
  }

  lemma DailyRollupKeepsValid(rs: seq<Reading>, d: Date, table: map<Date, DailyRow>)
    requires ValidDate(d) && DailyTableValid(rs, table)
    ensures DailyTableValid(rs, DailyRollup(rs, d, table))
  {
  }

  /** A weekly roll-up keeps every weekly row fitting its key when the window fits its own. */
  lemma WeeklyRollupKeepsValid(rs: seq<Reading>, w: WeekWindow, table: map<WeekKey, WeeklyRow>)
    requires WeekFits(WeekKey(w.year, w.week), w.start, w.end) && WeeklyTableValid(rs, table)
    ensures WeeklyTableValid(rs, WeeklyRollup(rs, w, table))
  {
    match Query(rs, DateRange(w.start, w.end))
    case None =>
    case Some(q) =>
      WeeklyRowKeepsValid(rs, table, WeekKey(w.year, w.week),
                          WeeklyRow(w.start, w.end, RoundStats(q.temperature), RoundStats(q.pressure),
                                    RoundStats(q.humidity), q.samples));
  }

  /** Writing one row that fits its key keeps the weekly table valid. */
  lemma WeeklyRowKeepsValid(rs: seq<Reading>, table: map<WeekKey, WeeklyRow>, key: WeekKey, row: WeeklyRow)
    requires WeeklyTableValid(rs, table)
    requires WeekFits(key, row.weekStart, row.weekEnd) && 0 < row.samples <= |rs|
    ensures WeeklyTableValid(rs, table[key := row])
  {
  }

  lemma MonthlyRollupKeepsValid(rs: seq<Reading>, w: MonthWindow, table: map<MonthKey, MonthlyRow>)
    requires 1 <= w.month <= 12 && MonthlyTableValid(rs, table)
    ensures MonthlyTableValid(rs, MonthlyRollup(rs, w, table))
  {
  }

  /** The invariant of the whole database: real reading times and four valid tables. */
  predicate TablesValid(rs: seq<Reading>, h: map<HourKey, HourlyRow>, dt: map<Date, DailyRow>,
                        wt: map<WeekKey, WeeklyRow>, mt: map<MonthKey, MonthlyRow>) {
    (forall r :: r in rs ==> ValidStamp(r.at))
    && HourlyTableValid(rs, h) && DailyTableValid(rs, dt) && WeeklyTableValid(rs, wt) && MonthlyTableValid(rs, mt)
  }

  /** Appending a reading at a real time keeps every table valid: counts only fall behind the table's growth. */
  lemma TablesValidAfterInsert(rs: seq<Reading>, r: Reading, h: map<HourKey, HourlyRow>, dt: map<Date, DailyRow>,
                               wt: map<WeekKey, WeeklyRow>, mt: map<MonthKey, MonthlyRow>)
    requires TablesValid(rs, h, dt, wt, mt) && ValidStamp(r.at)
    ensures TablesValid(rs + [r], h, dt, wt, mt)
  {
  }
}
