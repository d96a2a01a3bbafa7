/**
 * The database as the processor sees it, as one object: the `weather`
 * table of readings and the four summary tables, changed in place by the
 * ingestion step and by the four roll-up jobs.
 */
module Store {
  import opened Calendar
  import opened Windows
  import opened Rounding
  import opened Aggregate
  import opened Summaries

  datatype Granularity = Hourly | Daily | Weekly | Monthly

  /** The errors the processor reports. */
  datatype Error =
    | ReadFailed                      // failed to read JSON file
    | ParseFailed                     // failed to parse JSON
    | PingFailed                      // failed to ping database
    | InsertFailed                    // failed to insert data
    | AggregateFailed(g: Granularity) // the roll-up query failed other than with no rows
    | HourlyUpsertFailed              // failed to upsert hourly averages
    | ExecFailed                      // the driver's error from a daily, weekly or monthly upsert, unwrapped

  datatype Status = Ok | Err(error: Error)

  /** How the database answers a roll-up: normally, or with an error at the query or at the upsert. */
  datatype Fault = NoFault | QueryFault | WriteFault

  /** The decoded `weather.json`: the local time of the measurement and its three values. */
  datatype WeatherData = WeatherData(at: Stamp, temperature: real, pressure: real, humidity: real)

  /** What reading and decoding the file gave. */
  datatype Input = ReadFailure | ParseFailure | Decoded(data: WeatherData)

  /** The reading `processWeatherData` stores: each value rounded to one decimal. */
  function Ingested(data: WeatherData): (r: Reading)
    ensures r.at == data.at
    ensures -0.5 <= r.temperature as real - data.temperature * 10.0 <= 0.5
    ensures -0.5 <= r.pressure as real - data.pressure * 10.0 <= 0.5
    ensures -0.5 <= r.humidity as real - data.humidity * 10.0 <= 0.5
  {
    Reading(data.at, RoundTenths(data.temperature), RoundTenths(data.pressure), RoundTenths(data.humidity))
  }

  class WeatherStore {
    var readings: seq<Reading>
    var hourly: map<HourKey, HourlyRow>
    var daily: map<Date, DailyRow>
    var weekly: map<WeekKey, WeeklyRow>
    var monthly: map<MonthKey, MonthlyRow>

    /**
     * Readings carry real local times; every summary row counts at least one
     * and at most all stored readings; keys name real periods, and a weekly
     * row's dates are the Monday and Sunday of the ISO week in its key.
     */
    predicate Valid()
      reads this
    {
      TablesValid(readings, hourly, daily, weekly, monthly)
    }

    /** An empty database. */
    constructor ()
      ensures Valid()
      ensures readings == [] && hourly == map[] && daily == map[] && weekly == map[] && monthly == map[]
    {
      readings := [];
      hourly := map[];
      daily := map[];
      weekly := map[];
      monthly := map[];
    }

    /** `INSERT INTO weather`: the reading is appended; no summary changes. */
    method Insert(r: Reading)
      requires Valid() && ValidStamp(r.at)
      modifies this
      ensures Valid()
      ensures readings == old(readings) + [r]
      ensures hourly == old(hourly) && daily == old(daily) && weekly == old(weekly) && monthly == old(monthly)
    {
      TablesValidAfterInsert(readings, r, hourly, daily, weekly, monthly);
      readings := readings + [r];
    }

    /** `updateHourlyAverages` for the hour of `at`. */
    method UpdateHourlyAverages(at: Stamp, fault: Fault) returns (status: Status)
      requires Valid() && ValidStamp(at)
      modifies this
      ensures Valid()
      ensures readings == old(readings) && daily == old(daily) && weekly == old(weekly) && monthly == old(monthly)
      ensures fault == NoFault ==> status == Ok && hourly == HourlyRollup(readings, HourlyKey(at), old(hourly))
      ensures fault == QueryFault ==> status == Err(AggregateFailed(Hourly)) && hourly == old(hourly)
      ensures fault == WriteFault ==>
                hourly == old(hourly)
                && status == (if Query(readings, HourOf(HourlyKey(at))).Some? then Err(HourlyUpsertFailed) else Ok)
    {
      var key := HourlyKey(at);
      if fault == QueryFault {
        return Err(AggregateFailed(Hourly));
      }
      var q := Query(readings, HourOf(key));
      if q.None? {
        return Ok;
      }
      var avgTemperature := RoundHalfAway(q.value.temperature.avg);
      var avgPressure := RoundHalfAway(q.value.pressure.avg);
      var avgHumidity := RoundHalfAway(q.value.humidity.avg);
      if fault == WriteFault {
        return Err(HourlyUpsertFailed);
      }
      HourlyRollupKeepsValid(readings, key, hourly);
      hourly := hourly[key := HourlyRow(avgTemperature, avgPressure, avgHumidity, q.value.samples)];
      status := Ok;
    }

    /** `updateDailyStatistics` run on `now`: the statistics of the day before. */
    method UpdateDailyStatistics(now: Date, fault: Fault) returns (status: Status)
      requires Valid() && ValidDate(now)
      modifies this
      ensures Valid()
      ensures readings == old(readings) && hourly == old(hourly) && weekly == old(weekly) && monthly == old(monthly)
      ensures fault == NoFault ==> status == Ok && daily == DailyRollup(readings, DailyDate(now), old(daily))
      ensures fault == QueryFault ==> status == Err(AggregateFailed(Daily)) && daily == old(daily)
      ensures fault == WriteFault ==>
                daily == old(daily)
                && status == (if Query(readings, DayOf(DailyDate(now))).Some? then Err(ExecFailed) else Ok)
    {
      var yesterday := DailyDate(now);
      status := UpsertDay(yesterday, fault);
    }

    /** The daily query and upsert for one date; the row's sea temperature is left as it was. */
    method UpsertDay(day: Date, fault: Fault) returns (status: Status)
      requires Valid() && ValidDate(day)
      modifies this
      ensures Valid()
      ensures readings == old(readings) && hourly == old(hourly) && weekly == old(weekly) && monthly == old(monthly)
      ensures fault == NoFault ==> status == Ok && daily == DailyRollup(readings, day, old(daily))
      ensures fault == QueryFault ==> status == Err(AggregateFailed(Daily)) && daily == old(daily)
      ensures fault == WriteFault ==>
                daily == old(daily)
                && status == (if Query(readings, DayOf(day)).Some? then Err(ExecFailed) else Ok)
    {
      if fault == QueryFault {
        return Err(AggregateFailed(Daily));
      }
      var q := Query(readings, DayOf(day));
      if q.None? {
        return Ok;
      }
      var temperature := RoundStats(q.value.temperature);
      var pressure := RoundStats(q.value.pressure);
      var humidity := RoundStats(q.value.humidity);
      if fault == WriteFault {
        return Err(ExecFailed);
      }
      var sea := if day in daily then daily[day].seaTemperature else None;
      DailyRollupKeepsValid(readings, day, daily);
      daily := daily[day := DailyRow(temperature, pressure, humidity, q.value.samples, sea)];
      status := Ok;
    }

    /** `updateWeeklyStatistics` run on `now`: the statistics of the previous ISO week. */
    method UpdateWeeklyStatistics(now: Date, fault: Fault) returns (status: Status)
      requires Valid() && ValidDate(now)
      modifies this
      ensures Valid()
      ensures readings == old(readings) && hourly == old(hourly) && daily == old(daily) && monthly == old(monthly)
      ensures fault == NoFault ==> status == Ok && weekly == WeeklyRollup(readings, WeeklyWindow(now), old(weekly))
      ensures fault == QueryFault ==> status == Err(AggregateFailed(Weekly)) && weekly == old(weekly)
      ensures fault == WriteFault ==>
                weekly == old(weekly)
                && status == (if Query(readings, DateRange(WeeklyWindow(now).start, WeeklyWindow(now).end)).Some?
                              then Err(ExecFailed) else Ok)
    {
      var w := WeeklyWindow(now);
      WeeklyWindowFits(now);
      status := UpsertWeek(w, fault);
    }

    /** The weekly query and upsert for one window whose dates fit its key. */
    method UpsertWeek(w: WeekWindow, fault: Fault) returns (status: Status)
      requires Valid() && WeekFits(WeekKey(w.year, w.week), w.start, w.end)
      modifies this
      ensures Valid()
      ensures readings == old(readings) && hourly == old(hourly) && daily == old(daily) && monthly == old(monthly)
      ensures fault == NoFault ==> status == Ok && weekly == WeeklyRollup(readings, w, old(weekly))
      ensures fault == QueryFault ==> status == Err(AggregateFailed(Weekly)) && weekly == old(weekly)
      ensures fault == WriteFault ==>
                weekly == old(weekly)
                && status == (if Query(readings, DateRange(w.start, w.end)).Some? then Err(ExecFailed) else Ok)
    {
      if fault == QueryFault {
        return Err(AggregateFailed(Weekly));
      }
      var q := Query(readings, DateRange(w.start, w.end));
      if q.None? {
        return Ok;
      }
      var temperature := RoundStats(q.value.temperature);
      var pressure := RoundStats(q.value.pressure);
      var humidity := RoundStats(q.value.humidity);
      if fault == WriteFault {
        return Err(ExecFailed);
      }
      WeeklyRollupKeepsValid(readings, w, weekly);
      weekly := weekly[WeekKey(w.year, w.week) := WeeklyRow(w.start, w.end, temperature, pressure, humidity,
                                                            q.value.samples)];
      status := Ok;
    }

    /** `updateMonthlyStatistics` run on `now`: the statistics of the month `AddDate(0, -1, 0)` lands in. */
    method UpdateMonthlyStatistics(now: Date, fault: Fault) returns (status: Status)
      requires Valid() && ValidDate(now)
      modifies this
      ensures Valid()
      ensures readings == old(readings) && hourly == old(hourly) && daily == old(daily) && weekly == old(weekly)
      ensures fault == NoFault ==> status == Ok && monthly == MonthlyRollup(readings, MonthlyWindow(now), old(monthly))
      ensures fault == QueryFault ==> status == Err(AggregateFailed(Monthly)) && monthly == old(monthly)
      ensures fault == WriteFault ==>
                monthly == old(monthly)
                && status == (if Query(readings, DateRange(MonthlyWindow(now).first, MonthlyWindow(now).last)).Some?
                              then Err(ExecFailed) else Ok)
    {
      var w := MonthlyWindow(now);
      MonthlyWholeMonth(now);
      status := UpsertMonth(w, fault);
    }

    /** The monthly query and upsert for one window of a real month. */
    method UpsertMonth(w: MonthWindow, fault: Fault) returns (status: Status)
      requires Valid() && 1 <= w.month <= 12
      modifies this
      ensures Valid()
      ensures readings == old(readings) && hourly == old(hourly) && daily == old(daily) && weekly == old(weekly)
      ensures fault == NoFault ==> status == Ok && monthly == MonthlyRollup(readings, w, old(monthly))
      ensures fault == QueryFault ==> status == Err(AggregateFailed(Monthly)) && monthly == old(monthly)
      ensures fault == WriteFault ==>
                monthly == old(monthly)
                && status == (if Query(readings, DateRange(w.first, w.last)).Some? then Err(ExecFailed) else Ok)
    {
      if fault == QueryFault {
        return Err(AggregateFailed(Monthly));
      }
      var q := Query(readings, DateRange(w.first, w.last));
      if q.None? {
        return Ok;
      }
      var temperature := RoundStats(q.value.temperature);
      var pressure := RoundStats(q.value.pressure);
      var humidity := RoundStats(q.value.humidity);
      if fault == WriteFault {
        return Err(ExecFailed);
      }
      MonthlyRollupKeepsValid(readings, w, monthly);
      monthly := monthly[MonthKey(w.year, w.month) := MonthlyRow(temperature, pressure, humidity, q.value.samples)];
      status := Ok;
    }

    /**
     * `processWeatherData`: round the decoded values to one decimal, check the
     * connection, insert the reading, then roll up its hour. A failure before
     * the insert stores nothing; a failed hourly roll-up is only a warning.
     */
    method ProcessWeatherData(input: Input, pingOk: bool, insertOk: bool, hourlyFault: Fault)
      returns (status: Status, warning: Option<Error>)
      requires Valid()
      requires input.Decoded? ==> ValidStamp(input.data.at)
      modifies this
      ensures Valid()
      ensures daily == old(daily) && weekly == old(weekly) && monthly == old(monthly)
      ensures input == ReadFailure ==> status == Err(ReadFailed)
      ensures input == ParseFailure ==> status == Err(ParseFailed)
      ensures input.Decoded? && !pingOk ==> status == Err(PingFailed)
      ensures input.Decoded? && pingOk && !insertOk ==> status == Err(InsertFailed)
      ensures status.Ok? <==> input.Decoded? && pingOk && insertOk
      ensures status.Err? ==> readings == old(readings) && hourly == old(hourly) && warning == None
      ensures status.Ok? ==> readings == old(readings) + [Ingested(input.data)]
      ensures status.Ok? && hourlyFault == NoFault ==>
                warning == None && hourly == HourlyRollup(readings, HourlyKey(input.data.at), old(hourly))
                && HourlyKey(input.data.at) in hourly
      ensures status.Ok? && hourlyFault == QueryFault ==>
                warning == Some(AggregateFailed(Hourly)) && hourly == old(hourly)
      ensures status.Ok? && hourlyFault == WriteFault ==>
                warning == Some(HourlyUpsertFailed) && hourly == old(hourly)
    {
      match input
      case ReadFailure =>
        return Err(ReadFailed), None;
      case ParseFailure =>
        return Err(ParseFailed), None;
      case Decoded(data) =>
        var reading := Ingested(data);
        if !pingOk {
          return Err(PingFailed), None;
        }
        if !insertOk {
          return Err(InsertFailed), None;
        }
        warning := StoreReading(reading, hourlyFault);
        status := Ok;
    }

    /**
     * The successful tail of `processWeatherData`: insert the reading, then
     * roll up its hour, turning a failed roll-up into a warning.
     */
    method StoreReading(r: Reading, hourlyFault: Fault) returns (warning: Option<Error>)
      requires Valid() && ValidStamp(r.at)
      modifies this
      ensures Valid()
      ensures readings == old(readings) + [r]
      ensures daily == old(daily) && weekly == old(weekly) && monthly == old(monthly)
      ensures hourlyFault == NoFault ==>
                warning == None && hourly == HourlyRollup(readings, HourlyKey(r.at), old(hourly))
                && HourlyKey(r.at) in hourly
      ensures hourlyFault == QueryFault ==> warning == Some(AggregateFailed(Hourly)) && hourly == old(hourly)
      ensures hourlyFault == WriteFault ==> warning == Some(HourlyUpsertFailed) && hourly == old(hourly)
    {
      Insert(r);
      InsertedReadingIsCounted(old(readings), r);
      var hourlyStatus := UpdateHourlyAverages(r.at, hourlyFault);
      warning := if hourlyStatus.Err? then Some(hourlyStatus.error) else None;
    }
  }
}
