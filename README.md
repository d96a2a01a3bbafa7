# go-weather-processor: windows, roll-ups and ingestion

A Dafny model of the processing core of `main.go` in go-weather-processor.
This service stores a weather reading every five minutes. It keeps hourly,
daily, weekly and monthly summary tables in MySQL. The model has two parts.

- **The window calculator.** From a reference date it picks the period each
  roll-up covers: the reading's own hour, yesterday, the previous ISO week,
  and the month that `AddDate(0, -1, 0)` lands in. Civil dates are
  `(year, month, day)` with a day serial counted from 0001-01-01. Weekdays
  follow Go's numbering, with Sunday as 0.
  - Go's `AddDate` and `time.Date` are modelled faithfully: month overflow by
    floor division into the year, then day overflow counted in days.
  - `ISOWeek` is modelled as Go computes it. It is proved equal to an
    independent ISO 8601 definition: week 1 is the week that contains
    January 4 (section 4.1.4 of ISO 8601:2004).
- **The aggregate-and-upsert engine** over an abstract database.
  - `Store.WeatherStore` is a class. Its `readings` sequence stands for the
    `weather` table. Four maps stand for the summary tables, each keyed by
    its natural key.
  - A roll-up query is a function over the readings: a `WHERE` filter, then
    `COUNT`, `AVG`, `MIN` and `MAX`. `HAVING samples > 0` turns an empty
    window into "no row".
  - Each upsert is a method. It rounds the aggregates half away from zero,
    then rewrites only the columns listed in `ON DUPLICATE KEY UPDATE`.
  - `processWeatherData` is a method that inserts the reading and then rolls
    up its hour, downgrading a failed roll-up to a warning.

Stored values are integers in tenths, because ingestion rounds every value
to one decimal. `AVG` is the exact rational mean of those tenths.
`math.Round(x*10)/10` is read as "round `x*10` half away from zero, in
tenths".

Modules:
- `Calendar`: dates, serials, normalisation, weekdays and ISO weeks.
- `Windows`: the four window calculations and the cron schedules.
- `Rounding`: `math.Round`.
- `Aggregate`: readings and query semantics.
- `Summaries`: row types, the roll-up of each table as a function, and the
  table invariants.
- `Store`: the database class and its methods.

The clock, the database's answers and the file contents are parameters:
- `now` is the reference date;
- `Fault` says whether a roll-up's query or upsert fails;
- `pingOk` and `insertOk` say whether the ping and the insert succeed;
- `Input` is what reading and decoding `weather.json` gave.

The daily, weekly and monthly roll-up methods are each split in two. The
outer method computes the window from `now`, as the Go function does. The
inner method (`UpsertDay`, `UpsertWeek`, `UpsertMonth`) runs the query and
the upsert for that window. `UpdateHourlyAverages` is a single method. It is
keyed by the reading's own stamp `at`, not by `now`, and runs the query and
the upsert itself. `StoreReading` is the successful insert of
`processWeatherData` and the hourly roll-up after it. Go writes each of these
as one function.

## Model

| member | source | states |
|---|---|---|
| Calendar.IsLeapYear | main.go:438 | the Gregorian rule: divisible by 4, and not by 100 unless by 400; it fixes February's length and the year lengths that DaysBeforeYearClosedForm sums |
| Calendar.DaysInMonth | main.go:438 | every month has between 28 and 31 days |
| Calendar.DaysBeforeMonth | main.go:438 | the days before month m lie between 28(m-1) and 31(m-1) |
| Calendar.DaysBeforeMonthTable | main.go:438 | the days before each month match the cumulative month-length table, one more after February in leap years |
| Calendar.YearStep | main.go:432 | each year adds its own length (365 or 366) to the serial of January 1 |
| Calendar.LeapDaysFormulaStep | main.go:432 | the closed Gregorian formula grows by one year length from each year to the next |
| Calendar.DaysBeforeYearClosedForm | main.go:432 | counting year by year gives the closed formula 365(y-1) + (y-1)/4 - (y-1)/100 + (y-1)/400 |
| Calendar.MonthStartNext | main.go:438 | the next month starts exactly one month length after this one, across December too |
| Calendar.PrevMonth | main.go:432 | the previous month is valid, and the next month after it is the month we started from |
| Calendar.Serial | main.go:264 | the day serial counted from 0001-01-01 (serial 0); SerialRoundTrip and SerialInjective make it a one-to-one numbering of valid dates |
| Calendar.NextMonth | main.go:438 | the following month is a valid month |
| Calendar.Normalize | main.go:347 | normalising an out-of-range day gives a valid date whose serial is the month start plus day - 1 |
| Calendar.NormMonth | main.go:437 | month overflow moves whole years: 12·year + month is preserved and the month lands in 1..12 |
| Calendar.DateOf | main.go:437 | `time.Date(y, m, d)` gives a valid date whose serial is the normalised month start plus d - 1 |
| Calendar.AddDate | main.go:264 | `AddDate(years, months, days)` gives a valid date whose serial is the normalised shifted month start plus day + days - 1 |
| Calendar.AddDays | main.go:349 | shifting by n days gives a valid date exactly n serials later |
| Calendar.SerialInMonth | main.go:438 | a valid date's serial lies inside its month |
| Calendar.MonthsFillYear | main.go:438 | the months fit into the year, and exactly fill it at December |
| Calendar.DaysBeforeYearMonotone | main.go:432 | later years start later, by at least 365 days |
| Calendar.SerialInYear | main.go:351 | a valid date's serial lies inside its year |
| Calendar.YearOfSerial | main.go:351 | the year whose span holds a date's serial is that date's year |
| Calendar.MonthsOrdered | main.go:438 | a later month starts after an earlier one ends |
| Calendar.SerialInjective | main.go:264 | two valid dates with the same serial are equal |
| Calendar.FromSerial | main.go:264 | every serial is the serial of some valid date |
| Calendar.SerialRoundTrip | main.go:264 | converting a valid date to its serial and back gives the same date |
| Calendar.AddDateDays | main.go:264 | `AddDate(0, 0, n)` is the date n days later |
| Calendar.DateOfValid | main.go:347 | `time.Date` of an already valid date returns it unchanged |
| Calendar.LastDayOfMonth | main.go:438 | `AddDate(0, 1, -1)` of the first of a month is that month's last day |
| Calendar.MonthBack | main.go:432 | `AddDate(0, -1, 0)` lands at the previous month's start plus day - 1, overflowing when that day does not exist |
| Calendar.AddDaysAdd | main.go:349 | shifting by a days and then b days is shifting by a + b |
| Calendar.AddDaysIs | main.go:349 | any valid date n serials later is the n-day shift |
| Calendar.WeekdayOfSerial | main.go:343 | a weekday is in 0..6 |
| Calendar.Weekday | main.go:343 | a date's weekday is in 0..6; January7th2024IsSunday fixes Sunday as 0 on the real calendar |
| Calendar.January7th2024IsSunday | main.go:343 | 7 January 2024 has weekday 0, so the numbering is Go's `time.Weekday` with Sunday = 0 and Monday = 1 |
| Calendar.WeekdayOfSerialShift | main.go:343 | n days later the weekday has moved by n modulo 7 |
| Calendar.WeekdayAddDays | main.go:343 | the weekday after an n-day shift is the old weekday plus n, modulo 7 |
| Calendar.WeekApartSameWeekday | main.go:349 | dates seven days apart fall on the same weekday |
| Calendar.DaysSinceMonday | main.go:343-346 | zero to six days have passed since the week's Monday |
| Calendar.BackToMonday | main.go:343-346 | stepping back the days since Monday lands on a Monday |
| Calendar.MondayToThursday | main.go:351 | three days after a Monday is a Thursday |
| Calendar.SameWeekdayOfSerial | main.go:351 | days on the same weekday are a whole number of weeks apart |
| Calendar.DayOfYear | main.go:351 | the zero-based day of the year is below the year length, and the serial is the year start plus it |
| Calendar.ISOWeek | main.go:351 | `ISOWeek` gives a week number in 1..53 |
| Calendar.MondayOf | main.go:343-347 | the week's Monday is a valid Monday, 0 to 6 days back |
| Calendar.ThursdayOf | main.go:351 | the week's Thursday is its Monday + 3, within three days of the date |
| Calendar.ISOWeekUsesThursday | main.go:351 | `ISOWeek` is the year of the week's Thursday and that Thursday's day of the year / 7 + 1 |
| Calendar.SameWeekSameISOWeek | main.go:351-353 | days of the same Monday-to-Sunday week have the same ISO week |
| Calendar.Week1Thursday | main.go:351 | the Thursday of the week holding January 4 lies in that year's first seven days |
| Calendar.ISOWeekIsISO8601 | main.go:351 | Go's `ISOWeek` equals the ISO 8601 rule: the Thursday's year, weeks counted from the Monday of the week holding January 4 |
| Calendar.ThursdayWeekOfYear | main.go:351 | the Thursday's day of the year / 7 is the number of whole weeks since week 1's Monday |
| Calendar.WeekNumber | main.go:351 | a Thursday whole weeks after its year's first Thursday has day of the year / 7 equal to the number of weeks between their Mondays |
| Calendar.January4InWeek1 | main.go:351 | January 4 is always in ISO week 1 of its own year |
| Calendar.DateLeIsSerialOrder | main.go:367 | the string comparison of `YYYY-MM-DD` dates (lexicographic year, month, day) is the order of serials |
| Windows.HourlyKey | main.go:212-213 | the hourly key of a valid time is a valid date and an hour in 0..23 |
| Aggregate.HourlyWindowIsOwnHour | main.go:212-213 | the hourly window holds exactly the readings of the same date and hour, never the previous hour |
| Windows.DailyDate | main.go:264-265 | yesterday is a valid date exactly one serial before the reference date |
| Windows.DailyDateCases | main.go:264-265 | yesterday field by field: day - 1; the previous month's last day on day 1; December 31 of the year before on January 1 |
| Windows.DayBefore | main.go:264 | the valid date one serial before the reference date is yesterday |
| Windows.NewYearsEve | main.go:264 | December 31 is the day before January 1 of the next year |
| Windows.WeeklyWindow | main.go:342-353 | the window's start and end are valid dates |
| Windows.WeeklyStart | main.go:343-347 | the start is the Monday seven days before the reference week's Monday: a Monday 7 to 13 days back, 13 on a Sunday and 7 on a Monday |
| Windows.WeeklyStartShift | main.go:343-347 | both branches go back the days since Monday, plus seven |
| Windows.MondayOfMonday | main.go:347 | the Monday of a Monday is itself |
| Windows.WeeklyEnd | main.go:349 | the end is a Sunday six days after the start, with the same Monday and the same ISO week |
| Windows.MondaysApart | main.go:343-347 | two Mondays less than a week apart are the same day |
| Windows.WeeklyRangeIsOneWeek | main.go:367 | a date is in the queried range exactly when its week's Monday is the window's start |
| Windows.WeeklyIsoWeek | main.go:351 | the row's (year, week) is the ISO 8601 week of the start: the year of its Thursday, a week in 1..53 |
| Windows.WeeklyIsPreviousWeek | main.go:343-351 | one week after the start is the reference date's Monday, which shares the reference date's ISO week |
| Windows.WeeklyWeekNumber | main.go:351 | the window's week is the reference week - 1 in the same year, or in week 1 the last week (52 or 53) of the previous year |
| Windows.PreviousThursday | main.go:351 | a Thursday a week earlier is in the same year unless the later one is in its year's first seven days |
| Windows.MonthlyWindow | main.go:431-438 | the window's first and last days are valid dates |
| Windows.MonthlyWholeMonth | main.go:436-438 | the window runs from day 1 to the last day of a real month |
| Windows.MonthlyWhichMonth | main.go:432-434 | the month is the previous one when the day number exists there; otherwise the overflow lands in the reference month itself |
| Windows.MonthlyOnFirstDay | main.go:128 | on the first of a month, the scheduled day, the window is the whole previous month, and January rolls back to December of the year before |
| Windows.MonthlyOnMarchFirst | main.go:438 | on 1 March the window is February, ending on the 29th exactly in leap years |
| Windows.MonthlyOnMarch31 | main.go:432 | on 31 March "February 31" overflows and the window is March |
| Store.Ingested | main.go:178-180 | the stored reading keeps the measurement's time, and each value in tenths is within half a tenth of ten times the decoded value |
| Rounding.RoundHalfAway | main.go:178-180 | the rounded value is within one half, and the tie goes away from zero |
| Rounding.RoundTenths | main.go:178-180 | an ingested value in tenths is within half a tenth of the decoded value |
| Rounding.RoundIsUnique | main.go:238-240 | any integer meeting the half-away rule is the rounding |
| Rounding.RoundOfInteger | main.go:297-298 | rounding a value already in whole tenths leaves it unchanged |
| Rounding.RoundIdempotent | main.go:296-304 | rounding twice is rounding once |
| Rounding.RoundSymmetric | main.go:296-304 | rounding commutes with negation |
| Rounding.RoundMonotone | main.go:296-304 | rounding preserves order |
| Rounding.RoundBetween | main.go:296-304 | a value between two whole tenths rounds to something between them |
| Rounding.RoundTies | main.go:178-180 | n + 0.5 rounds to n + 1 and -(n + 0.5) to -(n + 1) |
| Aggregate.InWindow | main.go:367 | the `WHERE` clauses of main.go:225, 279, 367 and 452; on valid dates a `DATE` range holds a reading exactly when its serial lies between the two ends' serials |
| Aggregate.DateRangeIsSerialRange | main.go:367 | between two valid dates in the `DATE` order is between their serials, both directions |
| Aggregate.Select | main.go:225 | the `WHERE` keeps every reading in the window, as many times as it occurs in the table, and nothing else |
| Aggregate.Sum | main.go:274-276 | the `SUM` behind `AVG`: the sum of one metric over the selected readings, bounded by SumBetweenMinAndMax |
| Aggregate.Min | main.go:274-276 | `MIN` of one metric over a non-empty selection, characterised by MinIsMinimum |
| Aggregate.Max | main.go:274-276 | `MAX` of one metric over a non-empty selection, characterised by MaxIsMaximum |
| Aggregate.MinIsMinimum | main.go:274-276 | `MIN` is the value of some selected reading and no selected reading is below it |
| Aggregate.MaxIsMaximum | main.go:274-276 | `MAX` is the value of some selected reading and no selected reading is above it |
| Aggregate.Aggregates | main.go:274-276 | `MIN` <= `AVG` <= `MAX` for each metric |
| Aggregate.Query | main.go:226-233 | no row exactly when no reading is in the window; otherwise the count of the selected readings, at least 1 and at most the table size |
| Aggregate.SumStep | main.go:274-276 | proof step of SumBetweenMinAndMax: one more reading keeps the sum between count·MIN and count·MAX |
| Aggregate.SumBetweenMinAndMax | main.go:274-276 | the sum lies between count·MIN and count·MAX |
| Aggregate.MeanBetweenMinAndMax | main.go:274-276 | the average lies between MIN and MAX |
| Aggregate.DivideBounds | main.go:274-276 | proof step of MeanBetweenMinAndMax: dividing the sum bounds by a positive count |
| Aggregate.SelectAppend | main.go:194 | an inserted reading joins exactly the windows that contain it |
| Aggregate.InsertedReadingIsCounted | main.go:194-204 | after the insert, the query for the reading's own hour finds a row, with one more sample than before |
| Summaries.RoundStats | main.go:296-304 | min and max, already whole tenths, are unchanged by the second rounding; the average is rounded and stays between them |
| Summaries.RoundedMeanBetween | main.go:296-304 | a mean between its minimum and maximum stays between them once rounded |
| Summaries.HourlyRollup | main.go:242-253 | the effect of the hourly upsert on the table: no row is removed, only the (date, hour) row can appear, and it is there afterwards exactly when it was before or the hour has readings |
| Summaries.DailyRollup | main.go:306-330 | the same for the daily upsert and its date's row |
| Summaries.WeeklyRollup | main.go:394-419 | the same for the weekly upsert and its (year, week) row |
| Summaries.MonthlyRollup | main.go:482-505 | the same for the monthly upsert and its (year, month) row |
| Summaries.HourlyRowContents | main.go:218-251 | when the hour has readings, its row exists and holds their count and the rounded exact mean of each metric in tenths |
| Summaries.DailyRowContents | main.go:270-328 | when the day has readings, its row holds their count, and for each metric the rounded mean with the exact minimum and maximum; the temperature's average lies between them |
| Summaries.WeeklyRowContents | main.go:394-417 | the weekly row records the window's Monday and Sunday, the count and the rounded aggregates of the range |
| Summaries.MonthlyRowContents | main.go:482-503 | the monthly row holds the count and the rounded aggregates of the month's readings |
| Summaries.HourlyRollupIdempotent | main.go:242-251 | re-running the hourly roll-up on unchanged readings leaves the table as the first run left it |
| Summaries.DailyRollupIdempotent | main.go:306-328 | re-running the daily roll-up on unchanged readings leaves the table unchanged |
| Summaries.WeeklyRollupIdempotent | main.go:394-417 | re-running the weekly roll-up on unchanged readings leaves the table unchanged |
| Summaries.MonthlyRollupIdempotent | main.go:482-503 | re-running the monthly roll-up on unchanged readings leaves the table unchanged |
| Summaries.HourlyEmptyWindow | main.go:226-233 | an hour without readings writes nothing |
| Summaries.DailyEmptyWindow | main.go:280-291 | a day without readings writes nothing |
| Summaries.WeeklyEmptyWindow | main.go:368-379 | a week without readings writes nothing |
| Summaries.MonthlyEmptyWindow | main.go:453-467 | a month without readings writes nothing |
| Summaries.HourlyTouchesOneKey | main.go:242-253 | the upsert adds or rewrites only the row of its own (date, hour); every other row is unchanged |
| Summaries.DailyTouchesOneKey | main.go:306-330 | the upsert adds or rewrites only its date's row |
| Summaries.WeeklyTouchesOneKey | main.go:394-419 | the upsert adds or rewrites only its (year, week) row |
| Summaries.MonthlyTouchesOneKey | main.go:482-505 | the upsert adds or rewrites only its (year, month) row |
| Summaries.DailyKeepsSeaTemperature | main.go:306-328 | the daily upsert never changes `sea_temperature`, and a row it creates has none |
| Summaries.WeeklyWindowFits | main.go:342-353 | the weekly window's start and end are the Monday and Sunday of the ISO week named by its key |
| Summaries.HourlyRollupKeepsValid | main.go:242-253 | the hourly roll-up keeps every hourly row's key valid and its count within 1..table size |
| Summaries.DailyRollupKeepsValid | main.go:306-330 | the daily roll-up keeps the daily table valid |
| Summaries.WeeklyRollupKeepsValid | main.go:394-419 | the weekly roll-up keeps every weekly row fitting its key |
| Summaries.MonthlyRollupKeepsValid | main.go:482-505 | the monthly roll-up keeps the monthly table valid |
| Summaries.TablesValid | main.go:242-253 | the database invariant: readings at real times, one row per key naming a real period, each counting between 1 and all stored readings, weekly rows fitting their ISO week |
| Summaries.TablesValidAfterInsert | main.go:191-197 | inserting a reading at a real time keeps the whole database valid |
| Store.WeatherStore.Valid | main.go:191-197 | the object's fields meet TablesValid, kept by every method |
| Store.WeatherStore.Insert | main.go:191-197 | `INSERT INTO weather` appends the reading; no summary changes |
| Store.WeatherStore.UpdateHourlyAverages | main.go:211-256 | without a fault the hourly table becomes the hourly roll-up; a failed query returns its error and writes nothing; a failed upsert returns its error only when a row was found |
| Store.WeatherStore.UpdateDailyStatistics | main.go:262-337 | the same, for yesterday's row of the daily table; the upsert's own error is returned unwrapped |
| Store.WeatherStore.UpsertDay | main.go:267-336 | the daily query and upsert for one date, with the same outcomes |
| Store.WeatherStore.UpdateWeeklyStatistics | main.go:340-426 | the same, for the previous ISO week's row of the weekly table |
| Store.WeatherStore.UpsertWeek | main.go:355-425 | the weekly query and upsert for one window that fits its key |
| Store.WeatherStore.UpdateMonthlyStatistics | main.go:429-512 | the same, for the monthly table and the month `AddDate(0, -1, 0)` lands in |
| Store.WeatherStore.UpsertMonth | main.go:440-511 | the monthly query and upsert for one month's window |
| Store.WeatherStore.ProcessWeatherData | main.go:166-208 | read, parse, ping and insert failures return their errors and store nothing; success means all four succeeded, the rounded reading is appended, and the hour is rolled up, with a failed roll-up only a warning |
| Store.WeatherStore.StoreReading | main.go:191-207 | the insert appends the reading; its hourly row then exists unless the roll-up failed, which becomes a warning |

## Left out

- Cron scheduling and the scheduler loop (`main.go:80-152`). Only the four schedule strings are kept, as constants in `Windows`.
- Reading `weather.json` and decoding the JSON: modelled as the `Input` parameter.
- Environment and `.env` configuration.
- DSN building, `sql.Open` and `Ping`: the ping is the `pingOk` parameter.
- The SQL driver, MySQL, `Scan` and `LastInsertId`. Query results and failures are functions and the `Fault` parameter. An `Exec` error other than a failed write is not distinguished.
- IEEE floating point in `math.Round(x*10)/10` and MySQL `AVG`: the model uses integer tenths and exact rational averages.
- Time zones, DST and `time.Unix`: a `Stamp` is an already-decomposed local date and hour. The midnight truncation at `main.go:347` leaves only the date. The model assumes that the time stored in `weather` and the date and hour used as window keys are in one zone. The program sends the `time.Time` of `main.go:194` through a DSN (`main.go:156`) that sets `parseTime=true` and no `loc`, while the hourly key at `main.go:212-213` is local. If the driver stores that time in another zone, a reading can miss its own hourly window; the model does not capture this.
- `updated_at`, `created_at` and logging, which are wall-clock and observability only.
- The hourly roll-up wraps the upsert error ("failed to upsert hourly averages"). The daily, weekly and monthly ones return the driver's error unwrapped (`return err`); that error is `ExecFailed`.
- Store.WeatherStore.UpdateDailyStatistics, UpdateWeeklyStatistics and UpdateMonthlyStatistics: the reference date is a parameter, not `time.Now()`.
