/**
 * The rows of the `weather` table and the meaning of the roll-up queries:
 * a `WHERE` filter on the reading's date (and hour), then `COUNT(*)`,
 * `AVG`, `MIN` and `MAX` of each metric, with `HAVING samples > 0` turning
 * an empty window into no row at all.
 */
module Aggregate {
  import opened Calendar
  import opened Windows
  import opened Rounding

  datatype Option<T> = None | Some(value: T)

  /** A stored reading: its local time and the three metrics, each in tenths. */
  datatype Reading = Reading(at: Stamp, temperature: int, pressure: int, humidity: int)

  datatype Metric = Temperature | Pressure | Humidity

  function Value(r: Reading, m: Metric): int {
    match m
    case Temperature => r.temperature
    case Pressure => r.pressure
    case Humidity => r.humidity
  }

  /** The `WHERE` clause of a roll-up query. */
  datatype Window =
    | HourOf(key: HourKey)                 // DATE(measured_at) = ? AND HOUR(measured_at) = ?
    | DayOf(date: Date)                    // DATE(measured_at) = ?
    | DateRange(first: Date, last: Date)   // DATE(measured_at) >= ? AND DATE(measured_at) <= ?

  predicate InWindow(w: Window, r: Reading)
    ensures w.DateRange? && ValidDate(w.first) && ValidDate(r.at.date) && ValidDate(w.last) ==>
              (InWindow(w, r) <==> Serial(w.first) <= Serial(r.at.date) <= Serial(w.last))
  {
    match w
    case HourOf(k) => r.at.date == k.date && r.at.hour == k.hour
    case DayOf(d) => r.at.date == d
    case DateRange(first, last) =>
      DateRangeIsSerialRange(first, r.at.date, last);
      DateLe(first, r.at.date) && DateLe(r.at.date, last)
  }

  /** Between two valid dates in the SQL `DATE` order is between their serials. */
  lemma DateRangeIsSerialRange(first: Date, d: Date, last: Date)
    ensures ValidDate(first) && ValidDate(d) && ValidDate(last) ==>
              (DateLe(first, d) && DateLe(d, last) <==> Serial(first) <= Serial(d) <= Serial(last))
  {
    if ValidDate(first) && ValidDate(d) && ValidDate(last) {
      DateLeIsSerialOrder(first, d);
      DateLeIsSerialOrder(d, last);
    }
  }

  /** The readings the `WHERE` clause keeps, in table order. */
  function Select(rs: seq<Reading>, w: Window): (s: seq<Reading>)
    ensures forall r :: multiset(s)[r] == if InWindow(w, r) then multiset(rs)[r] else 0
    ensures forall r :: r in s ==> InWindow(w, r)
    ensures |s| <= |rs|
  {
    if |rs| == 0 then []
    else
      var init := rs[..|rs| - 1];
      var last := rs[|rs| - 1];
      assert rs == init + [last];
      Select(init, w) + (if InWindow(w, last) then [last] else [])
  }

  /** `SUM` of one metric, in tenths. */
  function Sum(s: seq<Reading>, m: Metric): int {
    if |s| == 0 then 0 else Sum(s[..|s| - 1], m) + Value(s[|s| - 1], m)
  }

  /** `MIN` of one metric over a non-empty set of readings. */
  function Min(s: seq<Reading>, m: Metric): int
    requires |s| > 0
  {
    if |s| == 1 then Value(s[0], m)
    else
      var v := Min(s[..|s| - 1], m);
      if Value(s[|s| - 1], m) < v then Value(s[|s| - 1], m) else v
  }

  /** `MAX` of one metric over a non-empty set of readings. */
  function Max(s: seq<Reading>, m: Metric): int
    requires |s| > 0
  {
    if |s| == 1 then Value(s[0], m)
    else
      var v := Max(s[..|s| - 1], m);
      if Value(s[|s| - 1], m) > v then Value(s[|s| - 1], m) else v
  }

  /** `MIN` is the value of some reading and no reading is below it. */
  lemma {:induction false} MinIsMinimum(s: seq<Reading>, m: Metric)
    requires |s| > 0
    ensures exists i :: 0 <= i < |s| && Min(s, m) == Value(s[i], m)
    ensures forall i :: 0 <= i < |s| ==> Min(s, m) <= Value(s[i], m)
  {
    if |s| == 1 {
      assert Min(s, m) == Value(s[0], m);
    } else {
      var init := s[..|s| - 1];
      MinIsMinimum(init, m);
      var j :| 0 <= j < |init| && Min(init, m) == Value(init[j], m);
      if Value(s[|s| - 1], m) < Min(init, m) {
        assert Min(s, m) == Value(s[|s| - 1], m);
      } else {
        assert Min(s, m) == Value(s[j], m);
      }
      forall i | 0 <= i < |s| ensures Min(s, m) <= Value(s[i], m) {
        if i < |s| - 1 {
          assert s[i] == init[i];
        }
      }
    }
  }

  /** `MAX` is the value of some reading and no reading is above it. */
  lemma {:induction false} MaxIsMaximum(s: seq<Reading>, m: Metric)
    requires |s| > 0
    ensures exists i :: 0 <= i < |s| && Max(s, m) == Value(s[i], m)
    ensures forall i :: 0 <= i < |s| ==> Value(s[i], m) <= Max(s, m)
  {
    if |s| == 1 {
      assert Max(s, m) == Value(s[0], m);
    } else {
      var init := s[..|s| - 1];
      MaxIsMaximum(init, m);
      var j :| 0 <= j < |init| && Max(init, m) == Value(init[j], m);
      if Value(s[|s| - 1], m) > Max(init, m) {
        assert Max(s, m) == Value(s[|s| - 1], m);
      } else {
        assert Max(s, m) == Value(s[j], m);
      }
      forall i | 0 <= i < |s| ensures Value(s[i], m) <= Max(s, m) {
        if i < |s| - 1 {
          assert s[i] == init[i];
        }
      }
    }
  }

  /** `AVG`, `MIN` and `MAX` of one metric, in tenths; the average is exact. */
  datatype MetricAgg = MetricAgg(avg: real, min: int, max: int)

  /** The single row the query returns when the window holds readings. */
  datatype QueryRow = QueryRow(temperature: MetricAgg, pressure: MetricAgg, humidity: MetricAgg, samples: nat)

  function Aggregates(s: seq<Reading>, m: Metric): (a: MetricAgg)
    requires |s| > 0
    ensures a.min as real <= a.avg <= a.max as real
  {
    MeanBetweenMinAndMax(s, m);
    MetricAgg(Sum(s, m) as real / |s| as real, Min(s, m), Max(s, m))
  }

  /**
   * The roll-up query: no row (`sql.ErrNoRows` after `HAVING samples > 0`)
   * exactly when no reading is in the window, and otherwise the count and
   * the aggregates of the readings that are.
   */
  function Query(rs: seq<Reading>, w: Window): (q: Option<QueryRow>)
    ensures q.None? <==> forall r :: r in rs ==> !InWindow(w, r)
    ensures q.Some? ==> q.value.samples == |Select(rs, w)| && 0 < q.value.samples <= |rs|
  {
    var s := Select(rs, w);
    if |s| == 0 then
      assert forall r :: r in rs ==> !InWindow(w, r) by {
        forall r | r in rs ensures !InWindow(w, r) {
          assert multiset(s)[r] == 0;
        }
      }
      None
    else
      assert s[0] in s;
      Some(QueryRow(Aggregates(s, Temperature), Aggregates(s, Pressure), Aggregates(s, Humidity), |s|))
  }

  /** One more reading keeps the sum between `count * MIN` and `count * MAX`. */
  lemma SumStep(lo: int, loInit: int, hi: int, hiInit: int, n: int, sumInit: int, v: int)
    requires 0 <= n && lo <= loInit && lo <= v && hiInit <= hi && v <= hi
    requires loInit * n <= sumInit <= hiInit * n
    ensures lo * (n + 1) <= sumInit + v <= hi * (n + 1)
  {
    assert lo * n <= loInit * n;
    assert hiInit * n <= hi * n;
  }

  /** The sum lies between `count * MIN` and `count * MAX`. */
  lemma {:induction false} SumBetweenMinAndMax(s: seq<Reading>, m: Metric)
    requires |s| > 0
    ensures Min(s, m) * |s| <= Sum(s, m) <= Max(s, m) * |s|
  {
    if |s| > 1 {
      var init := s[..|s| - 1];
      SumBetweenMinAndMax(init, m);
      SumStep(Min(s, m), Min(init, m), Max(s, m), Max(init, m), |init|, Sum(init, m), Value(s[|s| - 1], m));
    }
  }

  /** The average of a metric lies between its minimum and its maximum. */
  lemma MeanBetweenMinAndMax(s: seq<Reading>, m: Metric)
    requires |s| > 0
    ensures Min(s, m) as real <= Sum(s, m) as real / |s| as real <= Max(s, m) as real
  {
    SumBetweenMinAndMax(s, m);
    DivideBounds(Min(s, m), Sum(s, m), Max(s, m), |s|);
  }

  /** Dividing `lo * n <= x <= hi * n` by a positive `n`. */
  lemma DivideBounds(lo: int, x: int, hi: int, n: int)
    requires 0 < n && lo * n <= x <= hi * n
    ensures lo as real <= x as real / n as real <= hi as real
  {
    assert (lo * n) as real == lo as real * n as real;
    assert (hi * n) as real == hi as real * n as real;
  }

  /** A reading appended to the table joins exactly the windows that contain it. */
  lemma SelectAppend(rs: seq<Reading>, r: Reading, w: Window)
    ensures Select(rs + [r], w) == Select(rs, w) + (if InWindow(w, r) then [r] else [])
  {
    assert (rs + [r])[..|rs|] == rs;
  }

  /** The hourly window of a reading's own time holds exactly the readings of that same date and hour. */
  lemma HourlyWindowIsOwnHour(t: Stamp, r: Reading)
    ensures InWindow(HourOf(HourlyKey(t)), r) <==> r.at == t
  {
  }

  /** After a reading is inserted, the query for its own hour always finds a row. */
  lemma InsertedReadingIsCounted(rs: seq<Reading>, r: Reading)
    ensures Query(rs + [r], HourOf(HourlyKey(r.at))).Some?
    ensures Query(rs + [r], HourOf(HourlyKey(r.at))).value.samples
            == (if Query(rs, HourOf(HourlyKey(r.at))).Some? then Query(rs, HourOf(HourlyKey(r.at))).value.samples else 0) + 1
  {
    SelectAppend(rs, r, HourOf(HourlyKey(r.at)));
    assert r in rs + [r];
  }
}
