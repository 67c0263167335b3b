/**
  Demand analytics of the food views: the hourly totals of the last week's demand
  counters, the 8:00-20:00 chart, the peak hour, and the moving-average forecast of the
  next hour with its confidence band.
 */
module FoodDemand {
  import opened Wrappers
  import opened Dict
  import opened FoodModels

  type DemandTable = Dict<DemandKey, DemandRecord>

  /** The counters the analytics page reads: the stall's, dated seven days ago or later, in table order. */
  function WeekRecords(demand: DemandTable, stall: StallId, today: Date): (rows: DemandTable)
    ensures forall i :: 0 <= i < |rows| ==> rows[i].0.stall == stall && rows[i].0.date >= today - 7
    ensures forall e :: e in rows <==> e in demand && e.0.stall == stall && e.0.date >= today - 7
  {
    if demand == [] then []
    else
      var rest := WeekRecords(demand[1..], stall, today);
      var e := demand[0];
      assert forall x :: x in demand <==> x == e || x in demand[1..];
      if e.0.stall == stall && e.0.date >= today - 7 then [e] + rest else rest
  }

  /** True when some row is for hour `h`. */
  predicate HasHour(rows: DemandTable, h: int) {
    exists i :: 0 <= i < |rows| && rows[i].0.hour == h
  }

  /** The summed order counts of the rows for hour `h`, over all days. */
  function HourTotal(rows: DemandTable, h: int): int {
    if rows == [] then 0
    else
      var last := rows[|rows| - 1];
      HourTotal(rows[..|rows| - 1], h) + (if last.0.hour == h then last.1.orderCount else 0)
  }

  /** An hour that no row mentions totals zero. */
  lemma {:induction false} HourTotalAbsent(rows: DemandTable, h: int)
    requires !HasHour(rows, h)
    ensures HourTotal(rows, h) == 0
  {
    if rows != [] {
      var init := rows[..|rows| - 1];
      assert !HasHour(init, h) by {
        forall i | 0 <= i < |init| ensures init[i].0.hour != h { assert init[i] == rows[i]; }
      }
      HourTotalAbsent(init, h);
    }
  }

  /**
    The `hourly_totals` loop: a defaultdict(int) that adds every row's order count under
    its hour. Afterwards the hours present are exactly the hours of the rows, each with
    its summed count.
   */
  method AggregateHourly(rows: DemandTable) returns (totals: Dict<int, int>)
    ensures totals == HourlyFold(rows)
    ensures DistinctKeys(totals)
    ensures forall h :: Get(totals, h) == if HasHour(rows, h) then Some(HourTotal(rows, h)) else None
  {
    totals := [];
    for i := 0 to |rows|
      invariant totals == HourlyFold(rows[..i])
    {
      assert rows[..i + 1][..i] == rows[..i];
      totals := AddTo(totals, rows[i].0.hour, rows[i].1.orderCount);
    }
    assert rows[..|rows|] == rows;
    HourlyFoldTotals(rows);
  }

  /** `d[k] += c` on a defaultdict(int): a missing key starts from 0. */
  function AddTo(d: Dict<int, int>, k: int, c: int): Dict<int, int> {
    Put(d, k, Get(d, k).GetOr(0) + c)
  }

  /** The dictionary the `hourly_totals` loop has built after the rows `rows`. */
  function HourlyFold(rows: DemandTable): Dict<int, int> {
    if rows == [] then []
    else AddTo(HourlyFold(rows[..|rows| - 1]), rows[|rows| - 1].0.hour, rows[|rows| - 1].1.orderCount)
  }

  /** The loop's dictionary holds exactly the hours of the rows, each with its summed count. */
  lemma {:induction false} HourlyFoldTotals(rows: DemandTable)
    ensures HourlyTotals(rows, HourlyFold(rows))
  {
    if rows == [] {
      forall h ensures Get(HourlyFold(rows), h) == None && !HasHour(rows, h) { }
    } else {
      var i := |rows| - 1;
      var before := HourlyFold(rows[..i]);
      assert HourlyFold(rows) == AddTo(before, rows[i].0.hour, rows[i].1.orderCount);
      assert rows[..i + 1] == rows;
      HourlyFoldTotals(rows[..i]);
      HourlyStep(rows, i, before);
    }
  }

  /** `totals` holds exactly the hours of `rows`, each with its summed count. */
  ghost predicate HourlyTotals(rows: DemandTable, totals: Dict<int, int>) {
    && DistinctKeys(totals)
    && forall h :: Get(totals, h) == if HasHour(rows, h) then Some(HourTotal(rows, h)) else None
  }

  /** `hourly_totals[r.hour] += r.order_count` for row `i` extends the totals of the rows before it to the totals including it. */
  lemma HourlyStep(rows: DemandTable, i: nat, before: Dict<int, int>)
    requires i < |rows| && HourlyTotals(rows[..i], before)
    ensures HourlyTotals(rows[..i + 1], AddTo(before, rows[i].0.hour, rows[i].1.orderCount))
  {
    var hour := rows[i].0.hour;
    HourStep(rows, i);
    var prev := Get(before, hour).GetOr(0);
    if !HasHour(rows[..i], hour) { HourTotalAbsent(rows[..i], hour); }
    assert prev == HourTotal(rows[..i], hour);
    var totals := Put(before, hour, prev + rows[i].1.orderCount);
    forall h ensures Get(totals, h) == if HasHour(rows[..i + 1], h) then Some(HourTotal(rows[..i + 1], h)) else None {
      if h != hour {
        assert Get(totals, h) == Get(before, h);
      }
    }
  }

  /** One more row adds its hour and its count under that hour. */
  lemma HourStep(rows: DemandTable, i: nat)
    requires i < |rows|
    ensures forall h :: HasHour(rows[..i + 1], h) <==> HasHour(rows[..i], h) || rows[i].0.hour == h
    ensures forall h :: HourTotal(rows[..i + 1], h)
                     == HourTotal(rows[..i], h) + (if rows[i].0.hour == h then rows[i].1.orderCount else 0)
  {
    var pre, next := rows[..i], rows[..i + 1];
    assert next[..i] == pre;
    forall h ensures HasHour(next, h) <==> HasHour(pre, h) || rows[i].0.hour == h {
      if HasHour(next, h) && rows[i].0.hour != h {
        var j :| 0 <= j < i + 1 && next[j].0.hour == h;
        assert pre[j].0.hour == h;
      }
      if HasHour(pre, h) {
        var j :| 0 <= j < i && pre[j].0.hour == h;
        assert next[j].0.hour == h;
      }
      if rows[i].0.hour == h { assert next[i].0.hour == h; }
    }
  }

  /** `chart_data`: the total of each hour 8..20, 0 for an hour without counters. */
  function ChartData(totals: Dict<int, int>): (chart: seq<int>)
    ensures |chart| == 13
  {
    seq(13, i => Get(totals, 8 + i).GetOr(0))
  }

  /** Where `max(totals, key=totals.get)` stops: the first entry with the largest value. */
  function PeakIndex(totals: Dict<int, int>): (p: nat)
    requires totals != []
    ensures p < |totals|
    ensures forall j :: 0 <= j < |totals| ==> totals[j].1 <= totals[p].1
    ensures forall j :: 0 <= j < p ==> totals[j].1 < totals[p].1
  {
    if |totals| == 1 then 0
    else
      var q := PeakIndex(totals[..|totals| - 1]);
      assert forall j :: 0 <= j < |totals| - 1 ==> totals[..|totals| - 1][j] == totals[j];
      if totals[|totals| - 1].1 > totals[q].1 then |totals| - 1 else q
  }

  /** The peak hour: the first hour with the largest total, or 12 when there are no counters. */
  function PeakHour(totals: Dict<int, int>): (h: int)
    ensures totals == [] ==> h == 12
    ensures totals != [] ==> HasKey(totals, h) && h == totals[PeakIndex(totals)].0
    ensures DistinctKeys(totals) && totals != [] ==>
              forall j :: 0 <= j < |totals| ==> totals[j].1 <= Get(totals, h).value
  {
    if totals == [] then 12 else totals[PeakIndex(totals)].0
  }

  function SumInts(xs: seq<int>): int {
    if xs == [] then 0 else xs[0] + SumInts(xs[1..])
  }

  datatype Confidence = High | Medium | Low

  /** The forecast, with exact mean and variance in place of Python floats. */
  datatype Prediction =
    | NotEnoughData(hour: int)
    | Forecast(hour: int, predicted: int, mean: real, variance: real, confidence: Confidence)

  datatype Analytics = Analytics(chartData: seq<int>, peakHour: int, totalWeek: int, prediction: Prediction)

  /** The order count of one counter, 0 when the counter does not exist. */
  function PastCount(demand: DemandTable, stall: StallId, date: Date, hour: int): int {
    match Get(demand, DemandKey(stall, date, hour))
    case Some(r) => r.orderCount
    case None => 0
  }

  /** The counts of hour `hour` on each of the seven days before `today`, yesterday first. */
  function PastCounts(demand: DemandTable, stall: StallId, today: Date, hour: int): (counts: seq<int>)
    ensures |counts| == 7
  {
    seq(7, i => PastCount(demand, stall, today - (i + 1), hour))
  }

  /** Sum of (x - m)^2 over the counts. */
  function SquaredDeviation(xs: seq<int>, m: real): real {
    if xs == [] then 0.0 else (xs[0] as real - m) * (xs[0] as real - m) + SquaredDeviation(xs[1..], m)
  }

  /** Python's `round(x)` on an exact value: to the nearest integer, halves to the even one. */
  function RoundHalfEven(x: real): (n: int)
    ensures -0.5 <= x - n as real <= 0.5
    ensures (x - n as real == 0.5 || x - n as real == -0.5) ==> n % 2 == 0
  {
    var f := x.Floor;
    var frac := x - f as real;
    if frac < 0.5 then f
    else if frac > 0.5 then f + 1
    else if f % 2 == 0 then f
    else f + 1
  }

  /** The confidence band of a variance: below 5 High, below 20 Medium, otherwise Low. */
  function Band(variance: real): Confidence {
    if variance < 5.0 then High else if variance < 20.0 then Medium else Low
  }

  /** The outcome of `predict_next_hour` for the counts it collected. */
  function Predict(hour: int, counts: seq<int>): (p: Prediction)
    ensures p.hour == hour
    ensures p.NotEnoughData? <==> counts == [] || SumInts(counts) == 0
  {
    if counts == [] || SumInts(counts) == 0 then NotEnoughData(hour)
    else
      var mean := SumInts(counts) as real / |counts| as real;
      var variance := SquaredDeviation(counts, mean) / |counts| as real;
      Forecast(hour, RoundHalfEven(mean), mean, variance, Band(variance))
  }

  /**
    `predict_next_hour`: the next hour is (hour + 1) mod 24; the loop collects the
    counter of that hour for each of the seven previous days, a missing one as 0.
   */
  method PredictNextHour(demand: DemandTable, stall: StallId, today: Date, hour: int) returns (p: Prediction)
    requires 0 <= hour < 24
    ensures 0 <= p.hour < 24 && p.hour == (hour + 1) % 24
    ensures p == Predict(p.hour, PastCounts(demand, stall, today, p.hour))
  {
    var nextHour := (hour + 1) % 24;
    var pastCounts: seq<int> := [];
    for i := 1 to 8
      invariant |pastCounts| == i - 1
      invariant forall j :: 0 <= j < i - 1 ==> pastCounts[j] == PastCount(demand, stall, today - (j + 1), nextHour)
    {
      var record := Get(demand, DemandKey(stall, today - i, nextHour));
      if record.Some? {
        pastCounts := pastCounts + [record.value.orderCount];
      } else {
        pastCounts := pastCounts + [0];
      }
    }
    assert pastCounts == PastCounts(demand, stall, today, nextHour);
    if pastCounts == [] || SumInts(pastCounts) == 0 {
      return NotEnoughData(nextHour);
    }
    var avg := SumInts(pastCounts) as real / |pastCounts| as real;
    var predicted := RoundHalfEven(avg);
    var variance := SquaredDeviation(pastCounts, avg) / |pastCounts| as real;
    var confidence: Confidence;
    if variance < 5.0 {
      confidence := High;
    } else if variance < 20.0 {
      confidence := Medium;
    } else {
      confidence := Low;
    }
    p := Forecast(nextHour, predicted, avg, variance, confidence);
  }

  /**
    `demand_analytics` for the caller's stall (None when the caller owns no stall):
    the chart holds one total per hour 8..20, the peak is an hour with the largest
    total (the first such in the order hours first appear), 12 without counters, and
    the week's total is the sum of the chart.
   */
  method DemandAnalytics(demand: DemandTable, owner: Option<StallId>, today: Date, hour: int)
    returns (a: Option<Analytics>)
    requires 0 <= hour < 24
    ensures a.None? <==> owner.None?
    ensures a.Some? ==>
              var rows := WeekRecords(demand, owner.value, today);
              && |a.value.chartData| == 13
              && (forall i :: 0 <= i < 13 ==> a.value.chartData[i] == HourTotal(rows, 8 + i))
              && a.value.peakHour == PeakHour(HourlyFold(rows))
              && (rows == [] ==> a.value.peakHour == 12)
              && (rows != [] ==> HasHour(rows, a.value.peakHour)
                                 && forall h :: HasHour(rows, h) ==> HourTotal(rows, h) <= HourTotal(rows, a.value.peakHour))
              && a.value.totalWeek == SumInts(a.value.chartData)
              && a.value.prediction == Predict((hour + 1) % 24, PastCounts(demand, owner.value, today, (hour + 1) % 24))
  {
    if owner.None? {
      return None;
    }
    var stall := owner.value;
    var rows := WeekRecords(demand, stall, today);
    var hourlyTotals := AggregateHourly(rows);
    var chartData := ChartData(hourlyTotals);
    forall i | 0 <= i < 13 ensures chartData[i] == HourTotal(rows, 8 + i) {
      if !HasHour(rows, 8 + i) { HourTotalAbsent(rows, 8 + i); }
    }
    var peakHour := PeakHour(hourlyTotals);
    if rows == [] {
      assert hourlyTotals == [];
    } else {
      assert Get(hourlyTotals, rows[0].0.hour).Some?;
      assert HasHour(rows, peakHour);
      forall h | HasHour(rows, h) ensures HourTotal(rows, h) <= HourTotal(rows, peakHour) {
        assert HasKey(hourlyTotals, h);
        var j :| 0 <= j < |hourlyTotals| && hourlyTotals[j].0 == h;
        assert hourlyTotals[j].1 == HourTotal(rows, h);
      }
    }
    var prediction := PredictNextHour(demand, stall, today, hour);
    a := Some(Analytics(chartData, peakHour, SumInts(chartData), prediction));
  }

  /**
    With non-negative counts there is no forecast exactly when every count is 0
    (a stall that has had no orders at that hour on any of the seven days).
   */
  lemma {:induction false} NoForecastExactlyWithoutOrders(hour: int, counts: seq<int>)
    requires counts != []
    requires forall i :: 0 <= i < |counts| ==> counts[i] >= 0
    ensures Predict(hour, counts).NotEnoughData? <==> forall i :: 0 <= i < |counts| ==> counts[i] == 0
  {
    SumZeroIffAllZero(counts);
  }

  lemma {:induction false} SumZeroIffAllZero(xs: seq<int>)
    requires forall i :: 0 <= i < |xs| ==> xs[i] >= 0
    ensures SumInts(xs) >= 0
    ensures SumInts(xs) == 0 <==> forall i :: 0 <= i < |xs| ==> xs[i] == 0
  {
    if xs != [] {
      SumZeroIffAllZero(xs[1..]);
      assert forall i :: 1 <= i < |xs| ==> xs[i] == xs[1..][i - 1];
    }
  }

  lemma {:induction false} SquaredDeviationNonNegative(xs: seq<int>, m: real)
    ensures SquaredDeviation(xs, m) >= 0.0
  {
    if xs != [] {
      SquaredDeviationNonNegative(xs[1..], m);
      var d := xs[0] as real - m;
      assert d * d >= 0.0;
    }
  }

  lemma {:induction false} ConstantSums(xs: seq<int>, c: int)
    requires forall i :: 0 <= i < |xs| ==> xs[i] == c
    ensures SumInts(xs) == |xs| * c
    ensures SquaredDeviation(xs, c as real) == 0.0
  {
    if xs != [] {
      ConstantSums(xs[1..], c);
    }
  }

  /** The variance of a forecast is never negative, so its band is decided by the two thresholds alone. */
  lemma ForecastVarianceNonNegative(hour: int, counts: seq<int>)
    requires Predict(hour, counts).Forecast?
    ensures Predict(hour, counts).variance >= 0.0
    ensures Predict(hour, counts).confidence == Band(Predict(hour, counts).variance)
  {
    var mean := SumInts(counts) as real / |counts| as real;
    SquaredDeviationNonNegative(counts, mean);
  }

  /** The same positive count on all seven days forecasts exactly that count with High confidence. */
  lemma SteadyDemandIsHighConfidence(hour: int, c: int)
    requires c >= 1
    ensures Predict(hour, seq(7, _ => c)) == Forecast(hour, c, c as real, 0.0, High)
  {
    var xs := seq(7, _ => c);
    ConstantSums(xs, c);
    assert SumInts(xs) as real / 7.0 == c as real;
  }

  /**
    A mean of seven integer counts is never exactly halfway between two integers, so the
    half-to-even rule of Python's round() never decides: the forecast is the nearest integer.
   */
  lemma ForecastIsNearestInteger(hour: int, counts: seq<int>)
    requires |counts| == 7 && Predict(hour, counts).Forecast?
    ensures -0.5 < Predict(hour, counts).mean - Predict(hour, counts).predicted as real < 0.5
  {
  }
}
