/** `forecast_clicks` of ws.py: a CTR estimate per target rank (1, 3, 5),
    then an if-chain over the query's average position that assigns and
    overwrites the three forecasts. The saved CTR table, which the source
    reads back from a file, is a parameter. */
module Forecast {
  import opened Wrappers
  import opened Numbers
  import opened CtrTable

  /** Sum of the saved CTRs of ranks 1..n, a missing rank counting 0. */
  function TableSum(table: map<int, real>, n: nat): real {
    if n == 0 then 0.0 else TableSum(table, n - 1) + (if n in table then table[n] else 0.0)
  }

  predicate UnitTable(table: map<int, real>) {
    forall p :: p in table ==> 0.0 <= table[p] <= 1.0
  }

  lemma {:induction false} TableSumBounds(table: map<int, real>, n: nat)
    ensures UnitTable(table) ==> 0.0 <= TableSum(table, n) <= n as real
  {
    if n > 0 {
      TableSumBounds(table, n - 1);
    }
  }

  /** The fallback CTR for rank r: the mean saved CTR of ranks 1..r. */
  function FallbackCtr(table: map<int, real>, r: nat): (c: real)
    requires r >= 1
    ensures UnitTable(table) ==> 0.0 <= c <= 1.0
  {
    TableSumBounds(table, r);
    TableSum(table, r) / r as real
  }

  /** The fallback is the mean: r copies of it make up the table's sum. */
  lemma FallbackIsMean(table: map<int, real>, r: nat)
    requires r >= 1
    ensures FallbackCtr(table, r) * r as real == TableSum(table, r)
  {
  }

  /** The source divides observed clicks by observed impressions whenever
      the clicks are positive; zero impressions there make it raise. */
  predicate Divisible(observed: map<int, Bucket>, r: int) {
    Get(observed, r).clicks > 0.0 ==> Get(observed, r).impressions != 0.0
  }

  /** The CTR estimate for rank r: the observed ratio when the rank has
      clicks, the table's fallback otherwise. */
  function CtrEstimate(observed: map<int, Bucket>, table: map<int, real>, r: nat): real
    requires r >= 1 && Divisible(observed, r)
  {
    var b := Get(observed, r);
    if b.clicks > 0.0 then b.clicks / b.impressions else FallbackCtr(table, r)
  }

  /** With clicks observed at rank r the estimate reproduces them from the
      impressions; without, it is the table's fallback. */
  lemma CtrEstimateMeaning(observed: map<int, Bucket>, table: map<int, real>, r: nat)
    requires r >= 1 && Divisible(observed, r)
    ensures Get(observed, r).clicks > 0.0 ==>
              CtrEstimate(observed, table, r) * Get(observed, r).impressions == Get(observed, r).clicks
    ensures Get(observed, r).clicks <= 0.0 ==> CtrEstimate(observed, table, r) == FallbackCtr(table, r)
  {
  }

  /** `round(ctr * total_demand)`: the clicks a CTR would bring. */
  function ClicksFor(ctr: real, demand: real): real {
    Round(ctr * demand) as real
  }

  /** The clicks predicted for rank r. */
  function Predicted(observed: map<int, Bucket>, table: map<int, real>, demand: real, r: nat): real
    requires r >= 1 && Divisible(observed, r)
  {
    ClicksFor(CtrEstimate(observed, table, r), demand)
  }

  predicate Sane(observed: map<int, Bucket>, table: map<int, real>) {
    && UnitTable(table)
    && forall p :: p in observed ==> 0.0 <= observed[p].clicks <= observed[p].impressions
  }

  lemma RatioInUnit(x: real, y: real)
    requires 0.0 <= x <= y && y > 0.0
    ensures 0.0 <= x / y <= 1.0
  {
  }

  lemma ProductBelow(c: real, d: real)
    requires 0.0 <= c <= 1.0 && d >= 0.0
    ensures 0.0 <= c * d <= d
  {
  }

  /** A CTR in [0, 1] brings between 0 and the demand (up to rounding). */
  lemma ClicksForBounds(ctr: real, demand: real)
    requires 0.0 <= ctr <= 1.0 && demand >= 0.0
    ensures 0.0 <= ClicksFor(ctr, demand) <= demand + 0.5
  {
    ProductBelow(ctr, demand);
    RoundWithin(ctr * demand, demand);
  }

  lemma RoundWithin(x: real, hi: real)
    requires 0.0 <= x <= hi
    ensures 0.0 <= Round(x) as real <= hi + 0.5
  {
  }

  /** With sane inputs a prediction lies between 0 and the demand (up to
      rounding). */
  lemma PredictedBounds(observed: map<int, Bucket>, table: map<int, real>, demand: real, r: nat)
    requires r >= 1 && Divisible(observed, r) && Sane(observed, table) && demand >= 0.0
    ensures 0.0 <= Predicted(observed, table, demand, r) <= demand + 0.5
  {
    var c := CtrEstimate(observed, table, r);
    var b := Get(observed, r);
    if b.clicks > 0.0 {
      assert 0.0 < b.clicks <= b.impressions;
      RatioInUnit(b.clicks, b.impressions);
    }
    assert 0.0 <= c <= 1.0;
    ClicksForBounds(c, demand);
    assert 0.0 <= c * demand <= demand;
  }

  /** The three forecasts as the if-chain leaves them, for target rank
      r in {1, 3, 5}: the outcome depends only on the band of the average
      position. */
  function AsWritten(pos: real, observed: map<int, Bucket>, table: map<int, real>,
                     demand: real, totalClicks: real, r: nat): real
    requires r == 1 || r == 3 || r == 5
    requires Divisible(observed, r)
  {
    if pos <= 3.0 then totalClicks
    else if pos <= 5.0 then (if r == 5 then 0.0 else Predicted(observed, table, demand, r))
    else Predicted(observed, table, demand, r)
  }

  /** The three forecasts, for the top 1, top 3 and top 5. */
  datatype Forecasts = Forecasts(top1: real, top3: real, top5: real)

  /** `forecast_clicks`, statement by statement. The three CTR estimates
      are computed first, for ranks 1, 3 and 5 in that order; the first
      rank whose clicks are positive but whose impressions are zero makes
      the source raise, and that rank is the error. */
  method ForecastClicks(pos: real, observed: map<int, Bucket>, demand: real, totalClicks: real,
                        table: map<int, real>)
    returns (r: Result<Forecasts, int>)
    ensures r.Failure? <==> !(Divisible(observed, 1) && Divisible(observed, 3) && Divisible(observed, 5))
    ensures r.Failure? ==>
              r.error == (if !Divisible(observed, 1) then 1 else if !Divisible(observed, 3) then 3 else 5)
    ensures r.Success? ==>
              r.value == Forecasts(AsWritten(pos, observed, table, demand, totalClicks, 1),
                                   AsWritten(pos, observed, table, demand, totalClicks, 3),
                                   AsWritten(pos, observed, table, demand, totalClicks, 5))
  {
    if !Divisible(observed, 1) {
      return Failure(1);
    }
    var ctr1 := CtrEstimate(observed, table, 1);
    if !Divisible(observed, 3) {
      return Failure(3);
    }
    var ctr3 := CtrEstimate(observed, table, 3);
    if !Divisible(observed, 5) {
      return Failure(5);
    }
    var ctr5 := CtrEstimate(observed, table, 5);
    var forecast1, forecast3, forecast5 := 0.0, 0.0, 0.0;
    if pos > 1.0 {
      forecast1 := ClicksFor(ctr1, demand);
    }
    if pos > 3.0 {
      forecast3 := ClicksFor(ctr3, demand);
    } else {
      forecast1 := totalClicks;
      forecast3 := totalClicks;
      forecast5 := totalClicks;
    }
    if pos > 5.0 {
      forecast5 := ClicksFor(ctr5, demand);
    }
    return Success(Forecasts(forecast1, forecast3, forecast5));
  }

  /** The band table: at or above rank 3 every forecast is the current
      clicks; between 3 and 5 the top-5 forecast is 0; below 5 every
      forecast is a prediction. */
  lemma AsWrittenBands(pos: real, observed: map<int, Bucket>, table: map<int, real>, demand: real, totalClicks: real)
    requires Divisible(observed, 1) && Divisible(observed, 3) && Divisible(observed, 5)
    ensures pos <= 3.0 ==>
              AsWritten(pos, observed, table, demand, totalClicks, 1) == totalClicks &&
              AsWritten(pos, observed, table, demand, totalClicks, 3) == totalClicks &&
              AsWritten(pos, observed, table, demand, totalClicks, 5) == totalClicks
    ensures 3.0 < pos <= 5.0 ==>
              AsWritten(pos, observed, table, demand, totalClicks, 1) == Predicted(observed, table, demand, 1) &&
              AsWritten(pos, observed, table, demand, totalClicks, 3) == Predicted(observed, table, demand, 3) &&
              AsWritten(pos, observed, table, demand, totalClicks, 5) == 0.0
    ensures 5.0 < pos ==>
              AsWritten(pos, observed, table, demand, totalClicks, 1) == Predicted(observed, table, demand, 1) &&
              AsWritten(pos, observed, table, demand, totalClicks, 3) == Predicted(observed, table, demand, 3) &&
              AsWritten(pos, observed, table, demand, totalClicks, 5) == Predicted(observed, table, demand, 5)
  {
  }

  /** The evidently intended rule: the forecast for the top r is the current
      clicks when the query already ranks r or better, and the prediction
      for rank r otherwise. */
  function IntendedForecast(pos: real, observed: map<int, Bucket>, table: map<int, real>,
                            demand: real, totalClicks: real, r: nat): real
    requires r >= 1 && Divisible(observed, r)
  {
    if pos > r as real then Predicted(observed, table, demand, r) else totalClicks
  }

  /** Under the intended rule a query ranked r or better keeps its current
      clicks for every target r' >= r, and with sane inputs no forecast
      exceeds the larger of the current clicks and the demand. */
  lemma IntendedForecastProperties(pos: real, observed: map<int, Bucket>, table: map<int, real>,
                                   demand: real, totalClicks: real, r: nat, r': nat)
    requires 1 <= r <= r' && Divisible(observed, r) && Divisible(observed, r')
    requires Sane(observed, table) && demand >= 0.0 && totalClicks >= 0.0
    ensures pos <= r as real ==> IntendedForecast(pos, observed, table, demand, totalClicks, r') == totalClicks
    ensures pos > r' as real ==>
              IntendedForecast(pos, observed, table, demand, totalClicks, r) == Predicted(observed, table, demand, r)
    ensures 0.0 <= IntendedForecast(pos, observed, table, demand, totalClicks, r') <= 
              (if totalClicks > demand + 0.5 then totalClicks else demand + 0.5)
  {
    PredictedBounds(observed, table, demand, r');
  }

  /** Where the source departs from the intended rule: the top-1 forecast
      for a position in (1, 3] and the top-5 forecast for a position in
      (3, 5]. Everywhere else the two agree. */
  lemma AsWrittenVersusIntended(pos: real, observed: map<int, Bucket>, table: map<int, real>,
                                demand: real, totalClicks: real)
    requires Divisible(observed, 1) && Divisible(observed, 3) && Divisible(observed, 5)
    ensures AsWritten(pos, observed, table, demand, totalClicks, 3) ==
            IntendedForecast(pos, observed, table, demand, totalClicks, 3)
    ensures !(1.0 < pos <= 3.0) ==>
              AsWritten(pos, observed, table, demand, totalClicks, 1) ==
              IntendedForecast(pos, observed, table, demand, totalClicks, 1)
    ensures 1.0 < pos <= 3.0 ==>
              AsWritten(pos, observed, table, demand, totalClicks, 1) == totalClicks &&
              IntendedForecast(pos, observed, table, demand, totalClicks, 1) == Predicted(observed, table, demand, 1)
    ensures !(3.0 < pos <= 5.0) ==>
              AsWritten(pos, observed, table, demand, totalClicks, 5) ==
              IntendedForecast(pos, observed, table, demand, totalClicks, 5)
    ensures 3.0 < pos <= 5.0 ==>
              AsWritten(pos, observed, table, demand, totalClicks, 5) == 0.0 &&
              IntendedForecast(pos, observed, table, demand, totalClicks, 5) == totalClicks
  {
  }

  /** Concrete inputs: average position 2, an observed top-1 CTR of 10%,
      demand 1000 and 5 current clicks. The source forecasts 5 clicks for
      the top 1; the intended rule forecasts 100. At position 4 the source
      forecasts 0 clicks for the top 5 although the query already has 5. */
  lemma ForecastCounterexample()
    ensures AsWritten(2.0, map[1 := Bucket(10.0, 100.0)], map[], 1000.0, 5.0, 1) == 5.0
    ensures IntendedForecast(2.0, map[1 := Bucket(10.0, 100.0)], map[], 1000.0, 5.0, 1) == 100.0
    ensures AsWritten(4.0, map[], map[], 1000.0, 5.0, 5) == 0.0
    ensures IntendedForecast(4.0, map[], map[], 1000.0, 5.0, 5) == 5.0
  {
    var observed := map[1 := Bucket(10.0, 100.0)];
    assert CtrEstimate(observed, map[], 1) == 0.1;
    assert Round(0.1 * 1000.0) == 100;
  }
}
