/**
 The inventory forecast of the order dashboard: the picked category's sales
 per month, a least-squares trend line over the month indices 0..k-1, the
 next `horizon` months extrapolated from it (negative values shown as 0,
 rounded to two places, labelled "YYYY-MM"), and the note shown under the
 table when some forecast month is 0.
 */
module Forecast {
  import opened Options
  import opened Seqs
  import opened Calendar
  import opened Numeric
  import opened Grouping
  import opened Regression
  import opened SalesDashboard

  /** `.dt.to_period("M")` of the purchase timestamp. */
  function MonthKey(o: Order): Month {
    MonthOf(o.purchased)
  }

  /**
   The picked category's sales per month: one bucket per month in which the
   category sold, months ascending, each the sum of its prices that month.
   */
  function MonthlySales(rows: seq<Order>, category: string): (gs: seq<Group<Month>>)
    ensures KeysIncreasing(gs, MonthLess)
    ensures forall m :: HasKey(gs, m) <==>
              exists i :: 0 <= i < |rows| && rows[i].category == category && MonthKey(rows[i]) == m
    ensures forall i :: 0 <= i < |gs| ==>
              gs[i].total == SumWhere(CategoryRows(rows, category), MonthKey, PriceOf, gs[i].key)
  {
    MonthLessIsStrictTotal();
    forall m
      ensures Occurs(CategoryRows(rows, category), MonthKey, m) <==>
              exists i :: 0 <= i < |rows| && rows[i].category == category && MonthKey(rows[i]) == m
    {
      OccursInCategory(rows, category, MonthKey, m);
    }
    GroupRows(CategoryRows(rows, category), MonthKey, PriceOf, MonthLess)
  }

  function GroupTotal(g: Group<Month>): real {
    g.total
  }

  /** The monthly sums in month order: the y values of the trend fit. */
  function Totals(gs: seq<Group<Month>>): (ys: seq<real>)
    ensures |ys| == |gs|
    ensures forall t :: 0 <= t < |gs| ==> ys[t] == gs[t].total
  {
    Map(gs, GroupTotal)
  }

  /** The trend value `i` months after the last of `k` buckets, at index k-1+i. */
  function Projected(l: Line, k: nat, i: nat): real
    requires k >= 1
  {
    Predict(l, (k - 1 + i) as real)
  }

  /** Negative predictions are shown as 0. */
  function ClampAtZero(x: real): (r: real)
    ensures 0.0 <= r && x <= r
    ensures 0.0 <= x ==> r == x
    ensures x < 0.0 ==> r == 0.0
  {
    if x < 0.0 then 0.0 else x
  }

  /** One row of the forecast table. */
  datatype ForecastPoint = ForecastPoint(month: Month, monthLabel: string, predicted: real)

  /**
   The row `i` months after `last`: that month, a label that parses back to
   it, and the trend value at index k-1+i shown as a non-negative amount in
   whole cents, within half a cent of the clamped trend value.
   */
  function PointAt(l: Line, k: nat, last: Month, i: nat): (p: ForecastPoint)
    requires k >= 1
    ensures MonthIndex(p.month) == MonthIndex(last) + i
    ensures ParseMonthLabel(p.monthLabel) == Some(p.month)
    ensures p.month.year < 10000 ==> IsYearMonthShape(p.monthLabel)
    ensures 0.0 <= p.predicted && HasPlaces(p.predicted, 2)
    ensures -0.5 <= Scaled(p.predicted, 2) - Scaled(ClampAtZero(Projected(l, k, i)), 2) <= 0.5
  {
    var m := AddMonths(last, i);
    MonthLabelRoundTrip(m);
    ForecastPoint(m, MonthLabel(m), RoundTo(ClampAtZero(Projected(l, k, i)), 2))
  }

  /**
   The rows for months 1..horizon after the last bucket: row j is month
   last+j+1, labelled so that the label parses back to it, and shows the trend
   value at index k+j clamped at 0 and rounded to whole cents.
   */
  function Extrapolate(l: Line, k: nat, last: Month, horizon: nat): (ps: seq<ForecastPoint>)
    requires k >= 1
    ensures |ps| == horizon
    ensures forall j :: 0 <= j < horizon ==> ps[j] == PointAt(l, k, last, j + 1)
    ensures forall j :: 0 <= j < horizon ==>
              && MonthIndex(ps[j].month) == MonthIndex(last) + j + 1
              && ParseMonthLabel(ps[j].monthLabel) == Some(ps[j].month)
              && (ps[j].month.year < 10000 ==> IsYearMonthShape(ps[j].monthLabel))
              && 0.0 <= ps[j].predicted && HasPlaces(ps[j].predicted, 2)
    ensures forall j :: 0 <= j < horizon ==>
              -0.5 <= Scaled(ps[j].predicted, 2) - Scaled(ClampAtZero(Predict(l, (k + j) as real)), 2) <= 0.5
  {
    seq(horizon, j requires 0 <= j < horizon => PointAt(l, k, last, j + 1))
  }

  /**
   The forecast table for `category`, or nothing when the category has fewer
   than two months of sales (no rows at all included). Otherwise it has one
   row per month to come, each month labelled "YYYY-MM" and predicted as a
   non-negative amount in whole cents.
   */
  function ForecastInventory(rows: seq<Order>, category: string, horizon: nat): (r: Option<seq<ForecastPoint>>)
    requires 1 <= horizon <= 12
    ensures r.None? <==> |MonthlySales(rows, category)| < 2
    ensures r.Some? ==> |r.value| == horizon
    ensures r.Some? ==> forall j :: 0 <= j < horizon ==>
              && 0.0 <= r.value[j].predicted
              && HasPlaces(r.value[j].predicted, 2)
              && ParseMonthLabel(r.value[j].monthLabel) == Some(r.value[j].month)
              && (r.value[j].month.year < 10000 ==> IsYearMonthShape(r.value[j].monthLabel))
  {
    var gs := MonthlySales(rows, category);
    if |gs| < 2 then None
    else
      Some(Extrapolate(Fit(Totals(gs)), |gs|, gs[|gs| - 1].key, horizon))
  }

  /** A category that never sold gets no forecast. */
  lemma NoSalesNoForecast(rows: seq<Order>, category: string, horizon: nat)
    requires 1 <= horizon <= 12
    requires forall i :: 0 <= i < |rows| ==> rows[i].category != category
    ensures ForecastInventory(rows, category, horizon).None?
  {
    var gs := MonthlySales(rows, category);
    assert |gs| > 0 ==> HasKey(gs, gs[0].key);
  }

  /** A category that sold in one month only gets no forecast either. */
  lemma OneMonthNoForecast(rows: seq<Order>, category: string, horizon: nat, m: Month)
    requires 1 <= horizon <= 12
    requires forall i :: 0 <= i < |rows| && rows[i].category == category ==> MonthKey(rows[i]) == m
    ensures ForecastInventory(rows, category, horizon).None?
  {
    var gs := MonthlySales(rows, category);
    forall t | 0 <= t < |gs|
      ensures gs[t].key == m
    {
      assert HasKey(gs, gs[t].key);
    }
    MonthLessIsStrictTotal();
    FirstKeysDiffer(gs, MonthLess);
  }

  /**
   The forecast months follow on from the history: the j-th row is j+1
   months after the last month with sales, so the rows are in strictly
   ascending month order, all later than every month of the history.
   */
  lemma ForecastMonthsFollowHistory(rows: seq<Order>, category: string, horizon: nat)
    requires 1 <= horizon <= 12
    requires ForecastInventory(rows, category, horizon).Some?
    ensures var gs := MonthlySales(rows, category);
            var ps := ForecastInventory(rows, category, horizon).value;
            && (forall j :: 0 <= j < horizon ==> ps[j].month == AddMonths(gs[|gs| - 1].key, j + 1))
            && (forall i, j :: 0 <= i < j < horizon ==> MonthLess(ps[i].month, ps[j].month))
            && (forall t, j :: 0 <= t < |gs| && 0 <= j < horizon ==> MonthLess(gs[t].key, ps[j].month))
  {
    var gs := MonthlySales(rows, category);
    var ps := ForecastInventory(rows, category, horizon).value;
    var last := gs[|gs| - 1].key;
    forall i, j | 0 <= i < j < horizon
      ensures MonthLess(ps[i].month, ps[j].month)
    {
      AddMonthsMonotone(last, i + 1, j + 1);
    }
    forall t, j | 0 <= t < |gs| && 0 <= j < horizon
      ensures MonthLess(gs[t].key, ps[j].month)
    {
      AddMonthsMonotone(last, 0, j + 1);
      MonthIndexInjective(AddMonths(last, 0), last);
      if t < |gs| - 1 {
        MonthLessByIndex(gs[t].key, last);
        MonthLessByIndex(last, ps[j].month);
        MonthLessByIndex(gs[t].key, ps[j].month);
      }
    }
  }

  /**
   When the monthly sums lie exactly on a line a·t + b, the forecast
   continues that line: row j shows a·(k-1+j+1) + b, clamped at 0 and
   rounded to cents.
   */
  lemma ForecastExtendsExactTrend(rows: seq<Order>, category: string, horizon: nat, a: real, b: real)
    requires 1 <= horizon <= 12
    requires |MonthlySales(rows, category)| >= 2
    requires var gs := MonthlySales(rows, category);
             forall t :: 0 <= t < |gs| ==> gs[t].total == a * t as real + b
    ensures var k := |MonthlySales(rows, category)|;
            var ps := ForecastInventory(rows, category, horizon).value;
            forall j :: 0 <= j < horizon ==>
              ps[j].predicted == RoundTo(ClampAtZero(Projected(Line(a, b), k, j + 1)), 2)
  {
    var gs := MonthlySales(rows, category);
    FitRecoversExactLine(Totals(gs), a, b);
  }

  // ---------------------------------------------------------------------------
  // The note under the forecast table

  /** Which note the dashboard shows under the forecast table. */
  datatype Advice = StopProducing | FollowForecast

  /** The stop-producing note appears when some forecast month shows exactly 0. */
  function Advise(ps: seq<ForecastPoint>): (a: Advice)
    ensures a == StopProducing <==> exists j :: 0 <= j < |ps| && ps[j].predicted == 0.0
  {
    if exists j :: 0 <= j < |ps| && ps[j].predicted == 0.0 then StopProducing else FollowForecast
  }

  /** A forecast row shows 0 exactly when its trend value is at most half a cent. */
  lemma PointShowsZero(l: Line, k: nat, last: Month, i: nat)
    requires k >= 1
    ensures PointAt(l, k, last, i).predicted == 0.0 <==> Projected(l, k, i) <= 0.005
  {
    var x := ClampAtZero(Projected(l, k, i));
    RoundToZero(x, 2);
    assert Pow10(2) == 100;
    assert Scaled(x, 2) == x * 100.0;
  }

  /** Over extrapolated rows, the note appears exactly when some trend value is at most half a cent. */
  lemma AdviseExtrapolated(l: Line, k: nat, last: Month, horizon: nat)
    requires k >= 1
    ensures Advise(Extrapolate(l, k, last, horizon)) == StopProducing <==>
            exists i :: 1 <= i <= horizon && Projected(l, k, i) <= 0.005
  {
    var ps := Extrapolate(l, k, last, horizon);
    forall j | 0 <= j < horizon
      ensures ps[j].predicted == 0.0 <==> Projected(l, k, j + 1) <= 0.005
    {
      PointShowsZero(l, k, last, j + 1);
    }
    if exists i :: 1 <= i <= horizon && Projected(l, k, i) <= 0.005 {
      var i :| 1 <= i <= horizon && Projected(l, k, i) <= 0.005;
      assert ps[i - 1].predicted == 0.0;
    }
  }

  /**
   The stop-producing note appears exactly when the trend line falls to half
   a cent or below in one of the forecast months. Rounding to cents makes it
   appear for tiny positive trend values too, not only for negative ones.
   */
  lemma StopAdviceThreshold(rows: seq<Order>, category: string, horizon: nat)
    requires 1 <= horizon <= 12
    requires |MonthlySales(rows, category)| >= 2
    ensures var gs := MonthlySales(rows, category);
            var l := Fit(Totals(gs));
            (Advise(ForecastInventory(rows, category, horizon).value) == StopProducing <==>
             exists i :: 1 <= i <= horizon && Projected(l, |gs|, i) <= 0.005)
  {
    ForecastIsExtrapolation(rows, category, horizon);
    AdviseExtrapolated(
      Fit(Totals(MonthlySales(rows, category))), |MonthlySales(rows, category)|,
      MonthlySales(rows, category)[|MonthlySales(rows, category)| - 1].key, horizon);
  }

  /**
   The forecast values come from the least-squares trend: for any line a·t + b
   whose squared error over the monthly sums is minimal, row j shows that line
   at index k+j, negative values shown as 0, rounded to cents.
   */
  lemma ForecastFollowsLeastSquares(rows: seq<Order>, category: string, horizon: nat, a: real, b: real)
    requires 1 <= horizon <= 12
    requires |MonthlySales(rows, category)| >= 2
    requires forall a2, b2 :: SquaredError(Totals(MonthlySales(rows, category)), a, b)
                              <= SquaredError(Totals(MonthlySales(rows, category)), a2, b2)
    ensures var k := |MonthlySales(rows, category)|;
            var ps := ForecastInventory(rows, category, horizon).value;
            forall j :: 0 <= j < horizon ==>
              ps[j].predicted == RoundTo(ClampAtZero(Projected(Line(a, b), k, j + 1)), 2)
  {
    ForecastIsExtrapolation(rows, category, horizon);
    FitIsLeastSquares(Totals(MonthlySales(rows, category)), a, b);
  }

  /**
   The same, with the trend line given by the normal equations of the
   monthly sums: Σ (y_t - (a·t + b)) = 0 and Σ t·(y_t - (a·t + b)) = 0.
   */
  lemma ForecastFollowsNormalEquations(rows: seq<Order>, category: string, horizon: nat, a: real, b: real)
    requires 1 <= horizon <= 12
    requires |MonthlySales(rows, category)| >= 2
    requires SumResiduals(Totals(MonthlySales(rows, category)), a, b) == 0.0
    requires SumIndexResiduals(Totals(MonthlySales(rows, category)), a, b) == 0.0
    ensures var k := |MonthlySales(rows, category)|;
            var ps := ForecastInventory(rows, category, horizon).value;
            forall j :: 0 <= j < horizon ==>
              ps[j].predicted == RoundTo(ClampAtZero(Projected(Line(a, b), k, j + 1)), 2)
  {
    ForecastIsExtrapolation(rows, category, horizon);
    NormalEquationsDetermineFit(Totals(MonthlySales(rows, category)), a, b);
  }

  /** A forecast that exists is the fitted line extrapolated past the last month. */
  lemma ForecastIsExtrapolation(rows: seq<Order>, category: string, horizon: nat)
    requires 1 <= horizon <= 12
    requires |MonthlySales(rows, category)| >= 2
    ensures ForecastInventory(rows, category, horizon) == Some(Extrapolate(
              Fit(Totals(MonthlySales(rows, category))), |MonthlySales(rows, category)|,
              MonthlySales(rows, category)[|MonthlySales(rows, category)| - 1].key, horizon))
  {
  }
}
