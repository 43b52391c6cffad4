/**
 The order-data dashboard: the city and date filter of the sidebar, the three
 KPI figures, and the grouped series behind its charts (sales per product
 line, sales per calendar day, and the category drop-down with its daily
 series). Widget values (picked cities, picked dates, picked category) are
 parameters.
 */
module SalesDashboard {
  import opened Options
  import opened Ordering
  import opened Seqs
  import opened Calendar
  import opened Numeric
  import opened Sums
  import opened Grouping

  /**
   The columns of one order row that the dashboard reads. A missing review
   score (NaN in the table) is `None`.
   */
  datatype Order = Order(
    city: string,
    category: string,
    purchased: Timestamp,
    totalPrice: real,
    reviewScore: Option<real>)

  function CategoryOf(o: Order): string {
    o.category
  }

  function PriceOf(o: Order): real {
    o.totalPrice
  }

  /** `.dt.date` of the purchase timestamp. */
  function DayOf(o: Order): Date {
    DateOf(o.purchased)
  }

  // ---------------------------------------------------------------------------
  // The sidebar filter

  /** The bounds the filter compares purchase timestamps with, both inclusive. */
  datatype Window = Window(start: Timestamp, end: Timestamp)

  /**
   The picked dates as timestamps: midnight of the first and of the last
   picked date. A single picked date is used as both ends.
   */
  function PickedWindow(picked: seq<Date>): (w: Window)
    requires 1 <= |picked| <= 2
    ensures w.start.date == picked[0] && w.start.second == 0
    ensures w.end.date == picked[|picked| - 1] && w.end.second == 0
  {
    if |picked| == 1 then Window(Midnight(picked[0]), Midnight(picked[0]))
    else Window(Midnight(picked[0]), Midnight(picked[1]))
  }

  predicate InWindow(t: Timestamp, w: Window) {
    TimestampLessEq(w.start, t) && TimestampLessEq(t, w.end)
  }

  /** The row mask used when at least one city is picked. */
  function Selector(cities: seq<string>, w: Window): Order -> bool {
    (o: Order) => o.city in cities && InWindow(o.purchased, w)
  }

  /**
   The sidebar filter. With no city picked every row is shown and the dates
   are not looked at; otherwise a row is kept when its city is picked and it
   was purchased between the two midnights, both included.
   */
  function FilterOrders(rows: seq<Order>, cities: seq<string>, picked: seq<Date>): (r: seq<Order>)
    requires |picked| <= 2 && (|cities| > 0 ==> 1 <= |picked|)
    ensures |cities| == 0 ==> r == rows
    ensures |cities| > 0 ==> forall o :: o in r <==>
              o in rows && o.city in cities && InWindow(o.purchased, PickedWindow(picked))
    ensures IsSubsequence(r, rows)
  {
    if |cities| == 0 then
      SubsequenceReflexive(rows);
      rows
    else
      Filter(rows, Selector(cities, PickedWindow(picked)))
  }

  /** The filter keeps every copy of a selected row and no copy of any other. */
  lemma FilterOrdersCounts(rows: seq<Order>, cities: seq<string>, picked: seq<Date>)
    requires 1 <= |picked| <= 2 && |cities| > 0
    ensures forall o :: multiset(FilterOrders(rows, cities, picked))[o]
              == if o.city in cities && InWindow(o.purchased, PickedWindow(picked)) then multiset(rows)[o] else 0
  {
    FilterCounts(rows, Selector(cities, PickedWindow(picked)));
  }

  /** Filtering the filtered view again with the same choices changes nothing. */
  lemma FilterOrdersIdempotent(rows: seq<Order>, cities: seq<string>, picked: seq<Date>)
    requires |picked| <= 2 && (|cities| > 0 ==> 1 <= |picked|)
    ensures FilterOrders(FilterOrders(rows, cities, picked), cities, picked) == FilterOrders(rows, cities, picked)
  {
    if |cities| > 0 {
      FilterIdempotent(rows, Selector(cities, PickedWindow(picked)));
    }
  }

  /**
   A single picked date bounds the window by that date's midnight on both
   sides: only rows purchased exactly at midnight survive, and any row later
   that day is dropped.
   */
  lemma SingleDateKeepsOnlyMidnight(rows: seq<Order>, cities: seq<string>, d: Date)
    requires |cities| > 0
    ensures forall o :: o in FilterOrders(rows, cities, [d]) ==> o.purchased == Midnight(d)
    ensures forall o :: o in rows && o.purchased.second > 0 ==> o !in FilterOrders(rows, cities, [d])
  {
  }

  /** An end date before the start date selects nothing (once a city is picked). */
  lemma ReversedDatesSelectNothing(rows: seq<Order>, cities: seq<string>, start: Date, end: Date)
    requires |cities| > 0 && DateLess(end, start)
    ensures FilterOrders(rows, cities, [start, end]) == []
  {
    var w := PickedWindow([start, end]);
    forall i | 0 <= i < |rows|
      ensures !Selector(cities, w)(rows[i])
    {
      TimestampLessEqTransitive(w.start, rows[i].purchased, w.end);
    }
    FilterDropsAll(rows, Selector(cities, w));
  }

  // ---------------------------------------------------------------------------
  // KPIs

  /** Whether the table has the `total_price` and `review_score` columns. */
  datatype Schema = Schema(hasTotalPrice: bool, hasReviewScore: bool)

  /** Total sales, average rating and average sale per order, as displayed. */
  datatype Kpis = Kpis(totalSales: int, averageRating: real, averageSale: real)

  function Prices(rows: seq<Order>): (ps: seq<real>)
    ensures |ps| == |rows|
    ensures forall i :: 0 <= i < |rows| ==> ps[i] == rows[i].totalPrice
  {
    Map(rows, PriceOf)
  }

  function ScoreOf(o: Order): Option<real> {
    o.reviewScore
  }

  /**
   The review scores that are present, in row order (`mean()` skips NaN):
   each score as many times as rows carry it.
   */
  function Ratings(rows: seq<Order>): (rs: seq<real>)
    ensures |rs| <= |rows|
    ensures forall x :: x in rs <==> exists i :: 0 <= i < |rows| && rows[i].reviewScore == Some(x)
    ensures forall x :: multiset(rs)[x] == CountWhere(rows, ScoreOf, Some(x))
    decreases |rows|
  {
    if |rows| == 0 then []
    else
      var p := rows[..|rows| - 1];
      var rest := Ratings(p);
      assert forall i :: 0 <= i < |p| ==> p[i] == rows[i];
      match rows[|rows| - 1].reviewScore
      case None => rest
      case Some(x) => rest + [x]
  }

  /** `round(mean, places)`, with the NaN of an empty mean shown as 0. */
  function RoundedMeanOrZero(ys: seq<real>, places: nat): (r: real)
    ensures |ys| == 0 ==> r == 0.0
    ensures HasPlaces(r, places)
    ensures |ys| > 0 ==> -0.5 <= Scaled(r, places) - Scaled(Sum(ys) / |ys| as real, places) <= 0.5
  {
    match Mean(ys)
    case None =>
      assert Scaled(0.0, places) == 0.0;
      0.0
    case Some(m) => RoundTo(m, places)
  }

  /**
   The three KPI figures. A missing column shows 0; total sales is the price
   sum cut to a whole number; the averages are rounded to one and two places,
   and an average over no values shows 0.
   */
  function DisplayKpis(rows: seq<Order>, schema: Schema): (k: Kpis)
    ensures |rows| == 0 ==> k == Kpis(0, 0.0, 0.0)
    ensures !schema.hasTotalPrice ==> k.totalSales == 0 && k.averageSale == 0.0
    ensures !schema.hasReviewScore ==> k.averageRating == 0.0
    ensures HasPlaces(k.averageRating, 1) && HasPlaces(k.averageSale, 2)
    ensures schema.hasTotalPrice && 0.0 <= Sum(Prices(rows)) ==>
              0 <= k.totalSales && k.totalSales as real <= Sum(Prices(rows)) < k.totalSales as real + 1.0
    ensures schema.hasTotalPrice && Sum(Prices(rows)) < 0.0 ==>
              k.totalSales <= 0 && k.totalSales as real - 1.0 < Sum(Prices(rows)) <= k.totalSales as real
    ensures schema.hasTotalPrice && |rows| > 0 ==>
              -0.5 <= Scaled(k.averageSale, 2) - Scaled(Sum(Prices(rows)) / |rows| as real, 2) <= 0.5
    ensures schema.hasReviewScore && |Ratings(rows)| > 0 ==>
              -0.5 <= Scaled(k.averageRating, 1) - Scaled(Sum(Ratings(rows)) / |Ratings(rows)| as real, 1) <= 0.5
  {
    var totalSales := if schema.hasTotalPrice then Trunc(Sum(Prices(rows))) else 0;
    var averageRating := if schema.hasReviewScore then RoundedMeanOrZero(Ratings(rows), 1) else 0.0;
    var averageSale := if schema.hasTotalPrice then RoundedMeanOrZero(Prices(rows), 2) else 0.0;
    assert Scaled(0.0, 1) == 0.0 && Scaled(0.0, 2) == 0.0;
    Kpis(totalSales, averageRating, averageSale)
  }

  /**
   With review scores on the 1 to 5 scale, the average rating shows 0 exactly
   when there is no score to average, and otherwise lies on the scale.
   */
  lemma AverageRatingOnScale(rows: seq<Order>, schema: Schema)
    requires forall i, x :: 0 <= i < |rows| && rows[i].reviewScore == Some(x) ==> 1.0 <= x <= 5.0
    ensures DisplayKpis(rows, schema).averageRating == 0.0 <==> !schema.hasReviewScore || |Ratings(rows)| == 0
    ensures DisplayKpis(rows, schema).averageRating != 0.0 ==> 1.0 <= DisplayKpis(rows, schema).averageRating <= 5.0
  {
    var rs := Ratings(rows);
    if schema.hasReviewScore && |rs| > 0 {
      forall j | 0 <= j < |rs|
        ensures 1.0 <= rs[j] <= 5.0
      {
        assert rs[j] in rs;
      }
      MeanWithin(rs, 1.0, 5.0);
      assert Scaled(1.0, 1) == 10.0 && Scaled(5.0, 1) == 50.0;
      RoundToWithin(Mean(rs).value, 1, 1.0, 5.0);
    }
  }

  /** With prices between two whole-cent bounds, so is the average sale. */
  lemma AverageSaleWithinPrices(rows: seq<Order>, schema: Schema, lo: real, hi: real)
    requires schema.hasTotalPrice && |rows| > 0
    requires HasPlaces(lo, 2) && HasPlaces(hi, 2)
    requires forall i :: 0 <= i < |rows| ==> lo <= rows[i].totalPrice <= hi
    ensures lo <= DisplayKpis(rows, schema).averageSale <= hi
  {
    MeanWithin(Prices(rows), lo, hi);
    RoundToWithin(Mean(Prices(rows)).value, 2, lo, hi);
  }

  // ---------------------------------------------------------------------------
  // Charts

  /**
   Sales per product line: one bar per category present, its value the sum of
   that category's prices, bars in ascending order of value.
   */
  function SalesByProductLine(rows: seq<Order>): (gs: seq<Group<string>>)
    ensures SortedByTotal(gs) && DistinctKeys(gs)
    ensures forall c :: HasKey(gs, c) <==> Occurs(rows, CategoryOf, c)
    ensures forall i :: 0 <= i < |gs| ==> gs[i].total == SumWhere(rows, CategoryOf, PriceOf, gs[i].key)
  {
    StrLessIsStrictTotal();
    var grouped := GroupRows(rows, CategoryOf, PriceOf, StrLess);
    SortKeepsKeysDistinct(grouped);
    SortKeepsBuckets(grouped);
    SortByTotal(grouped)
  }

  /** The product-line bars add up to the view's total sales. */
  lemma ProductLinesAddUp(rows: seq<Order>)
    ensures GroupsTotal(SalesByProductLine(rows)) == Sum(Prices(rows))
  {
    StrLessIsStrictTotal();
    GroupRowsConservesTotal(rows, CategoryOf, PriceOf, StrLess);
    SortKeepsTotal(GroupRows(rows, CategoryOf, PriceOf, StrLess));
  }

  /**
   Sales per calendar day: one bar per day that has an order and none for
   days without, days strictly ascending, each the sum of that day's prices.
   */
  function DailySales(rows: seq<Order>): (gs: seq<Group<Date>>)
    ensures KeysIncreasing(gs, DateLess)
    ensures forall d :: HasKey(gs, d) <==> Occurs(rows, DayOf, d)
    ensures forall i :: 0 <= i < |gs| ==> gs[i].total == SumWhere(rows, DayOf, PriceOf, gs[i].key)
    ensures |gs| == 0 <==> |rows| == 0
  {
    DateLessIsStrictTotal();
    GroupRows(rows, DayOf, PriceOf, DateLess)
  }

  /** The daily bars add up to the view's total sales. */
  lemma DailySalesAddUp(rows: seq<Order>)
    ensures GroupsTotal(DailySales(rows)) == Sum(Prices(rows))
  {
    DateLessIsStrictTotal();
    GroupRowsConservesTotal(rows, DayOf, PriceOf, DateLess);
  }

  datatype Charts = Charts(productLines: seq<Group<string>>, daily: seq<Group<Date>>)

  /** The two charts, or nothing (a warning instead) when the view is empty. */
  function PlotCharts(rows: seq<Order>): (c: Option<Charts>)
    ensures c.None? <==> |rows| == 0
    ensures c.Some? ==> |c.value.productLines| > 0 && |c.value.daily| > 0
  {
    if |rows| == 0 then None
    else
      var lines := SalesByProductLine(rows);
      assert Occurs(rows, CategoryOf, CategoryOf(rows[0]));
      assert HasKey(lines, CategoryOf(rows[0]));
      Some(Charts(lines, DailySales(rows)))
  }

  /** The category drop-down: the categories present, each once, in ascending order. */
  function CategoryOptions(rows: seq<Order>): (cs: seq<string>)
    ensures forall i, j :: 0 <= i < j < |cs| ==> StrLess(cs[i], cs[j])
    ensures forall c :: c in cs <==> Occurs(rows, CategoryOf, c)
  {
    StrLessIsStrictTotal();
    var gs := GroupRows(rows, CategoryOf, PriceOf, StrLess);
    var cs := Keys(gs);
    forall c
      ensures c in cs <==> HasKey(gs, c)
    {
      if c in cs {
        var i :| 0 <= i < |cs| && cs[i] == c;
        assert gs[i].key == c;
      }
      if HasKey(gs, c) {
        var i :| 0 <= i < |gs| && gs[i].key == c;
        assert cs[i] == c;
      }
    }
    cs
  }

  function InCategory(category: string): Order -> bool {
    (o: Order) => o.category == category
  }

  /** The rows of one category, in their original order. */
  function CategoryRows(rows: seq<Order>, category: string): (r: seq<Order>)
    ensures forall o :: o in r <==> o in rows && o.category == category
    ensures IsSubsequence(r, rows)
  {
    Filter(rows, InCategory(category))
  }

  /** The category view keeps every copy of a row of that category and no copy of any other. */
  lemma CategoryRowsCounts(rows: seq<Order>, category: string)
    ensures forall o :: multiset(CategoryRows(rows, category))[o]
              == if o.category == category then multiset(rows)[o] else 0
  {
    FilterCounts(rows, InCategory(category));
  }

  /**
   The daily series of the picked category: one bar per day on which that
   category sold, days ascending, each the sum of that category's prices that
   day.
   */
  function CategoryDailySales(rows: seq<Order>, category: string): (gs: seq<Group<Date>>)
    ensures KeysIncreasing(gs, DateLess)
    ensures forall d :: HasKey(gs, d) <==>
              exists i :: 0 <= i < |rows| && rows[i].category == category && DayOf(rows[i]) == d
    ensures forall i :: 0 <= i < |gs| ==>
              gs[i].total == SumWhere(CategoryRows(rows, category), DayOf, PriceOf, gs[i].key)
  {
    forall d
      ensures Occurs(CategoryRows(rows, category), DayOf, d) <==>
              exists i :: 0 <= i < |rows| && rows[i].category == category && DayOf(rows[i]) == d
    {
      OccursInCategory(rows, category, DayOf, d);
    }
    DailySales(CategoryRows(rows, category))
  }

  /** A key occurs among a category's rows exactly when some row of that category has it. */
  lemma OccursInCategory<K>(rows: seq<Order>, category: string, key: Order -> K, k: K)
    ensures Occurs(CategoryRows(rows, category), key, k) <==>
            exists i :: 0 <= i < |rows| && rows[i].category == category && key(rows[i]) == k
  {
    var sub := CategoryRows(rows, category);
    if Occurs(sub, key, k) {
      var j :| 0 <= j < |sub| && key(sub[j]) == k;
      assert sub[j] in rows;
    }
    if exists i :: 0 <= i < |rows| && rows[i].category == category && key(rows[i]) == k {
      var i :| 0 <= i < |rows| && rows[i].category == category && key(rows[i]) == k;
      assert rows[i] in sub;
    }
  }
}
