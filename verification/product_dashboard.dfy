/**
 The product-catalogue dashboard: the price-range slider, the two KPI
 figures, the per-category price sums, the subcategory drop-down with its
 view, and the recommended stock per category. Slider and drop-down values
 are parameters.
 */
module ProductDashboard {
  import opened Options
  import opened Ordering
  import opened Seqs
  import opened Numeric
  import opened Sums
  import opened Grouping

  /** One catalogue item, with the columns the dashboard reads. */
  datatype Product = Product(name: string, category: string, subcategory: string, price: real)

  function CategoryOf(p: Product): string {
    p.category
  }

  function PriceOf(p: Product): real {
    p.price
  }

  // ---------------------------------------------------------------------------
  // The price slider

  /** `df["price"].min()`: the lowest price of a non-empty catalogue. */
  function MinPrice(ps: seq<Product>): (m: real)
    requires |ps| > 0
    ensures exists i :: 0 <= i < |ps| && ps[i].price == m
    ensures forall i :: 0 <= i < |ps| ==> m <= ps[i].price
    decreases |ps|
  {
    if |ps| == 1 then ps[0].price
    else
      var p := ps[..|ps| - 1];
      var m := MinPrice(p);
      assert forall i :: 0 <= i < |p| ==> p[i] == ps[i];
      if ps[|ps| - 1].price < m then ps[|ps| - 1].price else m
  }

  /** `df["price"].max()`: the highest price of a non-empty catalogue. */
  function MaxPrice(ps: seq<Product>): (m: real)
    requires |ps| > 0
    ensures exists i :: 0 <= i < |ps| && ps[i].price == m
    ensures forall i :: 0 <= i < |ps| ==> ps[i].price <= m
    decreases |ps|
  {
    if |ps| == 1 then ps[0].price
    else
      var p := ps[..|ps| - 1];
      var m := MaxPrice(p);
      assert forall i :: 0 <= i < |p| ==> p[i] == ps[i];
      if ps[|ps| - 1].price > m then ps[|ps| - 1].price else m
  }

  function InPriceRange(lo: real, hi: real): Product -> bool {
    (p: Product) => lo <= p.price <= hi
  }

  /** The products priced within the slider range, both ends included, in catalogue order. */
  function PriceFilter(ps: seq<Product>, lo: real, hi: real): (r: seq<Product>)
    ensures forall p :: p in r <==> p in ps && lo <= p.price <= hi
    ensures IsSubsequence(r, ps)
  {
    Filter(ps, InPriceRange(lo, hi))
  }

  /** The filter keeps every copy of an in-range product and no copy of any other. */
  lemma PriceFilterCounts(ps: seq<Product>, lo: real, hi: real)
    ensures forall p :: multiset(PriceFilter(ps, lo, hi))[p] == if lo <= p.price <= hi then multiset(ps)[p] else 0
  {
    FilterCounts(ps, InPriceRange(lo, hi));
  }

  /** The slider's initial range, from the lowest to the highest price, keeps the whole catalogue. */
  lemma DefaultRangeKeepsAll(ps: seq<Product>)
    requires |ps| > 0
    ensures PriceFilter(ps, MinPrice(ps), MaxPrice(ps)) == ps
  {
    FilterKeepsAll(ps, InPriceRange(MinPrice(ps), MaxPrice(ps)));
  }

  function Max(a: real, b: real): real {
    if a < b then b else a
  }

  function Min(a: real, b: real): real {
    if a < b then a else b
  }

  /** Narrowing the range twice is narrowing once to the overlap of the two ranges. */
  lemma PriceFiltersCompose(ps: seq<Product>, lo: real, hi: real, lo2: real, hi2: real)
    ensures PriceFilter(PriceFilter(ps, lo, hi), lo2, hi2) == PriceFilter(ps, Max(lo, lo2), Min(hi, hi2))
  {
    FilterTwice(ps, InPriceRange(lo, hi), InPriceRange(lo2, hi2), InPriceRange(Max(lo, lo2), Min(hi, hi2)));
  }

  // ---------------------------------------------------------------------------
  // KPIs

  /**
   The two KPI figures: how many products are in range, and their mean price
   rounded to two places. The mean of no prices is NaN, written `None`.
   */
  datatype ProductKpis = ProductKpis(totalProducts: nat, averagePrice: Option<real>)

  function Prices(ps: seq<Product>): (xs: seq<real>)
    ensures |xs| == |ps|
    ensures forall i :: 0 <= i < |ps| ==> xs[i] == ps[i].price
  {
    Map(ps, PriceOf)
  }

  function Kpis(filtered: seq<Product>): (k: ProductKpis)
    ensures k.totalProducts == |filtered|
    ensures k.averagePrice.None? <==> |filtered| == 0
    ensures k.averagePrice.Some? ==> HasPlaces(k.averagePrice.value, 2)
    ensures k.averagePrice.Some? ==>
              -0.5 <= Scaled(k.averagePrice.value, 2) - Scaled(Sum(Prices(filtered)) / |filtered| as real, 2) <= 0.5
  {
    match Mean(Prices(filtered))
    case None => ProductKpis(|filtered|, None)
    case Some(m) => ProductKpis(|filtered|, Some(RoundTo(m, 2)))
  }

  /** With whole-cent slider ends, the average price of a non-empty selection lies within the range. */
  lemma AveragePriceWithinRange(ps: seq<Product>, lo: real, hi: real)
    requires HasPlaces(lo, 2) && HasPlaces(hi, 2)
    requires |PriceFilter(ps, lo, hi)| > 0
    ensures lo <= Kpis(PriceFilter(ps, lo, hi)).averagePrice.value <= hi
  {
    var filtered := PriceFilter(ps, lo, hi);
    forall i | 0 <= i < |filtered|
      ensures lo <= Prices(filtered)[i] <= hi
    {
      assert filtered[i] in filtered;
    }
    MeanWithin(Prices(filtered), lo, hi);
    RoundToWithin(Mean(Prices(filtered)).value, 2, lo, hi);
  }

  // ---------------------------------------------------------------------------
  // Per-category figures

  /**
   Sales per category: one bucket per category in range, categories
   ascending, each the sum of that category's prices.
   */
  function CategorySales(filtered: seq<Product>): (gs: seq<Group<string>>)
    ensures KeysIncreasing(gs, StrLess) && DistinctKeys(gs)
    ensures forall c :: HasKey(gs, c) <==> Occurs(filtered, CategoryOf, c)
    ensures forall i :: 0 <= i < |gs| ==>
              gs[i].total == SumWhere(filtered, CategoryOf, PriceOf, gs[i].key)
              && gs[i].count == CountWhere(filtered, CategoryOf, gs[i].key)
              && gs[i].count > 0
  {
    StrLessIsStrictTotal();
    GroupRows(filtered, CategoryOf, PriceOf, StrLess)
  }

  /** The category sums add up to the sum of all prices in range. */
  lemma CategorySalesAddUp(filtered: seq<Product>)
    ensures GroupsTotal(CategorySales(filtered)) == Sum(Prices(filtered))
  {
    StrLessIsStrictTotal();
    GroupRowsConservesTotal(filtered, CategoryOf, PriceOf, StrLess);
  }

  /** One row of the inventory table: a category, its mean price, and the stock to keep. */
  datatype StockLine = StockLine(category: string, meanPrice: real, recommendedStock: int)

  function StockLineOf(g: Group<string>): (s: StockLine)
    requires g.count > 0
    ensures s.category == g.key
    ensures Times(s.meanPrice, g.count as real) == g.total
    ensures 0.0 <= s.meanPrice ==>
              0 <= s.recommendedStock
              && s.recommendedStock as real <= s.meanPrice * 10.0 < s.recommendedStock as real + 1.0
    ensures s.meanPrice < 0.0 ==>
              s.recommendedStock <= 0
              && s.recommendedStock as real - 1.0 < s.meanPrice * 10.0 <= s.recommendedStock as real
  {
    var mean := g.total / g.count as real;
    StockLine(g.key, mean, Trunc(mean * 10.0))
  }

  /**
   The inventory table: one row per category bucket, in bucket order, with
   the bucket's mean price and ten times that mean cut to a whole number as
   the recommended stock.
   */
  function InventoryRecommendation(filtered: seq<Product>): (lines: seq<StockLine>)
    ensures |lines| == |CategorySales(filtered)|
    ensures forall i :: 0 <= i < |lines| ==>
              lines[i].category == CategorySales(filtered)[i].key
              && Times(lines[i].meanPrice, CategorySales(filtered)[i].count as real) == CategorySales(filtered)[i].total
    ensures forall i :: 0 <= i < |lines| && 0.0 <= lines[i].meanPrice ==>
              0 <= lines[i].recommendedStock
              && lines[i].recommendedStock as real <= lines[i].meanPrice * 10.0 < lines[i].recommendedStock as real + 1.0
    ensures forall i :: 0 <= i < |lines| && lines[i].meanPrice < 0.0 ==>
              lines[i].recommendedStock <= 0
              && lines[i].recommendedStock as real - 1.0 < lines[i].meanPrice * 10.0 <= lines[i].recommendedStock as real
  {
    var gs := CategorySales(filtered);
    seq(|gs|, i requires 0 <= i < |gs| => StockLineOf(gs[i]))
  }

  /**
   The inventory table lists every category in range once, categories
   ascending, and each row's mean price times the category's product count
   is the category's price sum.
   */
  lemma InventoryCoversCategories(filtered: seq<Product>)
    ensures var lines := InventoryRecommendation(filtered);
            forall i, j :: 0 <= i < j < |lines| ==> StrLess(lines[i].category, lines[j].category)
    ensures var lines := InventoryRecommendation(filtered);
            forall c :: (exists i :: 0 <= i < |lines| && lines[i].category == c) <==> Occurs(filtered, CategoryOf, c)
    ensures var lines := InventoryRecommendation(filtered);
            forall i :: 0 <= i < |lines| ==>
              Times(lines[i].meanPrice, CountWhere(filtered, CategoryOf, lines[i].category) as real)
              == SumWhere(filtered, CategoryOf, PriceOf, lines[i].category)
  {
    var gs := CategorySales(filtered);
    var lines := InventoryRecommendation(filtered);
    forall c
      ensures (exists i :: 0 <= i < |lines| && lines[i].category == c) <==> HasKey(gs, c)
    {
      if exists i :: 0 <= i < |lines| && lines[i].category == c {
        var i :| 0 <= i < |lines| && lines[i].category == c;
        assert gs[i].key == c;
      }
      if HasKey(gs, c) {
        var i :| 0 <= i < |gs| && gs[i].key == c;
        assert lines[i].category == c;
      }
    }
  }

  /**
   When every price in range lies in [lo, hi] with lo >= 0, each category's
   recommended stock lies between 10·lo - 1 (exclusive) and 10·hi.
   */
  lemma RecommendedStockWithinPrices(filtered: seq<Product>, lo: real, hi: real)
    requires 0.0 <= lo
    requires forall i :: 0 <= i < |filtered| ==> lo <= filtered[i].price <= hi
    ensures forall i :: 0 <= i < |InventoryRecommendation(filtered)| ==>
              lo * 10.0 - 1.0 < InventoryRecommendation(filtered)[i].recommendedStock as real <= hi * 10.0
  {
    var lines := InventoryRecommendation(filtered);
    InventoryCoversCategories(filtered);
    forall i | 0 <= i < |lines|
      ensures lo * 10.0 - 1.0 < lines[i].recommendedStock as real <= hi * 10.0
    {
      var c := lines[i].category;
      var n := CountWhere(filtered, CategoryOf, c);
      SumWhereBounds(filtered, CategoryOf, PriceOf, c, lo, hi);
      assert Occurs(filtered, CategoryOf, c);
      CountWhereOccurs(filtered, CategoryOf, c);
      MeanFromTimes(lines[i].meanPrice, n as real, SumWhere(filtered, CategoryOf, PriceOf, c), lo, hi);
    }
  }

  /** If m·n equals a sum that lies between n·lo and n·hi, with n > 0, then lo <= m <= hi. */
  lemma MeanFromTimes(m: real, n: real, s: real, lo: real, hi: real)
    requires n > 0.0 && Times(m, n) == s
    requires Times(lo, n) <= s <= Times(hi, n)
    ensures lo <= m <= hi
  {
    QuotientWithin(s, n, lo, hi);
    assert s / n == m;
  }

  // ---------------------------------------------------------------------------
  // Subcategories

  /** `Series.unique()`: each value once, in order of first appearance. */
  function Unique(xs: seq<string>): (u: seq<string>)
    ensures forall i, j :: 0 <= i < j < |u| ==> u[i] != u[j]
    ensures forall x :: x in u <==> x in xs
    decreases |xs|
  {
    if |xs| == 0 then []
    else
      var rest := Unique(xs[..|xs| - 1]);
      assert xs == xs[..|xs| - 1] + [xs[|xs| - 1]];
      if xs[|xs| - 1] in rest then rest else rest + [xs[|xs| - 1]]
  }

  /** `unique()` lists the values in order of their first appearance. */
  lemma {:induction false} UniqueKeepsFirstAppearanceOrder(xs: seq<string>)
    ensures forall i, j :: 0 <= i < j < |Unique(xs)| ==> SeenFirst(xs, Unique(xs)[i], Unique(xs)[j])
    decreases |xs|
  {
    if |xs| > 0 {
      var p := xs[..|xs| - 1];
      var x := xs[|xs| - 1];
      var rest := Unique(p);
      var u := Unique(xs);
      UniqueKeepsFirstAppearanceOrder(p);
      forall i, j | 0 <= i < j < |u|
        ensures SeenFirst(xs, u[i], u[j])
      {
        if j < |rest| {
          assert SeenFirst(p, rest[i], rest[j]);
          var q :| 0 <= q < |p| && p[q] == rest[i] && rest[j] !in p[..q];
          assert xs[..q] == p[..q];
        } else {
          assert u == rest + [x] && u[j] == x && x !in p;
          assert rest[i] in p;
          var q :| 0 <= q < |p| && p[q] == rest[i];
          assert xs[..q] == p[..q];
          assert forall y :: y in p[..q] ==> y in p;
        }
      }
    }
  }

  function SubcategoryOf(p: Product): string {
    p.subcategory
  }

  /** The subcategory drop-down: every subcategory in range, once each. */
  function SubcategoryOptions(filtered: seq<Product>): (subs: seq<string>)
    ensures forall i, j :: 0 <= i < j < |subs| ==> subs[i] != subs[j]
    ensures forall s :: s in subs <==> exists i :: 0 <= i < |filtered| && filtered[i].subcategory == s
    ensures forall i, j :: 0 <= i < j < |subs| ==> SeenFirst(Map(filtered, SubcategoryOf), subs[i], subs[j])
  {
    var column := Map(filtered, SubcategoryOf);
    assert forall s :: s in column <==> exists i :: 0 <= i < |filtered| && filtered[i].subcategory == s;
    UniqueKeepsFirstAppearanceOrder(column);
    Unique(column)
  }

  function InSubcategory(sub: string): Product -> bool {
    (p: Product) => p.subcategory == sub
  }

  /** The products of the picked subcategory, taken from the products in range, in order. */
  function SubcategoryView(filtered: seq<Product>, sub: string): (r: seq<Product>)
    ensures forall p :: p in r <==> p in filtered && p.subcategory == sub
    ensures IsSubsequence(r, filtered)
  {
    Filter(filtered, InSubcategory(sub))
  }

  /** The subcategory view keeps every copy of a product of that subcategory and no copy of any other. */
  lemma SubcategoryViewCounts(filtered: seq<Product>, sub: string)
    ensures forall p :: multiset(SubcategoryView(filtered, sub))[p]
              == if p.subcategory == sub then multiset(filtered)[p] else 0
  {
    FilterCounts(filtered, InSubcategory(sub));
  }

  /** A subcategory view never shows a product outside the price range. */
  lemma SubcategoryViewInRange(ps: seq<Product>, lo: real, hi: real, sub: string)
    ensures forall p :: p in SubcategoryView(PriceFilter(ps, lo, hi), sub) ==>
              p in ps && lo <= p.price <= hi && p.subcategory == sub
  {
  }
}
