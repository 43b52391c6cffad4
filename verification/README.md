# Sales and catalogue dashboards, modelled in Dafny

This project models the data pipeline of two Streamlit dashboards in Dafny 4.11. The first is an order dashboard (`backend/dashboard.py`) and the second a product-catalogue dashboard (`backend/dashboard1.py`). Both start from an in-memory table of records. The widget choices arrive as parameters:

- the picked cities;
- the picked dates;
- the picked category or subcategory;
- the price slider;
- the forecast horizon.

The rest of the pipeline is pure functions over sequences.

**The order dashboard (`SalesDashboard`, `Forecast`).**

- **Sidebar filter.** With no city picked, every row is kept and the dates are ignored. Otherwise a row is kept when its city is picked and its purchase time lies between the midnights of the first and the last picked date.
- **KPI figures.** There are three:
  - total sales, which is the price sum truncated toward zero;
  - the average rating, rounded to 1 place;
  - the average sale, rounded to 2 places.
  A missing column or an empty mean shows 0.
- **Grouped series.** Sales per product line are sorted by value. Sales per calendar day are in date order. The category drop-down and the daily series of the picked category complete this group.
- **Inventory forecast.** The picked category's sales are summed per month. A least-squares line is fitted over the month indices 0..k-1 and extrapolated `horizon` months ahead. Each value is clamped at 0, rounded to cents and labelled `YYYY-MM`.
- **Note under the forecast table.** The note advising to stop producing appears when some forecast month shows 0.

**The catalogue dashboard (`ProductDashboard`).**

- the inclusive price-range filter and its default range;
- the product count and the mean price rounded to cents;
- the per-category price sums;
- the subcategory drop-down and its view;
- the recommended stock per category, which is ten times the category's mean price, truncated.

**Supporting modules.**

- `Seqs`: filtering as an order-preserving subsequence.
- `Sums`: sums and means.
- `Grouping`: a generic `groupby(...).sum()` with ascending keys, and the stable sort by value.
- `Regression`: the exact least-squares line.
- `Numeric`: truncation and half-even decimal rounding.
- `Calendar`: dates, timestamps, months, month arithmetic, and the `YYYY-MM` label with its parser.
- `Ordering`: the strict total orders used for sorting.

Prices are exact rationals (`real`). A missing review score (NaN) is `None`, and so is the mean of an empty column.

## Model

| member | source | states |
|---|---|---|
| SalesDashboard.PickedWindow | backend/dashboard.py:41-43 | The window runs from midnight of the first picked date to midnight of the last. A single picked date is used for both ends. |
| SalesDashboard.FilterOrders | backend/dashboard.py:46-55 | With no city picked, the result is the whole table and the dates are not consulted. Otherwise a row is kept iff its city is picked and start <= purchase time <= end. The result is always an order-preserving subsequence of the table. |
| SalesDashboard.FilterOrdersCounts | backend/dashboard.py:47-51 | Each kept row keeps all of its copies, and every other row loses all of its copies. |
| SalesDashboard.FilterOrdersIdempotent | backend/dashboard.py:46-55 | Filtering the filtered view again with the same choices returns the same view. |
| SalesDashboard.SingleDateKeepsOnlyMidnight | backend/dashboard.py:41-50 | With one picked date and some city picked, only rows purchased exactly at that midnight survive. Any later time that day is dropped. |
| SalesDashboard.ReversedDatesSelectNothing | backend/dashboard.py:47-51 | An end date before the start date yields an empty view once a city is picked. |
| SalesDashboard.Ratings | backend/dashboard.py:59 | The scores averaged are exactly the present (non-NaN) review scores. Each score appears as many times as rows carry it. |
| SalesDashboard.RoundedMeanOrZero | backend/dashboard.py:59-64 | The mean of no values shows 0. Otherwise the result has the given number of decimals and lies within half a unit of the mean, sum / count. |
| SalesDashboard.DisplayKpis | backend/dashboard.py:58-64 | An empty view gives (0, 0, 0). A missing price column zeroes total sales and the average sale. A missing score column zeroes the rating. Total sales is the price sum truncated toward zero, for either sign: n <= sum < n + 1 when the sum is non-negative, and n - 1 < sum <= n when it is negative. The averages have 1 and 2 places and lie within half a unit of the true means. |
| SalesDashboard.AverageRatingOnScale | backend/dashboard.py:59-63 | With scores on the 1–5 scale, the rating shows 0 iff the column is missing or no score is present. Otherwise it lies in [1, 5]. |
| SalesDashboard.AverageSaleWithinPrices | backend/dashboard.py:60 | With prices within whole-cent bounds, the average sale lies within the same bounds. |
| SalesDashboard.SalesByProductLine | backend/dashboard.py:89 | There is one bar per category present and no other, with distinct keys. Each value is that category's price sum. Bars are in non-decreasing order of value. |
| SalesDashboard.ProductLinesAddUp | backend/dashboard.py:89 | The product-line bars add up to the sum of all prices in the view. |
| SalesDashboard.DailySales | backend/dashboard.py:102-103 | There is one bar per calendar day with an order and none for other days. Days are strictly ascending. Each value is that day's price sum. The series is empty iff the view is. |
| SalesDashboard.DailySalesAddUp | backend/dashboard.py:103 | The daily bars add up to the sum of all prices in the view. |
| SalesDashboard.PlotCharts | backend/dashboard.py:84-103 | There are no charts (the warning instead) iff the view is empty. Otherwise both series are non-empty. |
| SalesDashboard.CategoryOptions | backend/dashboard.py:126 | Each category present appears exactly once, in strictly ascending order. |
| SalesDashboard.CategoryRows | backend/dashboard.py:130 | A row is kept iff it has the picked category. The order is preserved. |
| SalesDashboard.CategoryRowsCounts | backend/dashboard.py:130 | Each row of the picked category keeps all its copies, and rows of other categories keep none. |
| SalesDashboard.CategoryDailySales | backend/dashboard.py:130-134 | There is one bar per day on which the picked category sold, with days ascending. Each value is the category's price sum that day. |
| SalesDashboard.OccursInCategory | backend/dashboard.py:130 | A key occurs among a category's rows iff some row of that category has it. |
| Forecast.MonthlySales | backend/dashboard.py:157-164 | There is one bucket per month in which the category sold, months strictly ascending. Each bucket holds the category's price sum that month. |
| Forecast.Totals | backend/dashboard.py:172-173 | The fitted y values are the bucket totals in month order. |
| Forecast.ClampAtZero | backend/dashboard.py:186-187 | A negative prediction becomes exactly 0, and a non-negative one is kept unchanged. |
| Forecast.PointAt | backend/dashboard.py:183-192 | The row i months after the last bucket has month index last + i and a label that parses back to that month. For a year below 10000 the label is exactly seven characters, four digits, a dash and two digits. Its value is non-negative, has whole cents, and lies within half a cent of the trend value at index k-1+i clamped at 0. |
| Forecast.Extrapolate | backend/dashboard.py:182-192 | There are exactly `horizon` rows. Row j is month last+j+1, and its label parses back to that month. For a year below 10000 the label has the `YYYY-MM` shape. Its value is non-negative with whole cents, within half a cent of the trend value at index k+j clamped at 0. |
| Forecast.ForecastInventory | backend/dashboard.py:155-195 | There is no forecast iff fewer than two months have sales. Otherwise there are exactly `horizon` rows. Each is non-negative with whole cents. Its label parses back to its month, and for a year below 10000 it has the `YYYY-MM` shape. |
| Forecast.NoSalesNoForecast | backend/dashboard.py:157-160 | A category with no rows gets no forecast. |
| Forecast.OneMonthNoForecast | backend/dashboard.py:166-168 | A category whose rows all fall in one month gets no forecast. |
| Forecast.ForecastMonthsFollowHistory | backend/dashboard.py:179-188 | Row j is month last+j+1. The rows are strictly ascending and all later than every month with sales. |
| Forecast.ForecastExtendsExactTrend | backend/dashboard.py:171-191 | When the monthly sums lie exactly on a·t+b, row j shows that line at index k+j, clamped and rounded to cents. |
| Forecast.ForecastFollowsLeastSquares | backend/dashboard.py:171-191 | For any line a·t+b of minimal squared error over the monthly sums, row j shows that line at index k+j, clamped at 0 and rounded to cents. |
| Forecast.ForecastFollowsNormalEquations | backend/dashboard.py:171-191 | For the line a·t+b that solves the normal equations of the monthly sums, row j shows that line at index k+j, clamped at 0 and rounded to cents. |
| Forecast.Advise | backend/dashboard.py:215 | The stop-producing note is chosen iff some forecast row shows exactly 0. |
| Forecast.PointShowsZero | backend/dashboard.py:185-191 | A forecast row shows 0 iff its trend value is at most half a cent. |
| Forecast.AdviseExtrapolated | backend/dashboard.py:182-215 | Over extrapolated rows, the note appears iff some trend value among months 1..horizon is at most 0.005. |
| Forecast.StopAdviceThreshold | backend/dashboard.py:171-215 | For a category with a forecast, the note appears iff the fitted trend is at most half a cent in some forecast month. This includes small positive trend values. |
| Regression.FitSolvesNormalEquations | backend/dashboard.py:173 | The fitted line satisfies both normal equations: Σ residuals = 0 and Σ t·residual = 0. |
| Regression.FitIsLeastSquares | backend/dashboard.py:173 | No line has a smaller squared error than the fitted one. A line with equal error is the fitted line, so the minimiser is unique. |
| Regression.NormalEquationsDetermineFit | backend/dashboard.py:173 | A line whose residuals satisfy both normal equations is the fitted line, so the equations have exactly one solution. |
| Regression.FitRecoversExactLine | backend/dashboard.py:173 | Points lying exactly on a·t+b are fitted by exactly that line. |
| Regression.DeterminantPositive | backend/dashboard.py:166-173 | With at least two points, the determinant of the normal equations k·Σt² − (Σt)² is positive, so the fit is well defined. |
| Regression.SolveSatisfiesNormalEquations | backend/dashboard.py:173 | The closed-form slope and intercept solve the two normal equations whenever the determinant is non-zero. |
| Regression.SquaredErrorSplit | backend/dashboard.py:173 | The squared error of any line equals the fitted error, minus twice the cross term, plus the squared error of the difference line. |
| Numeric.Trunc | backend/dashboard.py:58 | `int()` of a number: truncation toward zero, within one of the input on the side of zero. |
| Numeric.RoundHalfEven | backend/dashboard.py:191 | The nearest integer, and the even one on a tie. |
| Numeric.RoundTo | backend/dashboard.py:191 | `round(x, places)`: the result has `places` decimals, lies within half a unit of x, and is non-negative for non-negative x. Scaled by 10^places, it is the half-even rounding of the scaled x, so ties go to the even neighbour. |
| Numeric.RoundToIdempotent | backend/dashboard.py:191 | Rounding a rounded value changes nothing. |
| Numeric.RoundToExact | backend/dashboard.py:191 | A value that already has `places` decimals is unchanged by rounding. |
| Numeric.RoundToWithin | backend/dashboard.py:60 | Rounding never leaves an interval whose ends have `places` decimals. |
| Numeric.RoundToZero | backend/dashboard.py:191 | A non-negative value rounds to 0 iff it is at most half a unit of the last place. |
| Sums.Mean | backend/dashboard.py:60 | `mean()` is defined iff the column is non-empty, and then mean·count = sum. |
| Sums.MeanWithin | backend/dashboard.py:60 | The mean of values within [lo, hi] lies within [lo, hi]. |
| Sums.SumNonNegative | backend/dashboard.py:58 | A column of non-negative prices has a non-negative sum, so total sales is then its whole part (the non-negative branch of the truncation DisplayKpis states). |
| Sums.SumBounds | backend/dashboard.py:58 | A column of n values within [lo, hi] sums to between n·lo and n·hi. |
| Seqs.Filter | backend/dashboard.py:47-51 | Boolean-mask selection: exactly the rows passing the mask, as an order-preserving subsequence. |
| Seqs.FilterCounts | backend/dashboard.py:47-51 | Each row passing the mask keeps all its copies, and each other row loses all of them. |
| Seqs.FilterIdempotent | backend/dashboard.py:47-51 | Applying the same mask twice is applying it once. |
| Grouping.GroupRows | backend/dashboard.py:103 | `groupby(key)[val].sum()`: there is one bucket per key present, keys strictly ascending. Each bucket's total is the reference sum over that key's rows, and its count is the number of those rows. |
| Grouping.GroupRowsConservesTotal | backend/dashboard.py:103 | The bucket totals add up to the column sum. |
| Grouping.SortByTotal | backend/dashboard.py:89 | `sort_values()`: the result is non-decreasing by value and a permutation of its input. |
| Grouping.SortKeepsTotal | backend/dashboard.py:89 | Sorting keeps the sum of the values. |
| Grouping.SumWhereBounds | backend/dashboard1.py:48 | With values within [lo, hi], a key's sum lies between count·lo and count·hi. |
| Calendar.Midnight | backend/dashboard.py:41 | `pd.Timestamp(date)` is that date's first instant: no time that day precedes it. |
| Calendar.MonthOf | backend/dashboard.py:163 | The month bucket of a timestamp has its year and month. |
| Calendar.AddMonths | backend/dashboard.py:188 | Adding i months moves the month index forward by exactly i. |
| Calendar.AddMonthsRollsOver | backend/dashboard.py:188 | Within the year the month number grows. Past December, the year increases by one and the month wraps. |
| Calendar.AddMonthsMonotone | backend/dashboard.py:188 | Adding more months gives a strictly later month, and conversely. |
| Calendar.MonthLabel | backend/dashboard.py:188 | `strftime("%Y-%m")`: for every year below 10000 the label is seven characters, four digits, a dash and two digits. |
| Calendar.MonthLabelRoundTrip | backend/dashboard.py:188 | Parsing the `YYYY-MM` label of a month gives that month back. |
| Calendar.MonthLabelInjective | backend/dashboard.py:188 | Different months get different labels. |
| Calendar.DateLessIsStrictTotal | backend/dashboard.py:103 | Date order is a strict total order, so daily keys sort uniquely. |
| Ordering.StrLessIsStrictTotal | backend/dashboard.py:126 | String order is a strict total order, so category keys sort uniquely. |
| ProductDashboard.MinPrice | backend/dashboard1.py:19 | The lowest price of a non-empty catalogue: it is some product's price and at most every price. |
| ProductDashboard.MaxPrice | backend/dashboard1.py:19 | The highest price of a non-empty catalogue: it is some product's price and at least every price. |
| ProductDashboard.PriceFilter | backend/dashboard1.py:21 | A product is kept iff lo <= price <= hi. The order is preserved. |
| ProductDashboard.PriceFilterCounts | backend/dashboard1.py:21 | In-range products keep all their copies, and others keep none. |
| ProductDashboard.DefaultRangeKeepsAll | backend/dashboard1.py:19-21 | The slider's initial range, from the lowest to the highest price, keeps the whole catalogue. |
| ProductDashboard.PriceFiltersCompose | backend/dashboard1.py:21 | Filtering by two ranges in turn is filtering by their overlap. |
| ProductDashboard.Kpis | backend/dashboard1.py:24-25 | The count is the number of products in range. The average price is NaN iff the range is empty. Otherwise it has whole cents and lies within half a cent of the mean. |
| ProductDashboard.AveragePriceWithinRange | backend/dashboard1.py:20-25 | With whole-cent slider ends and a non-empty selection, the average price lies within the range. |
| ProductDashboard.CategorySales | backend/dashboard1.py:34 | There is one row per category in range, categories ascending. Each row holds the category's price sum, as `groupby("category")["price"].sum()`. The product count is kept alongside by the model. The source computes only the sum at this line and takes the count through `mean()` at line 48. |
| ProductDashboard.CategorySalesAddUp | backend/dashboard1.py:34 | The category sums add up to the sum of all prices in range. |
| ProductDashboard.StockLineOf | backend/dashboard1.py:48-49 | mean·count = total for the category. The stock n is 10·mean truncated toward zero: n <= 10·mean < n + 1 for a non-negative mean, and n - 1 < 10·mean <= n for a negative one. |
| ProductDashboard.InventoryRecommendation | backend/dashboard1.py:48-49 | There is one row per category bucket, in bucket order. The mean times the count is the total. The stock is 10·mean truncated toward zero, for either sign of the mean. |
| ProductDashboard.InventoryCoversCategories | backend/dashboard1.py:48 | The table lists each category in range once, in ascending order. Each mean times the category's product count is the category's price sum. |
| ProductDashboard.RecommendedStockWithinPrices | backend/dashboard1.py:48-49 | With prices in [lo, hi] and lo >= 0, every recommended stock lies in (10·lo − 1, 10·hi]. |
| ProductDashboard.Unique | backend/dashboard1.py:40 | `unique()`: every value once, and exactly the values present. |
| ProductDashboard.UniqueKeepsFirstAppearanceOrder | backend/dashboard1.py:40 | The values of `unique()` are in order of first appearance. For i < j, value i occurs at a position before which value j has not yet occurred. |
| ProductDashboard.SubcategoryOptions | backend/dashboard1.py:40 | Each subcategory in range appears exactly once, and no other. The options are in order of first appearance in the column. |
| ProductDashboard.SubcategoryView | backend/dashboard1.py:42 | A product is kept iff it is in range and has the picked subcategory. The order is preserved. |
| ProductDashboard.SubcategoryViewCounts | backend/dashboard1.py:42 | Each product of the picked subcategory keeps all its copies, and other products keep none. |
| ProductDashboard.SubcategoryViewInRange | backend/dashboard1.py:42 | Every product shown for a subcategory is in the catalogue, within the price range, and of that subcategory. |

## Left out

- Streamlit widgets, page layout, CSS hiding and every Plotly figure are presentation only. Widget values are parameters of the functions above.
- The star glyph string (backend/dashboard.py:66) is display text only.
- Loading and coercing the CSV and JSON files is left out. The model starts from in-memory rows, and `frontend/` is not part of this model.
- IEEE floating point is not modelled. Prices are exact rationals, so sums, means and the fit carry no rounding error.
- Regression.Fit is the exact least-squares solution, not `numpy.polyfit`'s floating-point computation.
- Numeric.RoundTo rounds the exact decimal value half to even. Python's `round` on a binary float can differ when the float is not the decimal it prints as.
- SalesDashboard.SalesByProductLine orders bars of equal value stably. pandas' default sort does not promise any order among ties, and that order is not modelled.
- SalesDashboard.FilterOrders requires at most two picked dates, and at least one when some city is picked. Only the city branch indexes the picked dates (backend/dashboard.py:49-50), so it fails on an empty selection. The no-city branch returns the whole table whatever the number of dates.
- SalesDashboard.DisplayKpis does not model NaN prices: every order has a price. Only review scores may be missing.
- Only the KPI figures check that the `total_price` column exists (backend/dashboard.py:58-60). The bar chart, the daily series, the category series and the forecast read the column unguarded (backend/dashboard.py:89, 103, 134, 164), and the code raises a KeyError when it is absent. SalesDashboard.PlotCharts, SalesDashboard.CategoryDailySales and Forecast.ForecastInventory assume the column is present, and that failure is not modelled.
- Forecast.ForecastInventory requires 1 <= horizon <= 12, the range of the horizon slider.
- ProductDashboard.MinPrice requires a non-empty catalogue: the slider bounds of an empty catalogue are NaN.
- ProductDashboard.MaxPrice requires a non-empty catalogue, for the same reason.
- Dates are not checked for calendar validity, and timestamps have one-second resolution.
- Timezones and pandas' timestamp year bounds are not modelled. Calendar.MonthLabel states the `YYYY-MM` shape only for years below 10000, the only years a pandas timestamp can carry; longer years get a longer label.
- NaN category or date keys, which `groupby` drops, are not modelled: every row has a category and a timestamp.
- The category-forecast path re-filters the already filtered view (backend/dashboard.py:157). That copy is the same `CategoryRows` filter.

Two behaviours of the code are easy to misread, and the model follows the code as written:

- With no city picked, the whole table is shown and the date range is not applied either (backend/dashboard.py:52-53, where the comment reads that all data is shown).
- The catalogue's average price over an empty selection is NaN (backend/dashboard1.py:25), which the model writes as `None`. It is not collapsed to 0.

A further consequence of rounding to cents: the stop-producing note also appears when the trend line is positive but at most half a cent (backend/dashboard.py:191, 215).
