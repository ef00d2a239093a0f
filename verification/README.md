# Inventory analytics pipeline: a Dafny model

This project models the three table transformations at the heart of an
inventory-analytics pipeline written in Python with pandas, and proves
properties of them.

1. **Reconciliation** (`data_preparation.py`). A missing store city in the
   ending inventory is filled in from the beginning inventory. The two
   inventory snapshots are outer-merged, missing values are zero-filled, and
   the average price is derived. A missing purchase size is filled in from
   the sizes each brand was sold in, and purchases still lacking a size are
   dropped. Lead times are computed. Sales are left-merged with the
   inventory master and with the mean purchase price per (brand, size) to
   give cost of goods sold and gross profit.
2. **ABC classification** (`abc_analysis.py`). Gross profit is summed per
   product (brand, description, size), ranked in descending order, and
   accumulated into shares of the grand total. Each product gets class A, B
   or C by thresholds on its cumulative share. A per-class summary follows.
3. **EOQ / reorder-point table** (`inventory_optimization.py`). Demand is
   aggregated per product. Unit cost, holding cost, economic order quantity,
   mean lead time (with a global fallback) and reorder point are derived,
   and the ABC class is merged in.

Tables are sequences of immutable records. Money, prices and ratios are
exact `real`s. Dates are day numbers; an empty date, or a purchase date
that failed to parse, is `None`. A pandas null (NaN) is `Option.None`. Square root and rounding are
defined exactly: rounding is half-to-even, as pandas rounds.

Modules, in dependency order:

- `Optional`: the `Option` type.
- `Tables`: generic pandas operations over sequences of rows. These are
  selecting a group, `drop_duplicates`, `to_dict`, `groupby`, and `merge`
  with `how='left'` and `how='outer'`.
- `Sums`: `sum`, `cumsum`, `mean` with and without skipped nulls, and
  percentages.
- `Rounding`: half-to-even rounding and the rounded square root.
- `Records`: the sales row and the product keys.
- `Inventory`: city backfill and the inventory master.
- `Purchases`: size backfill, dropping, and lead time.
- `SalesMaster`: the sales master with COGS and gross profit.
- `Abc`: the per-product profit table, the ranking and the classification.
- `Rollup`: the per-class summary.
- `Optimization`: the EOQ and reorder-point table.

## Model

| member | source | states |
|---|---|---|
| Tables.SelectMembers | data_preparation.py:77 | A group holds exactly the rows with its key. It is empty exactly when no row has that key. |
| Tables.SelectMultiset | data_preparation.py:77 | A group holds each row with its key as many times as the table does, so repeated rows weigh twice in the group's mean. |
| Tables.Distinct | data_preparation.py:27 | `drop_duplicates` keeps every value that occurs and repeats none. |
| Tables.DistinctOrder | data_preparation.py:27 | `drop_duplicates` keeps first-occurrence order: of two kept values, the earlier one first occurs earlier in the input. |
| Tables.DistinctToDict | data_preparation.py:27 | Deduplicating pairs and then building a dictionary maps each key to the value of its pair whose first occurrence comes last. |
| Tables.ToDictLastWins | data_preparation.py:27 | The dictionary built with `to_dict` has a key exactly when some pair has it. Its value is that of the last such pair. |
| Tables.DistinctCount | inventory_optimization.py:21 | `nunique` counts each distinct value once: the deduplicated column is as long as its set of values. |
| Tables.GroupBy | abc_analysis.py:15 | A grouped table has one row per key that occurs and no key twice. Each key's value aggregates exactly the rows with that key. |
| Tables.GroupByFind | data_preparation.py:77-85 | Looking a key up in a grouped table gives that key's aggregate when the key occurs in the input, and nothing otherwise. |
| Tables.LeftJoinSound | data_preparation.py:67-72 | Every row of a left merge pairs a left row with a right row of the same key. A left row is paired with nothing only when no right row has its key. |
| Tables.LeftJoinKeepsRows | data_preparation.py:67-72 | A left merge keeps every left row and pairs it with every right row of the same key. |
| Tables.LeftJoinOneToOne | data_preparation.py:80-85 | Against a right table with unique keys, a left merge has exactly one row per left row, in order, holding that row's match or nothing. |
| Tables.OuterJoin | data_preparation.py:32-36 | Every row of an outer merge has at least one side, and both sides come from the inputs. Two present sides share a key. A side is missing only when that input has no row with the key. |
| Tables.OuterJoinKeepsRows | data_preparation.py:32-36 | Every row of either input appears in the outer merge. |
| Tables.UniqueKeysPermutation | abc_analysis.py:19 | Reordering a table with unique keys leaves its keys unique. |
| Sums.SumPermutation | abc_analysis.py:19 | Reordering a column does not change its sum. |
| Sums.CumSum | abc_analysis.py:22 | Entry i of `cumsum` is the sum of the first i + 1 values. |
| Sums.CumSumMonotone | abc_analysis.py:24 | The `cumsum` of non-negative values never decreases. |
| Sums.SumDivide | abc_analysis.py:23-24 | The shares of a total add up to the column's sum divided by that total. |
| Sums.SumPercentages | abc_analysis.py:46-47 | Percentages of a total add up to the column's sum as a percentage of that total. |
| Sums.Mean | data_preparation.py:77 | `mean` is defined exactly for a non-empty column, and the mean times the count is the sum. |
| Sums.MeanPresent | inventory_optimization.py:60 | `mean` over a nullable column is null exactly when every value is null. Otherwise it times the number of non-null values is the sum with nulls counted as 0. |
| Sums.PresentCount | inventory_optimization.py:60 | The non-null values are as many as the positions holding one. |
| Sums.PresentSum | inventory_optimization.py:60 | The non-null values sum to the column's sum after `fillna(0)`. |
| Sums.PrefixOfZeroSum | abc_analysis.py:19-22 | In a non-increasing column that sums to 0, every prefix sum is at least 0. |
| Sums.MeanNonNegative | inventory_optimization.py:36 | The mean of non-negative values is non-negative. |
| Rounding.RoundHalfEven | inventory_optimization.py:71 | `round(0)` gives an integer within one half of the value, and the even one at an exact half. |
| Rounding.RoundHalfEvenUnique | inventory_optimization.py:71 | That integer is unique. |
| Rounding.ISqrt | inventory_optimization.py:51 | The integer square root: the largest integer whose square does not exceed the input. |
| Rounding.RoundSqrt | inventory_optimization.py:51-53 | `sqrt(...).round(0)`: the integer nearest the square root, the even one at a tie. It is characterised by squares, without computing the root. |
| Rounding.RoundedSqrtUnique | inventory_optimization.py:51-53 | The rounded square root is unique. |
| Inventory.CityMap | data_preparation.py:27 | The store-to-city map has exactly the stores of the beginning inventory. Each store maps to a city it appears with there, and it is the city whose (store, city) pair first occurs last. |
| Inventory.CityMapDetermined | data_preparation.py:27 | That city is unique: a city whose (store, city) pair first occurs last is the one in the map. |
| Inventory.BackfillCities | data_preparation.py:28 | Only the city changes, and row order is kept. A present city is unchanged. A missing city becomes the map's city for its store, or stays missing when the store is not in the beginning inventory. |
| Inventory.BackfillWinner | data_preparation.py:27-28 | A missing city of a store seen at period start becomes the city of that store's pair first seen last. |
| Inventory.BackfillSingleCity | data_preparation.py:27-28 | When a store has a single city in the beginning inventory, a missing city of that store becomes that city. |
| Inventory.ZeroFillCity | data_preparation.py:37 | `fillna(0)` also reaches the City key column: the zero marker appears exactly where the city was missing. |
| Inventory.Reconcile | data_preparation.py:37-40 | A merged row takes the key of its present side and zero-fills the quantities and prices of an absent side. Its average price is half the sum of the two prices. |
| Inventory.MergeKeepsRows | data_preparation.py:31-37 | Every beginning row and every city-filled ending row appears in the inventory master under its key, with its own quantity and price (missing values as 0). |
| Inventory.MergeRowSound | data_preparation.py:31-40 | Every inventory-master key comes from a snapshot. A key only at period end has zero beginning columns and average price half the ending price, and symmetrically for a key only at period start. |
| Inventory.MergeInventory | data_preparation.py:31-40 | The inventory master has one row per row of the outer merge of the beginning snapshot with the city-filled ending snapshot. Every row's average price is half the sum of its two prices. Which rows appear is stated by MergeKeepsRows and MergeRowSound. |
| Purchases.SizeMap | data_preparation.py:56 | The brand-to-size map has exactly the brands sold. Each brand maps to a size it was sold in, and it is the size whose (brand, size) pair first occurs last. |
| Purchases.SizeMapDetermined | data_preparation.py:56 | That size is unique: a size whose (brand, size) pair first occurs last is the one in the map. |
| Purchases.LeadTime | data_preparation.py:62 | A lead time exists exactly when both dates parsed, and the order date plus the lead time is the receiving date. |
| Purchases.CleanRow | data_preparation.py:57-58 | A purchase is dropped exactly when it has no size and its brand is not in the map. A kept purchase carries the backfilled size and its lead time. |
| Purchases.CleanPurchasesPartition | data_preparation.py:56-62 | Kept and dropped purchases add up to all purchases. The dropped ones are exactly those without a size whose brand was never sold. Every kept row comes from a purchase with the same brand, description and price, and its lead time. Its size is the one the purchase had, or else the size of its brand's (brand, size) pair first seen last in the sales. |
| Purchases.KeepsOwnSize | data_preparation.py:57 | A purchase with a size keeps it, with every other field, through the cleaning. |
| Purchases.CleanPurchases | data_preparation.py:56-62 | The cleaned purchases are no more than the purchases, and each is the cleaning of some purchase (CleanRow), so it holds that purchase's own or backfilled size and its lead time. CleanPurchasesPartition states which purchases are kept and dropped. |
| SalesMaster.Finish | data_preparation.py:88-92 | COGS is quantity times purchase price, and gross profit plus COGS is the sales dollars. |
| SalesMaster.PricedLookup | data_preparation.py:80-85 | The price merge is a lookup: one row per row of the stock merge, holding the mean price of that sale's (brand, size) or nothing. |
| SalesMaster.SalesMasterProfit | data_preparation.py:91-92 | Every row of the sales master satisfies gross profit + COGS = sales dollars. |
| SalesMaster.SalesMasterKeepsSales | data_preparation.py:67-72 | Every sale appears in the sales master. |
| SalesMaster.SalesMasterStock | data_preparation.py:67-72 | A row's stock columns come from an inventory row with the sale's inventory id. They are null exactly when the inventory master has no such id. |
| SalesMaster.SalesMasterPrice | data_preparation.py:77-88 | A sale's purchase price is the mean price of the purchases of its brand and size, or 0 when there are none. |
| SalesMaster.PriceIgnoresDescription | data_preparation.py:77 | Sales of one brand and size get one price whatever their descriptions. |
| SalesMaster.SalesMasterOneToOne | data_preparation.py:67-85 | With unique inventory ids, the sales master has one row per sale, in order. |
| SalesMaster.BuildSalesMaster | data_preparation.py:67-92 | The sales master has one row per row of the inventory merge. Every row's COGS is its quantity times its purchase price, and its gross profit plus COGS is its sales dollars. SalesMasterStock and SalesMasterPrice state the merged columns. |
| Abc.ProductProfits | abc_analysis.py:15-16 | One row per product sold, no product twice. Each product's total is the sum of its sales' gross profit. |
| Abc.SortByProfit | abc_analysis.py:19 | The ranking is a permutation of the product table, with profit non-increasing. |
| Abc.AssignAbc | abc_analysis.py:27-33 | A exactly when the cumulative share is at most 0.80. B exactly when it is above 0.80 and at most 0.95. C otherwise, including NaN. |
| Abc.AssignAbcMonotone | abc_analysis.py:27-33 | A larger cumulative share never gets an earlier class. |
| Abc.ClassifyRows | abc_analysis.py:22-35 | Cumulative profit is the prefix sum of profits. With a zero total both shares are null. Otherwise the share is profit over total, and the cumulative share is cumulative profit over total. |
| Abc.Classify | abc_analysis.py:22-35 | The classification keeps the ranking's products and profits, row for row, and classes each row by its cumulative share. ClassifyRows states the shares. |
| Abc.LastShareIsWhole | abc_analysis.py:22-24 | The last cumulative profit is the grand total. Its cumulative share is exactly 1 when the total is not zero, and the last product is class C. |
| Abc.ZeroTotalRunningProfits | abc_analysis.py:19-22 | On a non-increasing ranking with a zero grand total, every cumulative profit is at least 0. |
| Abc.ZeroTotalAllC | abc_analysis.py:19-35 | On a non-increasing ranking with a zero grand total every product is class C. |
| Abc.CumulativeSharesMonotone | abc_analysis.py:22-24 | With non-negative profits and a positive total, every cumulative share is defined and never decreases down the ranking. |
| Abc.CategoriesOrdered | abc_analysis.py:19-35 | With non-negative product profits the classes run A, then B, then C down the ranking. |
| Abc.AbcOnePerProduct | abc_analysis.py:15-19 | The classification has exactly one row per product sold. |
| Abc.AbcProfitsRanked | abc_analysis.py:15-19 | Every classified product carries the sum of its gross profit, and the rows are in non-increasing profit order. |
| Abc.AbcAnalysis | abc_analysis.py:15-35 | The ABC table has one row per product total, in non-increasing profit order, each classed by its cumulative share. AbcOnePerProduct and AbcProfitsRanked tie the rows to the products sold. |
| Rollup.Min | abc_analysis.py:41 | The smallest profit of a class is one of its profits and bounds all of them from below. |
| Rollup.Max | abc_analysis.py:42 | The largest profit of a class is one of its profits and bounds all of them from above. |
| Rollup.ClassSizes | abc_analysis.py:38-39 | Every product is in exactly one class. |
| Rollup.SummaryOrdered | abc_analysis.py:38-43 | The summary lists the classes in the order A, B, C, each at most once. |
| Rollup.SummaryCategories | abc_analysis.py:38-43 | The summary has a row for a class exactly when some product is in it. |
| Rollup.SummaryEntry | abc_analysis.py:38-43 | A summary row counts its class's products and sums their profit, and holds their smallest and largest profit. |
| Rollup.SummaryShares | abc_analysis.py:45-47 | A class's profit share is its profit as a percentage of all profit, null when that is zero. Its product share is its count as a percentage of all products. |
| Rollup.StatsColumns | abc_analysis.py:39-45 | The class counts add up to the number of products, and the class profits add up to the total profit. |
| Rollup.ProductSharesWhole | abc_analysis.py:47 | The product shares add up to 100. |
| Rollup.ProfitSharesWhole | abc_analysis.py:45-46 | When the total profit is not zero, every class has a profit share and the shares add up to 100. |
| Rollup.Summarize | abc_analysis.py:38-47 | The summary has one row per class aggregate, carrying that class's count, total, smallest and largest profit. SummaryEntry, SummaryShares and SummaryCategories state what they are. |
| Optimization.DemandOf | inventory_optimization.py:19-22 | Annual demand is the units sold, and sales days are the number of distinct days sold on. A sale without a date adds units but no day. |
| Optimization.AvgDailyDemand | inventory_optimization.py:25 | Daily demand times 365 is the annual demand. |
| Optimization.Radicand | inventory_optimization.py:50-52 | The EOQ radicand is undefined exactly when H + 1e-6 is zero. Otherwise it times H + 1e-6 equals 2 D times 50. |
| Optimization.Eoq | inventory_optimization.py:51-56 | EOQ is the rounded square root of a defined non-negative radicand, and 0 when the radicand is undefined or negative (NaN or infinity clamped). |
| Optimization.EoqDefined | inventory_optimization.py:45-56 | With a non-negative unit cost the radicand is defined. With a non-negative demand as well, it is non-negative and the EOQ is its rounded square root. |
| Optimization.ReorderPoint | inventory_optimization.py:71-74 | The reorder point rounds daily demand times lead time half to even, and is 0 when the lead time is unknown. |
| Optimization.ReorderPointNonNegative | inventory_optimization.py:71-74 | Non-negative demand and lead time give a non-negative reorder point. |
| Optimization.CostRow | inventory_optimization.py:39-56 | A costed row keeps its product. Its daily demand is a 365th of its annual demand, its holding cost is 0.20 of its unit cost, and its EOQ follows from these. |
| Optimization.CostedLookup | inventory_optimization.py:39-42 | The unit-cost merge is a lookup: row j is demand row j with its product's unit cost, or nothing. |
| Optimization.LeadRow | inventory_optimization.py:71 | A planned row's reorder point follows from its daily demand and lead time. |
| Optimization.PlannedLookup | inventory_optimization.py:63-67 | The lead-time merge is a lookup with the overall mean as fallback: row j is costed row j with its product's mean lead time, or the overall mean. |
| Optimization.CategoryRow | inventory_optimization.py:77 | The ABC column is present exactly when the merge found an ABC row, and then holds that row's class. |
| Optimization.CategorizedOneToOne | inventory_optimization.py:77 | Against an ABC table with one row per product, the ABC merge is a lookup: one row per planned row, in order. |
| Optimization.OptimizeProducts | inventory_optimization.py:19-22 | The table has one row per product sold and no product twice. |
| Optimization.OptimizeDemand | inventory_optimization.py:19-25 | A row's annual demand is its product's units sold, and its sales days are the distinct days the product sold on. Its daily demand is the annual demand over 365. |
| Optimization.OptimizeCost | inventory_optimization.py:36-56 | A row's unit cost is the mean price of purchases with the same brand, description and size, or 0 when there are none. Its holding cost is 0.20 of that, and its EOQ follows. |
| Optimization.OptimizeLeadTime | inventory_optimization.py:60-74 | A row's lead time is its product's mean known lead time, or the mean over all purchases when the product has none. Its reorder point follows. |
| Optimization.OptimizeCategory | inventory_optimization.py:77 | A row's class is present exactly when the ABC table has the product, and is that product's class there. |
| Optimization.OptimizeFullyClassified | inventory_optimization.py:77 | Merged with the classification of the same sales, every product has a class. |
| Optimization.ReorderPointsNonNegative | inventory_optimization.py:71-74 | With non-negative quantities and lead times every reorder point is non-negative. |
| Optimization.EoqsDefined | inventory_optimization.py:42-56 | With non-negative quantities and prices every EOQ is the rounded square root of a defined, non-negative radicand. |
| Optimization.Optimize | inventory_optimization.py:19-77 | The table has a row for every row of the demand table, and exactly one when the ABC table has one row per product. OptimizeDemand, OptimizeCost, OptimizeLeadTime and OptimizeCategory state each row's columns. |

## Behaviour worth knowing

- The purchase price used for COGS is the mean per (brand, size)
  (`data_preparation.py:77`). Products that differ only in description share
  a price (`SalesMaster.PriceIgnoresDescription`). The unit cost in the
  optimization is keyed on brand, description and size.
- The brand-to-size and store-to-city maps are built by `drop_duplicates`
  followed by `to_dict`. `to_dict` keeps the last distinct pair for a key,
  and `drop_duplicates` keeps pairs in first-occurrence order, so a key maps
  to the value of its pair whose first occurrence comes last
  (`Tables.DistinctToDict`, `Inventory.CityMap`, `Purchases.SizeMap`).
- With a zero grand total the ABC shares are the infinities or NaN of a
  division by zero, modelled as `None`: +infinity for a positive profit,
  NaN for a zero one and -infinity for a negative one. The descending sort
  puts every positive profit first, so each running profit is at least 0
  (`Abc.ZeroTotalRunningProfits`). The cumulative share is the `cumsum` of
  the shares, which is +infinity at every product before the first
  non-positive profit. From there on each entry is NaN: a zero profit's
  share stays NaN, and a negative profit's -infinity meets the +infinity
  already summed. So every product is class C (`Abc.ZeroTotalAllC`).
- EOQ and reorder point are rounded half to even.
- The profit ranking sorts on profit alone. Products with equal profit may
  come in either order, and when such a tie straddles the 0.80 or 0.95
  threshold, which of them gets the earlier class depends on that order.

## Left out

- Reading and writing CSV files, `exit()` on a missing file, every `print`
  and `to_markdown`, and the top-10 display sort
  (`inventory_optimization.py:80-86`). These are input, output and
  presentation. The tables the later scripts read back are taken to be the
  ones the earlier scripts computed.
- `demand_forecasting.py`, `lead_time_analysis.py` and
  `additional_insights.py` are not part of this model. They are library
  model fitting, plotting and descriptive reports.
- Floating point. Arithmetic is exact, so rounding error, overflow in
  `astype(int)` and float `sqrt` inexactness are not modelled. NaN and the
  infinities are `None`.
- Parsing date strings. Dates are given as day numbers, or `None` where the
  cell is empty or, for purchases, where parsing failed. A sales date that
  is not a date makes `to_datetime` raise (`data_preparation.py:44`), which
  ends the pipeline.
- The purchase columns the core never reads (vendor, invoice and pay dates,
  quantities, dollars) and the unused price and invoice files.
- Null cells in columns the model takes as always present: the sales
  inventory id, store, brand, description, size, quantity and dollars; the
  purchase brand, description and price; and the inventory id, store, brand,
  description and size of both snapshots.
  On such nulls pandas `sum` and `mean` skip the value, `groupby` drops the
  row from every group, and the `fillna(0)` after the inventory merge
  (`data_preparation.py:37`) writes 0 into the key column. The model covers
  nulls only in the sales date, the store city, the purchase size and dates,
  and the inventory quantities and prices.
- The order of `groupby` result rows and of outer-merge rows. pandas sorts
  group keys; the model keeps first-occurrence order instead. Every table is
  characterised by its rows and keys, whatever their order. The per-class
  summary is modelled in the order A, B, C.
- Abc.SortByProfit: promises a permutation in non-increasing profit order
  and fixes no order among equal profits. pandas sorts the key-sorted groups
  with an unstable quicksort, and the model inserts in first-occurrence
  order. So the class of products tied in profit across the 0.80 or 0.95
  threshold is not determined by the model: with profits 45, 45 and 10 the
  two tied products get A and B in an order the model does not fix.
- Optimization.DemandOf: `Total_Sales_Days` is computed but no later step
  uses it.
- Abc.ClassifyRows: with a zero grand total the share columns are `None`.
  The model does not tell apart the +infinity, -infinity and NaN that pandas
  stores there. On the non-increasing ranking only +infinity and NaN occur
  in the cumulative share, and both give class C.
- Rollup.SummaryShares: with a zero total profit every profit share is
  `None`, standing for the infinity or NaN pandas produces.
