/**
 The EOQ and reorder-point table: one row per product sold, with its annual
 and average daily demand, its mean unit cost and holding cost, its economic
 order quantity, its mean lead time, its reorder point and its ABC class.
 */
module Optimization {
  import opened Optional
  import opened Tables
  import opened Sums
  import opened Rounding
  import opened Records
  import opened Purchases
  import opened SalesMaster
  import opened Abc

  /** The fixed cost of placing one order, in dollars. */
  const OrderingCost: real := 50.0
  /** The yearly cost of holding one unit, as a fraction of its unit cost. */
  const HoldingCostRate: real := 0.2
  /** Added to the holding cost so that a zero holding cost does not divide by zero. */
  const Epsilon: real := 0.000001
  /** The sales are taken to cover one year. */
  const DaysPerYear: real := 365.0

  function Quantities(group: seq<SalesMasterRow>): (qs: seq<int>)
    ensures |qs| == |group|
    ensures forall i | 0 <= i < |group| :: qs[i] == group[i].sale.salesQuantity
  {
    seq(|group|, i requires 0 <= i < |group| => group[i].sale.salesQuantity)
  }

  /** The dates of a group's sales that are not missing, in order: the values `nunique` looks at. */
  function SaleDates(group: seq<SalesMasterRow>): (ds: seq<int>)
    ensures forall d :: d in ds <==> exists i | 0 <= i < |group| :: group[i].sale.salesDate == Some(d)
  {
    if |group| == 0 then []
    else
      var init, last := group[..|group| - 1], group[|group| - 1];
      assert forall i | 0 <= i < |init| :: init[i] == group[i];
      SaleDates(init) + (match last.sale.salesDate case Some(d) => [d] case None => [])
  }

  /** The days on which a group of sales took place, as far as their dates are known. */
  ghost function SalesDays(group: seq<SalesMasterRow>): set<int> {
    set r | r in group && r.sale.salesDate.Some? :: r.sale.salesDate.value
  }

  /** The demand of one product: the units sold and the number of distinct days it sold on. */
  datatype Demand = Demand(annualDemand: int, totalSalesDays: nat)

  /** The demand of the sales of one product; a sale without a date adds units but no day. */
  function DemandOf(group: seq<SalesMasterRow>): (d: Demand)
    ensures d.annualDemand == IntSum(Quantities(group))
    ensures d.totalSalesDays == |SalesDays(group)|
  {
    DistinctCount(SaleDates(group));
    assert (set x | x in SaleDates(group)) == SalesDays(group) by {
      forall x ensures x in SaleDates(group) <==> x in SalesDays(group) {
        if x in SaleDates(group) {
          var i :| 0 <= i < |group| && group[i].sale.salesDate == Some(x);
          assert group[i] in group;
        }
      }
    }
    Demand(IntSum(Quantities(group)), |Distinct(SaleDates(group))|)
  }

  /** The demand per product, one row per product sold. */
  function DemandTable(master: seq<SalesMasterRow>): seq<(ProductKey, Demand)> {
    GroupBy(master, ProductOf, DemandOf)
  }

  /** The annual demand spread evenly over the year. */
  function AvgDailyDemand(annualDemand: int): (daily: real)
    ensures daily * DaysPerYear == annualDemand as real
  {
    annualDemand as real / DaysPerYear
  }

  function PurchaseProduct(c: CleanPurchase): ProductKey {
    ProductKey(c.brand, c.description, c.size)
  }

  /** The mean purchase price per product, one row per product purchased. */
  function UnitCosts(purchases: seq<CleanPurchase>): seq<(ProductKey, Option<real>)> {
    GroupBy(purchases, PurchaseProduct, MeanPurchasePrice)
  }

  /** The lead times of a group of purchases, None where a date was missing. */
  function LeadTimes(group: seq<CleanPurchase>): (ts: seq<Option<real>>)
    ensures |ts| == |group|
    ensures forall i | 0 <= i < |group| :: ts[i].Some? <==> group[i].leadTimeDays.Some?
    ensures forall i | 0 <= i < |group| :: ts[i].Some? ==> ts[i].value == group[i].leadTimeDays.value as real
  {
    seq(|group|, i requires 0 <= i < |group| =>
      match group[i].leadTimeDays case Some(d) => Some(d as real) case None => None)
  }

  /** The mean of the known lead times of a group; None when none is known. */
  function MeanLeadTime(group: seq<CleanPurchase>): Option<real> {
    MeanPresent(LeadTimes(group))
  }

  /** The mean lead time per product, one row per product purchased. */
  function LeadTimeTable(purchases: seq<CleanPurchase>): seq<(ProductKey, Option<real>)> {
    GroupBy(purchases, PurchaseProduct, MeanLeadTime)
  }

  /**
   The radicand of the EOQ formula, 2 D S / (H + epsilon), or None when the
   denominator is zero (the division yields an infinity or NaN).
   */
  function Radicand(demand: int, holding: real): (x: Option<real>)
    ensures x.None? <==> holding + Epsilon == 0.0
    ensures x.Some? ==> x.value * (holding + Epsilon) == 2.0 * demand as real * OrderingCost
  {
    if holding + Epsilon == 0.0 then None
    else Some(2.0 * demand as real * OrderingCost / (holding + Epsilon))
  }

  /**
   The economic order quantity: the square root of the radicand rounded half
   to even, or 0 when the radicand is not a finite non-negative number.
   */
  function Eoq(demand: int, holding: real): (q: nat)
    ensures Radicand(demand, holding).None? ==> q == 0
    ensures Radicand(demand, holding).Some? && Radicand(demand, holding).value < 0.0 ==> q == 0
    ensures Radicand(demand, holding).Some? && Radicand(demand, holding).value >= 0.0 ==>
      IsRoundedSqrt(Radicand(demand, holding).value, q)
  {
    match Radicand(demand, holding)
    case None => 0
    case Some(x) => if x < 0.0 then 0 else RoundSqrt(x)
  }

  /**
   With a non-negative unit cost the denominator is positive, so the radicand
   is always defined, and with a non-negative demand it is non-negative and
   the EOQ is its rounded square root.
   */
  lemma EoqDefined(demand: int, unitCost: real)
    requires unitCost >= 0.0
    ensures var x := Radicand(demand, unitCost * HoldingCostRate);
      && x.Some?
      && (demand >= 0 ==> x.value >= 0.0 && IsRoundedSqrt(x.value, Eoq(demand, unitCost * HoldingCostRate)))
  {
    var h := unitCost * HoldingCostRate;
    assert h + Epsilon > 0.0;
    NonNegativeFactor(Radicand(demand, h).value, h + Epsilon);
  }

  /**
   The reorder point: the daily demand times the lead time rounded half to
   even, or 0 when the lead time is unknown (the product is NaN).
   */
  function ReorderPoint(daily: real, lead: Option<real>): (rop: int)
    ensures lead.None? ==> rop == 0
    ensures lead.Some? ==> IsRoundHalfEven(daily * lead.value, rop)
  {
    match lead
    case None => 0
    case Some(l) => RoundHalfEven(daily * l)
  }

  /** Non-negative demand and lead time give a non-negative reorder point. */
  lemma ReorderPointNonNegative(daily: real, lead: Option<real>)
    requires daily >= 0.0
    requires lead.Some? ==> lead.value >= 0.0
    ensures ReorderPoint(daily, lead) >= 0
  {
    if lead.Some? {
      RoundHalfEvenNonNegative(daily * lead.value);
    }
  }

  /** A product's demand with its unit cost, holding cost and EOQ. */
  datatype CostedRow = CostedRow(
    product: ProductKey,
    annualDemand: int,
    totalSalesDays: nat,
    avgDailyDemand: real,
    avgUnitCost: real,
    holdingCost: real,
    eoq: nat)

  /** A row of the merge of demand with unit costs, completed with the derived columns. */
  function CostRow(p: ((ProductKey, Demand), Option<(ProductKey, Option<real>)>)): (r: CostedRow)
    ensures r.product == p.0.0
    ensures r.avgDailyDemand * DaysPerYear == r.annualDemand as real
    ensures r.holdingCost == r.avgUnitCost * HoldingCostRate
    ensures r.eoq == Eoq(r.annualDemand, r.holdingCost)
  {
    var ((k, d), found) := p;
    var cost := PriceOf(found);
    var holding := cost * HoldingCostRate;
    CostedRow(k, d.annualDemand, d.totalSalesDays, AvgDailyDemand(d.annualDemand), cost, holding,
              Eoq(d.annualDemand, holding))
  }

  /**
   The demand merged with the unit costs. The cost table has one row per
   product, so the merge neither adds nor removes rows.
   */
  function Costed(demand: seq<(ProductKey, Demand)>, purchases: seq<CleanPurchase>): (rows: seq<CostedRow>)
    ensures |rows| == |demand|
  {
    var costs := UnitCosts(purchases);
    LeftJoinOneToOne(demand, costs, Fst, Fst);
    var joined := LeftJoin(demand, costs, Fst, Fst);
    seq(|joined|, j requires 0 <= j < |joined| => CostRow(joined[j]))
  }

  /** The cost merge is a lookup: row `j` is demand row `j` costed with its product's unit cost, if any. */
  lemma CostedLookup(demand: seq<(ProductKey, Demand)>, purchases: seq<CleanPurchase>)
    ensures forall j | 0 <= j < |demand| ::
      Costed(demand, purchases)[j] == CostRow((demand[j], Find(UnitCosts(purchases), Fst, demand[j].0)))
  {
    LeftJoinOneToOne(demand, UnitCosts(purchases), Fst, Fst);
  }

  function CostedProduct(r: CostedRow): ProductKey {
    r.product
  }

  /** A costed row with its mean lead time and reorder point. */
  datatype PlannedRow = PlannedRow(costed: CostedRow, avgLeadTimeDays: Option<real>, reorderPoint: int)

  /**
   A row of the merge with the lead times: the product's own mean lead time,
   or the overall mean where it has none (`fillna`), and the reorder point.
   */
  function LeadRow(p: (CostedRow, Option<(ProductKey, Option<real>)>), overall: Option<real>): (r: PlannedRow)
    ensures r.reorderPoint == ReorderPoint(r.costed.avgDailyDemand, r.avgLeadTimeDays)
  {
    var (c, found) := p;
    var own := match found case Some((_, m)) => m case None => None;
    var lead := if own.Some? then own else overall;
    PlannedRow(c, lead, ReorderPoint(c.avgDailyDemand, lead))
  }

  /** The costed rows merged with the lead times; that table too has one row per product. */
  function Planned(costed: seq<CostedRow>, purchases: seq<CleanPurchase>): (rows: seq<PlannedRow>)
    ensures |rows| == |costed|
  {
    var leads := LeadTimeTable(purchases);
    LeftJoinOneToOne(costed, leads, CostedProduct, Fst);
    var joined := LeftJoin(costed, leads, CostedProduct, Fst);
    seq(|joined|, j requires 0 <= j < |joined| => LeadRow(joined[j], MeanLeadTime(purchases)))
  }

  /**
   The lead-time merge is a lookup: row `j` is costed row `j` with its
   product's mean lead time, or the overall mean.
   */
  lemma PlannedLookup(costed: seq<CostedRow>, purchases: seq<CleanPurchase>)
    ensures forall j | 0 <= j < |costed| ::
      Planned(costed, purchases)[j]
        == LeadRow((costed[j], Find(LeadTimeTable(purchases), Fst, costed[j].product)), MeanLeadTime(purchases))
  {
    LeftJoinOneToOne(costed, LeadTimeTable(purchases), CostedProduct, Fst);
  }

  function PlannedProduct(r: PlannedRow): ProductKey {
    r.costed.product
  }

  /** A row of the final table: a planned row with its ABC class, None for a product the ABC table lacks. */
  datatype OptimizationRow = OptimizationRow(planned: PlannedRow, category: Option<Category>)

  function CategoryRow(p: (PlannedRow, Option<AbcRow>)): (r: OptimizationRow)
    ensures r.planned == p.0
    ensures r.category.Some? <==> p.1.Some?
    ensures r.category.Some? ==> r.category.value == p.1.value.category
  {
    OptimizationRow(p.0, match p.1 case Some(a) => Some(a.category) case None => None)
  }

  /** The planned rows left-merged with the ABC table. */
  function Categorized(planned: seq<PlannedRow>, abc: seq<AbcRow>): (rows: seq<OptimizationRow>)
    ensures |rows| >= |planned|
  {
    var joined := LeftJoin(planned, abc, PlannedProduct, RowProduct);
    LeftJoinKeepsRows(planned, abc, PlannedProduct, RowProduct);
    seq(|joined|, j requires 0 <= j < |joined| => CategoryRow(joined[j]))
  }

  /** The EOQ and reorder-point table, from the sales master, the cleaned purchases and the ABC table. */
  function Optimize(master: seq<SalesMasterRow>, purchases: seq<CleanPurchase>, abc: seq<AbcRow>): (table: seq<OptimizationRow>)
    ensures |table| >= |DemandTable(master)|
    ensures UniqueKeys(abc, RowProduct) ==> |table| == |DemandTable(master)|
  {
    var planned := Planned(Costed(DemandTable(master), purchases), purchases);
    assert UniqueKeys(abc, RowProduct) ==> |Categorized(planned, abc)| == |planned| by {
      if UniqueKeys(abc, RowProduct) {
        CategorizedOneToOne(planned, abc);
      }
    }
    Categorized(planned, abc)
  }

  function OptimizedProduct(r: OptimizationRow): ProductKey {
    r.planned.costed.product
  }

  /** When the ABC table has one row per product, its merge is a lookup too. */
  lemma CategorizedOneToOne(planned: seq<PlannedRow>, abc: seq<AbcRow>)
    requires UniqueKeys(abc, RowProduct)
    ensures |Categorized(planned, abc)| == |planned|
    ensures forall j | 0 <= j < |planned| ::
      Categorized(planned, abc)[j] == CategoryRow((planned[j], Find(abc, RowProduct, PlannedProduct(planned[j]))))
  {
    LeftJoinOneToOne(planned, abc, PlannedProduct, RowProduct);
  }

  /** When the ABC table has one row per product, the table has one row per row of the demand table. */
  lemma OptimizeLength(master: seq<SalesMasterRow>, purchases: seq<CleanPurchase>, abc: seq<AbcRow>)
    requires UniqueKeys(abc, RowProduct)
    ensures |Optimize(master, purchases, abc)| == |DemandTable(master)|
  {
    CategorizedOneToOne(Planned(Costed(DemandTable(master), purchases), purchases), abc);
  }

  /** Row `j` of the table is row `j` of the demand table, costed, planned and classified by lookups. */
  lemma OptimizeAt(master: seq<SalesMasterRow>, purchases: seq<CleanPurchase>, abc: seq<AbcRow>, j: nat)
    requires UniqueKeys(abc, RowProduct)
    requires j < |DemandTable(master)|
    ensures j < |Optimize(master, purchases, abc)|
    ensures var demand := DemandTable(master)[j];
      var costed := CostRow((demand, Find(UnitCosts(purchases), Fst, demand.0)));
      var planned := LeadRow((costed, Find(LeadTimeTable(purchases), Fst, demand.0)), MeanLeadTime(purchases));
      Optimize(master, purchases, abc)[j] == CategoryRow((planned, Find(abc, RowProduct, demand.0)))
  {
    OptimizeLength(master, purchases, abc);
    var costed := Costed(DemandTable(master), purchases);
    CostedLookup(DemandTable(master), purchases);
    PlannedLookup(costed, purchases);
    CategorizedOneToOne(Planned(costed, purchases), abc);
  }

  /**
   When the ABC table has one row per product, the table has one row per
   product sold, and no product twice.
   */
  lemma OptimizeProducts(master: seq<SalesMasterRow>, purchases: seq<CleanPurchase>, abc: seq<AbcRow>)
    requires UniqueKeys(abc, RowProduct)
    ensures var table := Optimize(master, purchases, abc);
      && |table| == |DemandTable(master)|
      && UniqueKeys(table, OptimizedProduct)
      && forall k :: HasKey(table, OptimizedProduct, k) <==> HasKey(master, ProductOf, k)
  {
    OptimizeKeys(master, purchases, abc);
    SameKeys(Optimize(master, purchases, abc), DemandTable(master), OptimizedProduct, Fst);
  }

  lemma OptimizeKeys(master: seq<SalesMasterRow>, purchases: seq<CleanPurchase>, abc: seq<AbcRow>)
    requires UniqueKeys(abc, RowProduct)
    ensures |Optimize(master, purchases, abc)| == |DemandTable(master)|
    ensures forall j | 0 <= j < |DemandTable(master)| ::
      OptimizedProduct(Optimize(master, purchases, abc)[j]) == Fst(DemandTable(master)[j])
  {
    OptimizeLength(master, purchases, abc);
    forall j | 0 <= j < |DemandTable(master)|
      ensures OptimizedProduct(Optimize(master, purchases, abc)[j]) == Fst(DemandTable(master)[j])
    {
      OptimizeAt(master, purchases, abc, j);
    }
  }

  /**
   A row's annual demand is the units sold of its product, its sales days
   the number of distinct days the product sold on, and its daily demand the
   annual demand over 365 days.
   */
  lemma OptimizeDemand(master: seq<SalesMasterRow>, purchases: seq<CleanPurchase>, abc: seq<AbcRow>, j: nat)
    requires UniqueKeys(abc, RowProduct)
    requires j < |DemandTable(master)|
    ensures j < |Optimize(master, purchases, abc)|
    ensures var c := Optimize(master, purchases, abc)[j].planned.costed;
      var group := Select(master, ProductOf, c.product);
      && |group| > 0
      && c.annualDemand == IntSum(Quantities(group))
      && c.totalSalesDays == |SalesDays(group)|
      && c.avgDailyDemand * DaysPerYear == c.annualDemand as real
  {
    OptimizeProducts(master, purchases, abc);
    OptimizeAt(master, purchases, abc, j);
    var demand := DemandTable(master);
    assert demand[j] in demand;
    SelectMembers(master, ProductOf, demand[j].0);
    assert HasKey(demand, Fst, demand[j].0);
  }

  /**
   A row's unit cost is the mean purchase price of its product (same brand,
   description and size), or 0 when it was never purchased; its holding cost
   is a fifth of that, and its EOQ follows from demand and holding cost.
   */
  lemma OptimizeCost(master: seq<SalesMasterRow>, purchases: seq<CleanPurchase>, abc: seq<AbcRow>, j: nat)
    requires UniqueKeys(abc, RowProduct)
    requires j < |DemandTable(master)|
    ensures j < |Optimize(master, purchases, abc)|
    ensures var c := Optimize(master, purchases, abc)[j].planned.costed;
      var group := Select(purchases, PurchaseProduct, c.product);
      && (|group| > 0 ==> Some(c.avgUnitCost) == MeanPurchasePrice(group))
      && (|group| == 0 ==> c.avgUnitCost == 0.0)
      && c.holdingCost == c.avgUnitCost * HoldingCostRate
      && c.eoq == Eoq(c.annualDemand, c.holdingCost)
  {
    OptimizeProducts(master, purchases, abc);
    OptimizeAt(master, purchases, abc, j);
    var k := DemandTable(master)[j].0;
    GroupByFind(purchases, PurchaseProduct, MeanPurchasePrice, k);
    SelectMembers(purchases, PurchaseProduct, k);
  }

  /**
   A row's lead time is the mean known lead time of its product's purchases,
   or the mean over all purchases when the product has none; its reorder
   point follows from daily demand and lead time.
   */
  lemma OptimizeLeadTime(master: seq<SalesMasterRow>, purchases: seq<CleanPurchase>, abc: seq<AbcRow>, j: nat)
    requires UniqueKeys(abc, RowProduct)
    requires j < |DemandTable(master)|
    ensures j < |Optimize(master, purchases, abc)|
    ensures var p := Optimize(master, purchases, abc)[j].planned;
      var own := MeanLeadTime(Select(purchases, PurchaseProduct, p.costed.product));
      && (own.Some? ==> p.avgLeadTimeDays == own)
      && (own.None? ==> p.avgLeadTimeDays == MeanLeadTime(purchases))
      && p.reorderPoint == ReorderPoint(p.costed.avgDailyDemand, p.avgLeadTimeDays)
  {
    OptimizeProducts(master, purchases, abc);
    OptimizeAt(master, purchases, abc, j);
    var k := DemandTable(master)[j].0;
    GroupByFind(purchases, PurchaseProduct, MeanLeadTime, k);
    SelectMembers(purchases, PurchaseProduct, k);
  }

  /** A row's ABC class is the class of its product in the ABC table, or None when the table lacks it. */
  lemma OptimizeCategory(master: seq<SalesMasterRow>, purchases: seq<CleanPurchase>, abc: seq<AbcRow>, j: nat)
    requires UniqueKeys(abc, RowProduct)
    requires j < |DemandTable(master)|
    ensures j < |Optimize(master, purchases, abc)|
    ensures var r := Optimize(master, purchases, abc)[j];
      && (r.category.Some? <==> HasKey(abc, RowProduct, OptimizedProduct(r)))
      && (r.category.Some? ==> exists i | 0 <= i < |abc| ::
            abc[i].product == OptimizedProduct(r) && abc[i].category == r.category.value)
  {
    OptimizeProducts(master, purchases, abc);
    OptimizeAt(master, purchases, abc, j);
    var r := Optimize(master, purchases, abc)[j];
    var found := Find(abc, RowProduct, OptimizedProduct(r));
    if found.Some? {
      var i :| 0 <= i < |abc| && abc[i] == found.value;
    }
  }

  /** Merged with the ABC classification of the same sales, every product has a class. */
  lemma OptimizeFullyClassified(master: seq<SalesMasterRow>, purchases: seq<CleanPurchase>)
    ensures var table := Optimize(master, purchases, AbcAnalysis(master));
      forall j | 0 <= j < |table| :: table[j].category.Some?
  {
    var abc := AbcAnalysis(master);
    var table := Optimize(master, purchases, abc);
    AbcOnePerProduct(master);
    OptimizeProducts(master, purchases, abc);
    forall j | 0 <= j < |table| ensures table[j].category.Some? {
      OptimizeCategory(master, purchases, abc, j);
      assert HasKey(table, OptimizedProduct, OptimizedProduct(table[j]));
    }
  }

  /** With non-negative sales quantities, every annual and daily demand is non-negative. */
  lemma DemandNonNegative(master: seq<SalesMasterRow>, purchases: seq<CleanPurchase>, abc: seq<AbcRow>, j: nat)
    requires UniqueKeys(abc, RowProduct)
    requires j < |DemandTable(master)|
    ensures j < |Optimize(master, purchases, abc)|
    requires forall i | 0 <= i < |master| :: master[i].sale.salesQuantity >= 0
    ensures Optimize(master, purchases, abc)[j].planned.costed.annualDemand >= 0
    ensures Optimize(master, purchases, abc)[j].planned.costed.avgDailyDemand >= 0.0
  {
    var c := Optimize(master, purchases, abc)[j].planned.costed;
    OptimizeDemand(master, purchases, abc, j);
    var group := Select(master, ProductOf, c.product);
    SelectMembers(master, ProductOf, c.product);
    forall i | 0 <= i < |group| ensures Quantities(group)[i] >= 0 {
      assert group[i] in master;
    }
    IntSumNonNegative(Quantities(group));
    NonNegativeFactor(c.avgDailyDemand, DaysPerYear);
  }

  /** With non-negative sales quantities and lead times, every reorder point is non-negative. */
  lemma ReorderPointsNonNegative(master: seq<SalesMasterRow>, purchases: seq<CleanPurchase>, abc: seq<AbcRow>, j: nat)
    requires UniqueKeys(abc, RowProduct)
    requires j < |DemandTable(master)|
    ensures j < |Optimize(master, purchases, abc)|
    requires forall i | 0 <= i < |master| :: master[i].sale.salesQuantity >= 0
    requires forall i | 0 <= i < |purchases| :: purchases[i].leadTimeDays.Some? ==> purchases[i].leadTimeDays.value >= 0
    ensures Optimize(master, purchases, abc)[j].planned.reorderPoint >= 0
  {
    var p := Optimize(master, purchases, abc)[j].planned;
    DemandNonNegative(master, purchases, abc, j);
    OptimizeLeadTime(master, purchases, abc, j);
    var bought := Select(purchases, PurchaseProduct, p.costed.product);
    SelectMembers(purchases, PurchaseProduct, p.costed.product);
    LeadTimesNonNegative(bought);
    LeadTimesNonNegative(purchases);
    ReorderPointNonNegative(p.costed.avgDailyDemand, p.avgLeadTimeDays);
  }

  /**
   With non-negative sales quantities and purchase prices, every EOQ is the
   rounded square root of a defined, non-negative radicand.
   */
  lemma EoqsDefined(master: seq<SalesMasterRow>, purchases: seq<CleanPurchase>, abc: seq<AbcRow>, j: nat)
    requires UniqueKeys(abc, RowProduct)
    requires j < |DemandTable(master)|
    ensures j < |Optimize(master, purchases, abc)|
    requires forall i | 0 <= i < |master| :: master[i].sale.salesQuantity >= 0
    requires forall i | 0 <= i < |purchases| :: purchases[i].purchasePrice >= 0.0
    ensures var c := Optimize(master, purchases, abc)[j].planned.costed;
      && Radicand(c.annualDemand, c.holdingCost).Some?
      && Radicand(c.annualDemand, c.holdingCost).value >= 0.0
      && IsRoundedSqrt(Radicand(c.annualDemand, c.holdingCost).value, c.eoq)
  {
    var c := Optimize(master, purchases, abc)[j].planned.costed;
    DemandNonNegative(master, purchases, abc, j);
    UnitCostNonNegative(master, purchases, abc, j);
    OptimizeCost(master, purchases, abc, j);
    CostedEoqDefined(c);
  }

  lemma CostedEoqDefined(c: CostedRow)
    requires c.annualDemand >= 0 && c.avgUnitCost >= 0.0
    requires c.holdingCost == c.avgUnitCost * HoldingCostRate
    requires c.eoq == Eoq(c.annualDemand, c.holdingCost)
    ensures var x := Radicand(c.annualDemand, c.holdingCost);
      x.Some? && x.value >= 0.0 && IsRoundedSqrt(x.value, c.eoq)
  {
    EoqDefined(c.annualDemand, c.avgUnitCost);
  }

  /** With non-negative purchase prices, every unit cost is non-negative. */
  lemma UnitCostNonNegative(master: seq<SalesMasterRow>, purchases: seq<CleanPurchase>, abc: seq<AbcRow>, j: nat)
    requires UniqueKeys(abc, RowProduct)
    requires j < |DemandTable(master)|
    ensures j < |Optimize(master, purchases, abc)|
    requires forall i | 0 <= i < |purchases| :: purchases[i].purchasePrice >= 0.0
    ensures Optimize(master, purchases, abc)[j].planned.costed.avgUnitCost >= 0.0
  {
    var c := Optimize(master, purchases, abc)[j].planned.costed;
    OptimizeCost(master, purchases, abc, j);
    var bought := Select(purchases, PurchaseProduct, c.product);
    SelectMembers(purchases, PurchaseProduct, c.product);
    forall i | 0 <= i < |bought| ensures PurchasePrices(bought)[i] >= 0.0 {
      assert bought[i] in purchases;
    }
    MeanNonNegative(PurchasePrices(bought));
  }

  /** The mean lead time of purchases with non-negative lead times is non-negative. */
  lemma LeadTimesNonNegative(group: seq<CleanPurchase>)
    requires forall c | c in group :: c.leadTimeDays.Some? ==> c.leadTimeDays.value >= 0
    ensures MeanLeadTime(group).Some? ==> MeanLeadTime(group).value >= 0.0
  {
    assert forall i | 0 <= i < |group| :: group[i] in group;
    MeanPresentNonNegative(LeadTimes(group));
  }
}
