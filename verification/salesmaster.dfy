/**
 The sales master: every sale, joined by inventory id onto the inventory
 master and by (brand, size) onto the mean purchase price, with its cost of
 goods sold and its gross profit.
 */
module SalesMaster {
  import opened Optional
  import opened Tables
  import opened Sums
  import opened Records
  import opened Inventory
  import opened Purchases

  /**
   A row of the sales master. The stock columns are None for a sale whose
   inventory id is not in the inventory master; the purchase price is zero
   for a sale whose brand and size were never purchased.
   */
  datatype SalesMasterRow = SalesMasterRow(
    sale: SaleRow,
    begOnHand: Option<real>,
    endOnHand: Option<real>,
    avgPrice: Option<real>,
    avgPurchasePrice: real,
    cogs: real,
    grossProfit: real)

  function SaleInventoryId(s: SaleRow): string {
    s.inventoryId
  }

  function InventoryIdOf(r: InventoryRow): string {
    r.inventoryId
  }

  function PurchaseBrandSize(c: CleanPurchase): BrandSize {
    (c.brand, c.size)
  }

  /** The (brand, size) of the sale in a row of the first merge. */
  function StockedKey(p: (SaleRow, Option<InventoryRow>)): BrandSize {
    SaleBrandSize(p.0)
  }

  function PurchasePrices(group: seq<CleanPurchase>): (prices: seq<real>)
    ensures |prices| == |group|
    ensures forall i | 0 <= i < |group| :: prices[i] == group[i].purchasePrice
  {
    seq(|group|, i requires 0 <= i < |group| => group[i].purchasePrice)
  }

  /** The mean purchase price of a group of purchases. */
  function MeanPurchasePrice(group: seq<CleanPurchase>): Option<real> {
    Mean(PurchasePrices(group))
  }

  /** The mean purchase price per (brand, size), one row per pair that was purchased. */
  function AvgPurchasePrices(purchases: seq<CleanPurchase>): seq<(BrandSize, Option<real>)> {
    GroupBy(purchases, PurchaseBrandSize, MeanPurchasePrice)
  }

  /** The mean price found by a merge with a table of mean prices, or zero (`fillna(0)`) where there is none. */
  function PriceOf<K>(found: Option<(K, Option<real>)>): real {
    match found
    case Some((_, price)) => price.GetOr(0.0)
    case None => 0.0
  }

  /** The cost of goods sold of `quantity` units at `price` each. */
  function Cogs(quantity: int, price: real): real {
    quantity as real * price
  }

  /** A row of the second merge, completed with its cost of goods sold and gross profit. */
  function Finish(p: ((SaleRow, Option<InventoryRow>), Option<(BrandSize, Option<real>)>)): (r: SalesMasterRow)
    ensures r.cogs == Cogs(r.sale.salesQuantity, r.avgPurchasePrice)
    ensures r.grossProfit + r.cogs == r.sale.salesDollars
  {
    var (s, stock) := p.0;
    var price := PriceOf(p.1);
    var cogs := Cogs(s.salesQuantity, price);
    SalesMasterRow(
      s,
      if stock.Some? then Some(stock.value.begOnHand) else None,
      if stock.Some? then Some(stock.value.endOnHand) else None,
      if stock.Some? then Some(stock.value.avgPrice) else None,
      price, cogs, s.salesDollars - cogs)
  }

  /** The sales joined onto the inventory master by inventory id. */
  function Stocked(sales: seq<SaleRow>, inventory: seq<InventoryRow>): seq<(SaleRow, Option<InventoryRow>)> {
    LeftJoin(sales, inventory, SaleInventoryId, InventoryIdOf)
  }

  /**
   The second merge, by (brand, size) onto the mean purchase prices. The price
   table has one row per (brand, size), so the merge neither adds nor removes
   rows.
   */
  function Priced(sales: seq<SaleRow>, inventory: seq<InventoryRow>, purchases: seq<CleanPurchase>)
    : (priced: seq<((SaleRow, Option<InventoryRow>), Option<(BrandSize, Option<real>)>)>)
    ensures |priced| == |Stocked(sales, inventory)|
  {
    var stocked := Stocked(sales, inventory);
    var prices := AvgPurchasePrices(purchases);
    LeftJoinOneToOne(stocked, prices, StockedKey, Fst);
    LeftJoin(stocked, prices, StockedKey, Fst)
  }

  /** The second merge is a lookup: row `j` is row `j` of the first merge with the mean price of its (brand, size), if any. */
  lemma PricedLookup(sales: seq<SaleRow>, inventory: seq<InventoryRow>, purchases: seq<CleanPurchase>)
    ensures var stocked := Stocked(sales, inventory);
      forall j | 0 <= j < |stocked| ::
        Priced(sales, inventory, purchases)[j] == (stocked[j], Find(AvgPurchasePrices(purchases), Fst, StockedKey(stocked[j])))
  {
    LeftJoinOneToOne(Stocked(sales, inventory), AvgPurchasePrices(purchases), StockedKey, Fst);
  }

  /** The sales master: one row per row of the first merge. */
  function BuildSalesMaster(sales: seq<SaleRow>, inventory: seq<InventoryRow>, purchases: seq<CleanPurchase>)
    : (master: seq<SalesMasterRow>)
    ensures |master| == |Stocked(sales, inventory)|
    ensures forall j | 0 <= j < |master| ::
      && master[j].cogs == Cogs(master[j].sale.salesQuantity, master[j].avgPurchasePrice)
      && master[j].grossProfit + master[j].cogs == master[j].sale.salesDollars
  {
    var priced := Priced(sales, inventory, purchases);
    seq(|priced|, j requires 0 <= j < |priced| => Finish(priced[j]))
  }

  /** Row `j` of the sales master is row `j` of the first merge, priced by lookup. */
  lemma SalesMasterAt(sales: seq<SaleRow>, inventory: seq<InventoryRow>, purchases: seq<CleanPurchase>, j: nat)
    requires j < |Stocked(sales, inventory)|
    ensures var stocked := Stocked(sales, inventory)[j];
      BuildSalesMaster(sales, inventory, purchases)[j]
        == Finish((stocked, Find(AvgPurchasePrices(purchases), Fst, SaleBrandSize(stocked.0))))
  {
    PricedLookup(sales, inventory, purchases);
  }

  /**
   Every row's cost of goods sold is its quantity times its purchase price,
   and its gross profit and cost of goods sold add up to its sales dollars.
   */
  lemma SalesMasterProfit(sales: seq<SaleRow>, inventory: seq<InventoryRow>, purchases: seq<CleanPurchase>)
    ensures forall r | r in BuildSalesMaster(sales, inventory, purchases) ::
      && r.cogs == Cogs(r.sale.salesQuantity, r.avgPurchasePrice)
      && r.grossProfit + r.cogs == r.sale.salesDollars
  {
    var master := BuildSalesMaster(sales, inventory, purchases);
    forall r | r in master
      ensures r.cogs == Cogs(r.sale.salesQuantity, r.avgPurchasePrice)
      ensures r.grossProfit + r.cogs == r.sale.salesDollars
    {
      var j :| 0 <= j < |master| && master[j] == r;
      SalesMasterAt(sales, inventory, purchases, j);
    }
  }

  /** Some row of the sales master carries the sale `s`. */
  ghost predicate KeepsSale(master: seq<SalesMasterRow>, s: SaleRow) {
    exists j | 0 <= j < |master| :: master[j].sale == s
  }

  lemma KeepsSaleAt(sales: seq<SaleRow>, inventory: seq<InventoryRow>, purchases: seq<CleanPurchase>, i: nat)
    requires i < |sales|
    ensures KeepsSale(BuildSalesMaster(sales, inventory, purchases), sales[i])
  {
    var stocked := Stocked(sales, inventory);
    LeftJoinKeepsRow(sales, inventory, SaleInventoryId, InventoryIdOf, i);
    var j :| 0 <= j < |stocked| && stocked[j].0 == sales[i];
    SalesMasterAt(sales, inventory, purchases, j);
  }

  /** The sales master keeps every sale. */
  lemma SalesMasterKeepsSales(sales: seq<SaleRow>, inventory: seq<InventoryRow>, purchases: seq<CleanPurchase>)
    ensures forall i | 0 <= i < |sales| :: KeepsSale(BuildSalesMaster(sales, inventory, purchases), sales[i])
  {
    forall i | 0 <= i < |sales| {
      KeepsSaleAt(sales, inventory, purchases, i);
    }
  }

  /**
   A row of the sales master is a sale. Its stock columns come from an
   inventory row with the sale's inventory id, and are all None exactly when
   the inventory master has no such row.
   */
  lemma SalesMasterStock(sales: seq<SaleRow>, inventory: seq<InventoryRow>, purchases: seq<CleanPurchase>, j: nat)
    requires j < |Stocked(sales, inventory)|
    ensures var r := BuildSalesMaster(sales, inventory, purchases)[j];
      && r.sale in sales
      && (r.begOnHand.None? <==> !HasKey(inventory, InventoryIdOf, r.sale.inventoryId))
      && r.begOnHand.None? == r.endOnHand.None? == r.avgPrice.None?
      && (r.begOnHand.Some? ==> exists k | 0 <= k < |inventory| ::
            && inventory[k].inventoryId == r.sale.inventoryId
            && r.begOnHand.value == inventory[k].begOnHand
            && r.endOnHand.value == inventory[k].endOnHand
            && r.avgPrice.value == inventory[k].avgPrice)
  {
    var stocked := Stocked(sales, inventory);
    SalesMasterAt(sales, inventory, purchases, j);
    LeftJoinSound(sales, inventory, SaleInventoryId, InventoryIdOf);
    assert stocked[j] in stocked;
    var o := stocked[j];
    if o.1.Some? {
      var k :| 0 <= k < |inventory| && inventory[k] == o.1.value;
      assert HasKey(inventory, InventoryIdOf, o.0.inventoryId);
    }
  }

  /**
   The purchase price of a sale is the mean price of the purchases of its
   brand and size (whatever their description), or zero when there are none.
   */
  lemma SalesMasterPrice(sales: seq<SaleRow>, inventory: seq<InventoryRow>, purchases: seq<CleanPurchase>, j: nat)
    requires j < |Stocked(sales, inventory)|
    ensures var r := BuildSalesMaster(sales, inventory, purchases)[j];
      var group := Select(purchases, PurchaseBrandSize, SaleBrandSize(r.sale));
      && (|group| > 0 ==> Some(r.avgPurchasePrice) == MeanPurchasePrice(group))
      && (|group| == 0 ==> r.avgPurchasePrice == 0.0)
  {
    var stocked := Stocked(sales, inventory);
    var k := SaleBrandSize(stocked[j].0);
    SalesMasterAt(sales, inventory, purchases, j);
    GroupByFind(purchases, PurchaseBrandSize, MeanPurchasePrice, k);
    SelectMembers(purchases, PurchaseBrandSize, k);
  }

  /** Sales of the same brand and size are costed at the same price, even under different descriptions. */
  lemma PriceIgnoresDescription(sales: seq<SaleRow>, inventory: seq<InventoryRow>, purchases: seq<CleanPurchase>, j1: nat, j2: nat)
    requires j1 < |Stocked(sales, inventory)| && j2 < |Stocked(sales, inventory)|
    ensures var master := BuildSalesMaster(sales, inventory, purchases);
      master[j1].sale.brand == master[j2].sale.brand && master[j1].sale.size == master[j2].sale.size ==>
        master[j1].avgPurchasePrice == master[j2].avgPurchasePrice
  {
    SalesMasterPrice(sales, inventory, purchases, j1);
    SalesMasterPrice(sales, inventory, purchases, j2);
  }

  /** When inventory ids are unique in the inventory master, the sales master has one row per sale, in order. */
  lemma SalesMasterOneToOne(sales: seq<SaleRow>, inventory: seq<InventoryRow>, purchases: seq<CleanPurchase>)
    requires UniqueKeys(inventory, InventoryIdOf)
    ensures |BuildSalesMaster(sales, inventory, purchases)| == |sales|
    ensures forall i | 0 <= i < |sales| :: BuildSalesMaster(sales, inventory, purchases)[i].sale == sales[i]
  {
    LeftJoinOneToOne(sales, inventory, SaleInventoryId, InventoryIdOf);
    forall i | 0 <= i < |sales| ensures BuildSalesMaster(sales, inventory, purchases)[i].sale == sales[i] {
      SalesMasterAt(sales, inventory, purchases, i);
    }
  }
}
