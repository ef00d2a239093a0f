/**
 Purchase cleaning: a missing size is looked up by brand among the sizes the
 brand was sold in, a row whose size is still missing is dropped, and the lead
 time of a purchase is the number of days from its order to its receipt.
 */
module Purchases {
  import opened Optional
  import opened Tables
  import opened Records

  /**
   A line of the purchases file. A date that is empty or failed to parse is
   None. Brand, description and price are taken as present.
   */
  datatype PurchaseRow = PurchaseRow(
    brand: int,
    description: string,
    size: Option<string>,
    poDate: Option<int>,
    receivingDate: Option<int>,
    purchasePrice: real)

  /** A purchase that survived cleaning: it has a size, and its lead time where both dates parsed. */
  datatype CleanPurchase = CleanPurchase(
    brand: int,
    description: string,
    size: string,
    poDate: Option<int>,
    receivingDate: Option<int>,
    purchasePrice: real,
    leadTimeDays: Option<int>)

  function SaleBrand(s: SaleRow): int {
    s.brand
  }

  /** The (brand, size) key of a sale, which is also its brand-to-size pair. */
  function SaleBrandSize(s: SaleRow): BrandSize {
    (s.brand, s.size)
  }

  /** The (brand, size) column of the sales, row by row. */
  function BrandSizeColumn(sales: seq<SaleRow>): (column: seq<(int, string)>)
    ensures |column| == |sales|
    ensures forall i | 0 <= i < |sales| :: column[i] == SaleBrandSize(sales[i])
  {
    seq(|sales|, i requires 0 <= i < |sales| => SaleBrandSize(sales[i]))
  }

  /** The distinct (brand, size) pairs of the sales, in first-occurrence order. */
  function BrandSizes(sales: seq<SaleRow>): (pairs: seq<(int, string)>)
    ensures forall p :: p in pairs <==> exists i | 0 <= i < |sales| :: SaleBrandSize(sales[i]) == p
  {
    Distinct(BrandSizeColumn(sales))
  }

  /**
   The brand-to-size lookup: one entry per brand that was sold. When a brand
   was sold in several sizes, `to_dict` keeps the last of its distinct pairs,
   which is the pair whose first occurrence comes last.
   */
  function SizeMap(sales: seq<SaleRow>): (sizes: map<int, string>)
    ensures forall b :: b in sizes <==> HasKey(sales, SaleBrand, b)
    ensures forall b | b in sizes :: exists i | 0 <= i < |sales| :: SaleBrandSize(sales[i]) == (b, sizes[b])
    ensures forall b | b in sizes :: FirstSeenLast(BrandSizeColumn(sales), b, sizes[b])
  {
    var pairs := BrandSizes(sales);
    var sizes := ToDict(pairs);
    assert forall b | HasKey(sales, SaleBrand, b) :: HasKey(pairs, Fst, b) by {
      forall b | HasKey(sales, SaleBrand, b) ensures HasKey(pairs, Fst, b) {
        var i :| 0 <= i < |sales| && SaleBrand(sales[i]) == b;
        assert SaleBrandSize(sales[i]) in pairs;
        var j :| 0 <= j < |pairs| && pairs[j] == SaleBrandSize(sales[i]);
        assert Fst(pairs[j]) == b;
      }
    }
    assert forall b | b in sizes :: exists i | 0 <= i < |sales| :: SaleBrandSize(sales[i]) == (b, sizes[b]) by {
      forall b | b in sizes ensures exists i | 0 <= i < |sales| :: SaleBrandSize(sales[i]) == (b, sizes[b]) {
        assert (b, sizes[b]) in pairs;
      }
    }
    forall b | b in sizes ensures FirstSeenLast(BrandSizeColumn(sales), b, sizes[b]) {
      DistinctToDict(BrandSizeColumn(sales), b);
    }
    sizes
  }

  /** The size a brand maps to is fixed: it is the one size whose (brand, size) pair first occurs last. */
  lemma SizeMapDetermined(sales: seq<SaleRow>, b: int, size: string)
    requires FirstSeenLast(BrandSizeColumn(sales), b, size)
    ensures b in SizeMap(sales) && SizeMap(sales)[b] == size
  {
    var column := BrandSizeColumn(sales);
    var i := FirstIndex(column, (b, size));
    assert SaleBrand(sales[i]) == b;
    FirstSeenLastUnique(column, b, SizeMap(sales)[b], size);
  }

  /** The whole days from order to receipt, or None when either date is missing. */
  function LeadTime(poDate: Option<int>, receivingDate: Option<int>): (days: Option<int>)
    ensures days.Some? <==> poDate.Some? && receivingDate.Some?
    ensures days.Some? ==> poDate.value + days.value == receivingDate.value
  {
    if poDate.Some? && receivingDate.Some? then Some(receivingDate.value - poDate.value) else None
  }

  /** The size a purchase has after the backfill: its own, else its brand's size in the lookup. */
  function FilledSize(p: PurchaseRow, sizes: map<int, string>): Option<string> {
    if p.size.Some? then p.size
    else if p.brand in sizes then Some(sizes[p.brand])
    else None
  }

  /** A purchase after the backfill, or None when it is dropped for lacking a size. */
  function CleanRow(p: PurchaseRow, sizes: map<int, string>): (c: Option<CleanPurchase>)
    ensures c.None? <==> p.size.None? && p.brand !in sizes
    ensures c.Some? ==> FilledSize(p, sizes) == Some(c.value.size)
    ensures c.Some? ==> c.value.leadTimeDays == LeadTime(p.poDate, p.receivingDate)
  {
    match FilledSize(p, sizes)
    case None => None
    case Some(size) =>
      Some(CleanPurchase(p.brand, p.description, size, p.poDate, p.receivingDate, p.purchasePrice,
                         LeadTime(p.poDate, p.receivingDate)))
  }

  /** The rows that survive, cleaned, in their original order. */
  function KeptRows(ps: seq<PurchaseRow>, sizes: map<int, string>): (kept: seq<CleanPurchase>)
    ensures |kept| <= |ps|
  {
    if |ps| == 0 then []
    else
      var last := ps[|ps| - 1];
      KeptRows(ps[..|ps| - 1], sizes) + (match CleanRow(last, sizes) case Some(c) => [c] case None => [])
  }

  /** The rows dropped for lacking a size, in their original order. */
  function DroppedRows(ps: seq<PurchaseRow>, sizes: map<int, string>): (dropped: seq<PurchaseRow>)
    ensures |dropped| <= |ps|
  {
    if |ps| == 0 then []
    else
      var last := ps[|ps| - 1];
      DroppedRows(ps[..|ps| - 1], sizes) + (if CleanRow(last, sizes).None? then [last] else [])
  }

  /** The cleaned purchases: every one is the cleaning of some purchase, and none is added. */
  function CleanPurchases(purchases: seq<PurchaseRow>, sales: seq<SaleRow>): (kept: seq<CleanPurchase>)
    ensures |kept| <= |purchases|
    ensures forall c | c in kept :: exists i | 0 <= i < |purchases| :: CleanRow(purchases[i], SizeMap(sales)) == Some(c)
  {
    KeptRowsSound(purchases, SizeMap(sales));
    KeptRows(purchases, SizeMap(sales))
  }

  /** The purchases dropped by the cleaning. */
  function DroppedPurchases(purchases: seq<PurchaseRow>, sales: seq<SaleRow>): seq<PurchaseRow> {
    DroppedRows(purchases, SizeMap(sales))
  }

  /** Every purchase is either kept or dropped, never both. */
  lemma {:induction false} PartitionCounts(ps: seq<PurchaseRow>, sizes: map<int, string>)
    ensures |KeptRows(ps, sizes)| + |DroppedRows(ps, sizes)| == |ps|
  {
    if |ps| > 0 {
      PartitionCounts(ps[..|ps| - 1], sizes);
    }
  }

  /** A kept row is a cleaned purchase row, with a size and the lead time of its dates. */
  lemma {:induction false} KeptRowsSound(ps: seq<PurchaseRow>, sizes: map<int, string>)
    ensures forall c | c in KeptRows(ps, sizes) :: exists i | 0 <= i < |ps| :: CleanRow(ps[i], sizes) == Some(c)
  {
    if |ps| > 0 {
      var init := ps[..|ps| - 1];
      KeptRowsSound(init, sizes);
      forall c | c in KeptRows(ps, sizes)
        ensures exists i | 0 <= i < |ps| :: CleanRow(ps[i], sizes) == Some(c)
      {
        if c in KeptRows(init, sizes) {
          var i :| 0 <= i < |init| && CleanRow(init[i], sizes) == Some(c);
          assert ps[i] == init[i];
        } else {
          assert CleanRow(ps[|ps| - 1], sizes) == Some(c);
        }
      }
    }
  }

  /** A row with a size of its own, or whose brand is in the lookup, is kept. */
  lemma {:induction false} KeptRowsComplete(ps: seq<PurchaseRow>, sizes: map<int, string>, i: nat)
    requires i < |ps| && CleanRow(ps[i], sizes).Some?
    ensures CleanRow(ps[i], sizes).value in KeptRows(ps, sizes)
  {
    if i < |ps| - 1 {
      var init := ps[..|ps| - 1];
      assert init[i] == ps[i];
      KeptRowsComplete(init, sizes, i);
    }
  }

  /** The dropped rows are exactly the rows without a size whose brand is not in the lookup. */
  lemma {:induction false} DroppedRowsExact(ps: seq<PurchaseRow>, sizes: map<int, string>)
    ensures forall p | p in DroppedRows(ps, sizes) :: p in ps && p.size.None? && p.brand !in sizes
    ensures forall p | p in ps && p.size.None? && p.brand !in sizes :: p in DroppedRows(ps, sizes)
  {
    if |ps| > 0 {
      var init := ps[..|ps| - 1];
      DroppedRowsExact(init, sizes);
      assert ps == init + [ps[|ps| - 1]];
    }
  }

  /**
   The cleaning partitions the purchases: kept and dropped rows add up to
   all rows; a row is dropped exactly when it has no size and its brand was
   never sold; every kept row carries the size it had, or else the size its
   brand maps to (of the brand's (brand, size) pairs, the one first seen
   last), and a lead time exactly when both its dates parsed.
   */
  lemma CleanPurchasesPartition(purchases: seq<PurchaseRow>, sales: seq<SaleRow>)
    ensures |CleanPurchases(purchases, sales)| + |DroppedPurchases(purchases, sales)| == |purchases|
    ensures forall p | p in DroppedPurchases(purchases, sales) ::
      p in purchases && p.size.None? && !HasKey(sales, SaleBrand, p.brand)
    ensures forall p | p in purchases && p.size.None? && !HasKey(sales, SaleBrand, p.brand) ::
      p in DroppedPurchases(purchases, sales)
    ensures forall c | c in CleanPurchases(purchases, sales) :: exists i | 0 <= i < |purchases| ::
      && purchases[i].brand == c.brand
      && purchases[i].description == c.description
      && purchases[i].purchasePrice == c.purchasePrice
      && (purchases[i].size.Some? ==> purchases[i].size.value == c.size)
      && (purchases[i].size.None? ==> exists k | 0 <= k < |sales| :: SaleBrandSize(sales[k]) == (c.brand, c.size))
      && (purchases[i].size.None? ==> FirstSeenLast(BrandSizeColumn(sales), c.brand, c.size))
      && (c.leadTimeDays.Some? <==> purchases[i].poDate.Some? && purchases[i].receivingDate.Some?)
      && (c.leadTimeDays.Some? ==> purchases[i].poDate.value + c.leadTimeDays.value == purchases[i].receivingDate.value)
  {
    var sizes := SizeMap(sales);
    PartitionCounts(purchases, sizes);
    DroppedRowsExact(purchases, sizes);
    KeptRowsSound(purchases, sizes);
  }

  /** A purchase with a size of its own keeps it, and every other field, through the cleaning. */
  lemma KeepsOwnSize(purchases: seq<PurchaseRow>, sales: seq<SaleRow>, i: nat)
    requires i < |purchases| && purchases[i].size.Some?
    ensures var p := purchases[i];
      CleanPurchase(p.brand, p.description, p.size.value, p.poDate, p.receivingDate, p.purchasePrice,
                    LeadTime(p.poDate, p.receivingDate)) in CleanPurchases(purchases, sales)
  {
    KeptRowsComplete(purchases, SizeMap(sales), i);
  }
}
