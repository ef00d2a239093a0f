/**
 The inventory master: the beginning and ending snapshots reconciled into one
 table. A missing city at period end is taken from the beginning snapshot's
 store-to-city lookup, the two snapshots are outer-merged on their six
 identifying columns, every cell still missing is filled with zero, and the
 average price is the mean of the two prices.
 */
module Inventory {
  import opened Optional
  import opened Tables

  /**
   A row of either snapshot; `onHand` and `price` are that snapshot's columns.
   Inventory id, store, brand, description and size are taken as present.
   */
  datatype StockRow = StockRow(
    inventoryId: string,
    store: int,
    city: Option<string>,
    brand: int,
    description: string,
    size: string,
    onHand: Option<real>,
    price: Option<real>)

  /** The six columns the snapshots are merged on. A missing city matches a missing city. */
  datatype StockKey = StockKey(
    inventoryId: string,
    store: int,
    city: Option<string>,
    brand: int,
    description: string,
    size: string)

  function KeyOf(r: StockRow): StockKey {
    StockKey(r.inventoryId, r.store, r.city, r.brand, r.description, r.size)
  }

  function StoreOf(r: StockRow): int {
    r.store
  }

  function StoreCity(r: StockRow): (int, Option<string>) {
    (r.store, r.city)
  }

  /** The (store, city) column of the beginning snapshot, row by row. */
  function StoreCityColumn(beg: seq<StockRow>): (column: seq<(int, Option<string>)>)
    ensures |column| == |beg|
    ensures forall i | 0 <= i < |beg| :: column[i] == StoreCity(beg[i])
  {
    seq(|beg|, i requires 0 <= i < |beg| => StoreCity(beg[i]))
  }

  /** The distinct (store, city) pairs of the beginning snapshot, in first-occurrence order. */
  function StoreCities(beg: seq<StockRow>): (pairs: seq<(int, Option<string>)>)
    ensures forall p :: p in pairs <==> exists i | 0 <= i < |beg| :: StoreCity(beg[i]) == p
  {
    Distinct(StoreCityColumn(beg))
  }

  /**
   The store-to-city lookup: one entry per store of the beginning snapshot.
   When a store was seen with several cities, `to_dict` keeps the last of its
   distinct pairs, which is the pair whose first occurrence comes last.
   */
  function CityMap(beg: seq<StockRow>): (cities: map<int, Option<string>>)
    ensures forall s :: s in cities <==> HasKey(beg, StoreOf, s)
    ensures forall s | s in cities :: exists i | 0 <= i < |beg| :: StoreCity(beg[i]) == (s, cities[s])
    ensures forall s | s in cities :: FirstSeenLast(StoreCityColumn(beg), s, cities[s])
  {
    var pairs := StoreCities(beg);
    var cities := ToDict(pairs);
    assert forall s | HasKey(beg, StoreOf, s) :: HasKey(pairs, Fst, s) by {
      forall s | HasKey(beg, StoreOf, s) ensures HasKey(pairs, Fst, s) {
        var i :| 0 <= i < |beg| && StoreOf(beg[i]) == s;
        assert StoreCity(beg[i]) in pairs;
        var j :| 0 <= j < |pairs| && pairs[j] == StoreCity(beg[i]);
        assert Fst(pairs[j]) == s;
      }
    }
    assert forall s | s in cities :: exists i | 0 <= i < |beg| :: StoreCity(beg[i]) == (s, cities[s]) by {
      forall s | s in cities ensures exists i | 0 <= i < |beg| :: StoreCity(beg[i]) == (s, cities[s]) {
        assert (s, cities[s]) in pairs;
      }
    }
    forall s | s in cities ensures FirstSeenLast(StoreCityColumn(beg), s, cities[s]) {
      DistinctToDict(StoreCityColumn(beg), s);
    }
    cities
  }

  /** The city a store maps to is fixed: it is the one city whose (store, city) pair first occurs last. */
  lemma CityMapDetermined(beg: seq<StockRow>, s: int, city: Option<string>)
    requires FirstSeenLast(StoreCityColumn(beg), s, city)
    ensures s in CityMap(beg) && CityMap(beg)[s] == city
  {
    var column := StoreCityColumn(beg);
    var i := FirstIndex(column, (s, city));
    assert StoreOf(beg[i]) == s;
    FirstSeenLastUnique(column, s, CityMap(beg)[s], city);
  }

  function FillCity(r: StockRow, cities: map<int, Option<string>>): StockRow {
    if r.city.Some? then r
    else if r.store in cities then r.(city := cities[r.store])
    else r
  }

  /** Each row whose city is missing looks its store up in `cities`; nothing else changes. */
  function FillCities(end: seq<StockRow>, cities: map<int, Option<string>>): (filled: seq<StockRow>)
    ensures |filled| == |end|
    ensures forall i | 0 <= i < |end| :: filled[i] == end[i].(city := filled[i].city)
    ensures forall i | 0 <= i < |end| && end[i].city.Some? :: filled[i].city == end[i].city
    ensures forall i | 0 <= i < |end| && end[i].city.None? && end[i].store in cities ::
      filled[i].city == cities[end[i].store]
    ensures forall i | 0 <= i < |end| && end[i].city.None? && end[i].store !in cities ::
      filled[i].city.None?
  {
    seq(|end|, i requires 0 <= i < |end| => FillCity(end[i], cities))
  }

  /**
   The ending snapshot with each missing city looked up by store in the
   beginning snapshot's cities. Only the city of a row can change.
   */
  function BackfillCities(end: seq<StockRow>, beg: seq<StockRow>): (filled: seq<StockRow>)
    ensures |filled| == |end|
    ensures forall i | 0 <= i < |end| :: filled[i] == end[i].(city := filled[i].city)
    ensures forall i | 0 <= i < |end| && end[i].city.Some? :: filled[i].city == end[i].city
    ensures forall i | 0 <= i < |end| && end[i].city.None? && HasKey(beg, StoreOf, end[i].store) ::
      exists j | 0 <= j < |beg| :: StoreCity(beg[j]) == (end[i].store, filled[i].city)
    ensures forall i | 0 <= i < |end| && end[i].city.None? && end[i].store in CityMap(beg) ::
      filled[i].city == CityMap(beg)[end[i].store]
    ensures forall i | 0 <= i < |end| && end[i].city.None? && !HasKey(beg, StoreOf, end[i].store) ::
      filled[i].city.None?
  {
    FillCities(end, CityMap(beg))
  }

  /**
   A missing city at period end, of a store the beginning snapshot has,
   becomes the city of that store's (store, city) pair first seen last there.
   */
  lemma BackfillWinner(end: seq<StockRow>, beg: seq<StockRow>, i: nat)
    requires i < |end| && end[i].city.None? && HasKey(beg, StoreOf, end[i].store)
    ensures FirstSeenLast(StoreCityColumn(beg), end[i].store, BackfillCities(end, beg)[i].city)
  {
  }

  /** A store seen with a single city at period start passes that city to its rows lacking one at period end. */
  lemma BackfillSingleCity(end: seq<StockRow>, beg: seq<StockRow>, i: nat, city: Option<string>)
    requires i < |end| && end[i].city.None?
    requires HasKey(beg, StoreOf, end[i].store)
    requires forall j | 0 <= j < |beg| && beg[j].store == end[i].store :: beg[j].city == city
    ensures BackfillCities(end, beg)[i].city == city
  {
    var filled := BackfillCities(end, beg);
    var j :| 0 <= j < |beg| && StoreCity(beg[j]) == (end[i].store, filled[i].city);
  }

  /** A city cell after `fillna(0)`: the city, or the number 0 where it was missing. */
  datatype CityCell = CityName(name: string) | CityZero

  function ZeroFillCity(c: Option<string>): (cell: CityCell)
    ensures cell.CityZero? <==> c.None?
  {
    if c.Some? then CityName(c.value) else CityZero
  }

  /** The city a filled cell stands for. */
  function CityOfCell(cell: CityCell): (c: Option<string>)
    ensures ZeroFillCity(c) == cell
  {
    match cell
    case CityName(name) => Some(name)
    case CityZero => None
  }

  /** A row of the inventory master. No cell is missing. */
  datatype InventoryRow = InventoryRow(
    inventoryId: string,
    store: int,
    city: CityCell,
    brand: int,
    description: string,
    size: string,
    begOnHand: real,
    begPrice: real,
    endOnHand: real,
    endPrice: real,
    avgPrice: real)

  /** The merge key an inventory row was built from. */
  function InventoryKey(r: InventoryRow): StockKey {
    StockKey(r.inventoryId, r.store, CityOfCell(r.city), r.brand, r.description, r.size)
  }

  /** One row of the outer merge, zero-filled, with its average price. */
  function Reconcile(o: (Option<StockRow>, Option<StockRow>)): (r: InventoryRow)
    requires o.0.Some? || o.1.Some?
    ensures InventoryKey(r) == (if o.0.Some? then KeyOf(o.0.value) else KeyOf(o.1.value))
    ensures r.begOnHand == (if o.0.Some? then o.0.value.onHand.GetOr(0.0) else 0.0)
    ensures r.begPrice == (if o.0.Some? then o.0.value.price.GetOr(0.0) else 0.0)
    ensures r.endOnHand == (if o.1.Some? then o.1.value.onHand.GetOr(0.0) else 0.0)
    ensures r.endPrice == (if o.1.Some? then o.1.value.price.GetOr(0.0) else 0.0)
    ensures 2.0 * r.avgPrice == r.begPrice + r.endPrice
  {
    var k := if o.0.Some? then KeyOf(o.0.value) else KeyOf(o.1.value);
    var begOnHand := if o.0.Some? then o.0.value.onHand.GetOr(0.0) else 0.0;
    var begPrice := if o.0.Some? then o.0.value.price.GetOr(0.0) else 0.0;
    var endOnHand := if o.1.Some? then o.1.value.onHand.GetOr(0.0) else 0.0;
    var endPrice := if o.1.Some? then o.1.value.price.GetOr(0.0) else 0.0;
    InventoryRow(k.inventoryId, k.store, ZeroFillCity(k.city), k.brand, k.description, k.size,
                 begOnHand, begPrice, endOnHand, endPrice, (begPrice + endPrice) / 2.0)
  }

  /** The outer merge of the snapshots, before zero-filling. */
  function Merged(beg: seq<StockRow>, end: seq<StockRow>): seq<(Option<StockRow>, Option<StockRow>)> {
    OuterJoin(beg, BackfillCities(end, beg), KeyOf, KeyOf)
  }

  /** The inventory master: the zero-filled outer merge of the two snapshots. */
  function MergeInventory(beg: seq<StockRow>, end: seq<StockRow>): (inventory: seq<InventoryRow>)
    ensures |inventory| == |Merged(beg, end)|
    ensures forall j | 0 <= j < |inventory| :: inventory[j] == Reconcile(Merged(beg, end)[j])
    ensures forall j | 0 <= j < |inventory| :: 2.0 * inventory[j].avgPrice == inventory[j].begPrice + inventory[j].endPrice
  {
    var merged := Merged(beg, end);
    assert forall j | 0 <= j < |merged| :: merged[j] in merged;
    seq(|merged|, j requires 0 <= j < |merged| => Reconcile(merged[j]))
  }

  /** Some row of the inventory master has the key of `r` and the beginning quantities of `r`, zero for missing ones. */
  ghost predicate HasBeginning(inventory: seq<InventoryRow>, r: StockRow) {
    exists j | 0 <= j < |inventory| ::
      && InventoryKey(inventory[j]) == KeyOf(r)
      && inventory[j].begOnHand == r.onHand.GetOr(0.0)
      && inventory[j].begPrice == r.price.GetOr(0.0)
  }

  ghost predicate HasEnding(inventory: seq<InventoryRow>, r: StockRow) {
    exists j | 0 <= j < |inventory| ::
      && InventoryKey(inventory[j]) == KeyOf(r)
      && inventory[j].endOnHand == r.onHand.GetOr(0.0)
      && inventory[j].endPrice == r.price.GetOr(0.0)
  }

  lemma MergeKeepsBeginningRow(beg: seq<StockRow>, end: seq<StockRow>, i: nat)
    requires i < |beg|
    ensures HasBeginning(MergeInventory(beg, end), beg[i])
  {
    var filled := BackfillCities(end, beg);
    OuterJoinKeepsLeft(beg, filled, KeyOf, KeyOf, i);
    var merged := Merged(beg, end);
    var j :| 0 <= j < |merged| && merged[j].0 == Some(beg[i]);
    assert MergeInventory(beg, end)[j] == Reconcile(merged[j]);
  }

  lemma MergeKeepsEndingRow(beg: seq<StockRow>, end: seq<StockRow>, k: nat)
    requires k < |end|
    ensures HasEnding(MergeInventory(beg, end), BackfillCities(end, beg)[k])
  {
    var filled := BackfillCities(end, beg);
    OuterJoinKeepsRight(beg, filled, KeyOf, KeyOf, k);
    var merged := Merged(beg, end);
    var j :| 0 <= j < |merged| && merged[j].1 == Some(filled[k]);
    assert merged[j] in merged;
    assert MergeInventory(beg, end)[j] == Reconcile(merged[j]);
  }

  /**
   Every row of either snapshot (the ending one after the city backfill)
   reaches the inventory master under its own key, with its own quantity
   and price, a missing cell becoming zero.
   */
  lemma MergeKeepsRows(beg: seq<StockRow>, end: seq<StockRow>)
    ensures forall i | 0 <= i < |beg| :: HasBeginning(MergeInventory(beg, end), beg[i])
    ensures forall k | 0 <= k < |end| :: HasEnding(MergeInventory(beg, end), BackfillCities(end, beg)[k])
  {
    forall i | 0 <= i < |beg| {
      MergeKeepsBeginningRow(beg, end, i);
    }
    forall k | 0 <= k < |end| {
      MergeKeepsEndingRow(beg, end, k);
    }
  }

  /**
   A row of the inventory master comes from a snapshot row of its key. A key
   missing from one snapshot gets zero quantity and zero price on that side,
   so a key present only at period end has half the ending price as its
   average price.
   */
  lemma MergeRowSound(beg: seq<StockRow>, end: seq<StockRow>, j: nat)
    requires j < |MergeInventory(beg, end)|
    ensures var r, filled := MergeInventory(beg, end)[j], BackfillCities(end, beg);
      && (HasKey(beg, KeyOf, InventoryKey(r)) || HasKey(filled, KeyOf, InventoryKey(r)))
      && (!HasKey(beg, KeyOf, InventoryKey(r)) ==> r.begOnHand == 0.0 && r.begPrice == 0.0 && 2.0 * r.avgPrice == r.endPrice)
      && (!HasKey(filled, KeyOf, InventoryKey(r)) ==> r.endOnHand == 0.0 && r.endPrice == 0.0 && 2.0 * r.avgPrice == r.begPrice)
  {
    var filled := BackfillCities(end, beg);
    var merged := Merged(beg, end);
    var o := merged[j];
    assert o in merged;
    var r := MergeInventory(beg, end)[j];
    assert r == Reconcile(o);
    if o.0.Some? {
      var i :| 0 <= i < |beg| && beg[i] == o.0.value;
      assert KeyOf(beg[i]) == InventoryKey(r);
    }
    if o.1.Some? {
      var i :| 0 <= i < |filled| && filled[i] == o.1.value;
      assert KeyOf(filled[i]) == InventoryKey(r);
    }
  }
}
