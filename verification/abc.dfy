/**
 ABC classification: gross profit summed per product, products ranked by
 that profit, running totals and shares of the grand total taken down the
 ranking, and each product put in class A, B or C by its cumulative share.
 */
module Abc {
  import opened Optional
  import opened Tables
  import opened Sums
  import opened Records
  import opened SalesMaster

  function ProductOf(r: SalesMasterRow): ProductKey {
    ProductKey(r.sale.brand, r.sale.description, r.sale.size)
  }

  function GrossProfits(rows: seq<SalesMasterRow>): (profits: seq<real>)
    ensures |profits| == |rows|
    ensures forall i | 0 <= i < |rows| :: profits[i] == rows[i].grossProfit
  {
    seq(|rows|, i requires 0 <= i < |rows| => rows[i].grossProfit)
  }

  /** The gross profit of a group of sales. */
  function TotalGrossProfit(rows: seq<SalesMasterRow>): real {
    Sum(GrossProfits(rows))
  }

  /** One row per product of the sales master, with the product's total gross profit. */
  function ProductProfits(master: seq<SalesMasterRow>): (table: seq<(ProductKey, real)>)
    ensures UniqueKeys(table, Fst)
    ensures forall k :: HasKey(table, Fst, k) <==> HasKey(master, ProductOf, k)
    ensures forall e | e in table :: e.1 == TotalGrossProfit(Select(master, ProductOf, e.0))
  {
    GroupBy(master, ProductOf, TotalGrossProfit)
  }

  /** The products ordered by total gross profit, largest first. */
  ghost predicate NonIncreasing(xs: seq<(ProductKey, real)>) {
    forall i, j | 0 <= i < j < |xs| :: xs[i].1 >= xs[j].1
  }

  /** Every entry of `xs` has a profit of at most `bound`. */
  ghost predicate AllAtMost(xs: seq<(ProductKey, real)>, bound: real) {
    forall i | 0 <= i < |xs| :: xs[i].1 <= bound
  }

  lemma AtMostPermutation(xs: seq<(ProductKey, real)>, ys: seq<(ProductKey, real)>, bound: real)
    requires multiset(xs) == multiset(ys) && AllAtMost(xs, bound)
    ensures AllAtMost(ys, bound)
  {
    forall j | 0 <= j < |ys| ensures ys[j].1 <= bound {
      assert ys[j] in multiset(xs);
      var m :| 0 <= m < |xs| && xs[m] == ys[j];
    }
  }

  /** An entry at least as large as every entry of a ranking can go in front of it. */
  lemma ConsNonIncreasing(head: (ProductKey, real), rest: seq<(ProductKey, real)>)
    requires NonIncreasing(rest) && AllAtMost(rest, head.1)
    ensures NonIncreasing([head] + rest)
  {
    var ys := [head] + rest;
    forall i, j | 0 <= i < j < |ys| ensures ys[i].1 >= ys[j].1 {
      assert ys[j] == rest[j - 1];
      if 0 < i {
        assert ys[i] == rest[i - 1];
      }
    }
  }

  /** `x` inserted into a ranking before the first entry it does not fall below. */
  function Insert(x: (ProductKey, real), xs: seq<(ProductKey, real)>): (ys: seq<(ProductKey, real)>)
    requires NonIncreasing(xs)
    ensures NonIncreasing(ys)
    ensures multiset(ys) == multiset(xs) + multiset{x}
  {
    if |xs| == 0 then [x]
    else if x.1 >= xs[0].1 then
      assert AllAtMost(xs, x.1);
      ConsNonIncreasing(x, xs);
      [x] + xs
    else
      var head, tail := xs[0], xs[1..];
      assert xs == [head] + tail;
      var rest := Insert(x, tail);
      assert AllAtMost(tail + [x], head.1);
      assert multiset(tail + [x]) == multiset(rest);
      AtMostPermutation(tail + [x], rest, head.1);
      ConsNonIncreasing(head, rest);
      [head] + rest
  }

  /**
   `sort_values(ascending=False)`: a reordering of the products with profits
   non-increasing. Products of equal profit may come in any order, so every
   property below holds for any such ranking.
   */
  function SortByProfit(xs: seq<(ProductKey, real)>): (ys: seq<(ProductKey, real)>)
    ensures NonIncreasing(ys)
    ensures multiset(ys) == multiset(xs)
  {
    if |xs| == 0 then []
    else
      var init := xs[..|xs| - 1];
      assert xs == init + [xs[|xs| - 1]];
      Insert(xs[|xs| - 1], SortByProfit(init))
  }

  datatype Category = A | B | C

  /** The position of a class in the order A, B, C. */
  function Rank(c: Category): nat {
    match c
    case A => 0
    case B => 1
    case C => 2
  }

  /**
   `assign_abc`. A cumulative share that is not a number (the grand total
   was zero) fails both comparisons and lands in C.
   */
  function AssignAbc(p: Option<real>): (c: Category)
    ensures c == A <==> p.Some? && p.value <= 0.80
    ensures c == B <==> p.Some? && 0.80 < p.value <= 0.95
    ensures c == C <==> p.None? || p.value > 0.95
  {
    if p.Some? && p.value <= 0.80 then A
    else if p.Some? && p.value <= 0.95 then B
    else C
  }

  /** A larger cumulative share never gets a better class. */
  lemma AssignAbcMonotone(p: real, q: real)
    requires p <= q
    ensures Rank(AssignAbc(Some(p))) <= Rank(AssignAbc(Some(q)))
  {
  }

  /** A ranked product with its running totals and class. */
  datatype AbcRow = AbcRow(
    product: ProductKey,
    totalGrossProfit: real,
    cumulativeProfit: real,
    profitPercentage: Option<real>,
    cumulativeProfitPercentage: Option<real>,
    category: Category)

  function Profits(ranked: seq<(ProductKey, real)>): (profits: seq<real>)
    ensures |profits| == |ranked|
    ensures forall i | 0 <= i < |ranked| :: profits[i] == ranked[i].1
  {
    seq(|ranked|, i requires 0 <= i < |ranked| => ranked[i].1)
  }

  /** Each value as a share of `total`; every share is None (not a number) when the total is zero. */
  function Shares(profits: seq<real>, total: real): (shares: seq<Option<real>>)
    ensures |shares| == |profits|
    ensures forall i | 0 <= i < |profits| :: shares[i].Some? <==> total != 0.0
  {
    if total == 0.0 then seq(|profits|, i => None)
    else
      var ds := Divide(profits, total);
      seq(|profits|, i requires 0 <= i < |profits| => Some(ds[i]))
  }

  /** The running sum of the shares, None throughout when the shares are not numbers. */
  function CumulativeShares(profits: seq<real>, total: real): (cumulative: seq<Option<real>>)
    ensures |cumulative| == |profits|
    ensures forall i | 0 <= i < |profits| :: cumulative[i].Some? <==> total != 0.0
  {
    if total == 0.0 then seq(|profits|, i => None)
    else
      var cs := CumSum(Divide(profits, total));
      seq(|profits|, i requires 0 <= i < |profits| => Some(cs[i]))
  }

  /** The classification of a ranking, row by row. */
  function Classify(ranked: seq<(ProductKey, real)>): (rows: seq<AbcRow>)
    ensures |rows| == |ranked|
    ensures forall i | 0 <= i < |ranked| :: rows[i].product == ranked[i].0 && rows[i].totalGrossProfit == ranked[i].1
    ensures forall i | 0 <= i < |ranked| :: rows[i].category == AssignAbc(rows[i].cumulativeProfitPercentage)
  {
    var profits := Profits(ranked);
    var total := Sum(profits);
    var cumulative := CumSum(profits);
    var shares := Shares(profits, total);
    var cumulativeShares := CumulativeShares(profits, total);
    seq(|ranked|, i requires 0 <= i < |ranked| =>
      AbcRow(ranked[i].0, ranked[i].1, cumulative[i], shares[i], cumulativeShares[i], AssignAbc(cumulativeShares[i])))
  }

  /** The classification of the sales master: `abc_analysis.py` end to end. */
  function AbcAnalysis(master: seq<SalesMasterRow>): (rows: seq<AbcRow>)
    ensures |rows| == |ProductProfits(master)|
    ensures forall i, j | 0 <= i < j < |rows| :: rows[i].totalGrossProfit >= rows[j].totalGrossProfit
    ensures forall i | 0 <= i < |rows| :: rows[i].category == AssignAbc(rows[i].cumulativeProfitPercentage)
  {
    var table := ProductProfits(master);
    var ranked := SortByProfit(table);
    assert |ranked| == |multiset(ranked)| == |multiset(table)| == |table|;
    Classify(ranked)
  }
  /**
   Row `i` of a classification: its running profit is the sum of the
   profits ranked up to and including it; its share and its cumulative share
   are its profit and its running profit divided by the grand total, and
   both are None when the grand total is zero.
   */
  lemma ClassifyRowAt(ranked: seq<(ProductKey, real)>, i: nat)
    requires i < |ranked|
    ensures var row, profits := Classify(ranked)[i], Profits(ranked);
      var total := Sum(profits);
      && row.cumulativeProfit == Sum(profits[..i + 1])
      && (total == 0.0 ==> row.profitPercentage.None? && row.cumulativeProfitPercentage.None?)
      && (total != 0.0 ==> row.profitPercentage == Some(ranked[i].1 / total))
      && (total != 0.0 ==> row.cumulativeProfitPercentage == Some(row.cumulativeProfit / total))
  {
    var profits := Profits(ranked);
    var total := Sum(profits);
    if total != 0.0 {
      var ds := Divide(profits, total);
      DividePrefix(profits, total, i + 1);
      SumDivide(profits[..i + 1], total);
      assert CumSum(ds)[i] == Sum(ds[..i + 1]);
    }
  }

  lemma ClassifyRows(ranked: seq<(ProductKey, real)>)
    ensures forall i | 0 <= i < |ranked| ::
      var row, profits := Classify(ranked)[i], Profits(ranked);
      var total := Sum(profits);
      && row.cumulativeProfit == Sum(profits[..i + 1])
      && (total == 0.0 ==> row.profitPercentage.None? && row.cumulativeProfitPercentage.None?)
      && (total != 0.0 ==> row.profitPercentage == Some(ranked[i].1 / total))
      && (total != 0.0 ==> row.cumulativeProfitPercentage == Some(row.cumulativeProfit / total))
  {
    forall i | 0 <= i < |ranked| {
      ClassifyRowAt(ranked, i);
    }
  }

  /**
   The last row's running profit is the grand total, so its cumulative share
   is exactly 1 whenever the total is not zero; either way the last product
   is in class C.
   */
  lemma LastShareIsWhole(ranked: seq<(ProductKey, real)>)
    requires |ranked| > 0
    ensures var last, total := Classify(ranked)[|ranked| - 1], Sum(Profits(ranked));
      && last.cumulativeProfit == total
      && (total != 0.0 ==> last.cumulativeProfitPercentage == Some(1.0))
      && last.category == C
  {
    var n := |ranked|;
    var profits := Profits(ranked);
    var total := Sum(profits);
    var last := Classify(ranked)[n - 1];
    ClassifyRowAt(ranked, n - 1);
    assert profits[..n] == profits;
    assert last.cumulativeProfit == total;
    if total != 0.0 {
      assert total / total == 1.0;
      assert last.cumulativeProfitPercentage == Some(1.0);
    }
    assert last.category == AssignAbc(last.cumulativeProfitPercentage);
  }

  /**
   On a ranking in non-increasing profit order whose profits add up to zero,
   every running profit is at least zero. Divided by the zero total, the
   cumulative share is then +inf or NaN, never -inf, and neither is at most
   0.80 or 0.95: the None the model keeps there stands for those two.
   */
  lemma ZeroTotalRunningProfits(ranked: seq<(ProductKey, real)>)
    requires NonIncreasing(ranked)
    requires Sum(Profits(ranked)) == 0.0
    ensures forall i | 0 <= i < |ranked| :: Classify(ranked)[i].cumulativeProfit >= 0.0
  {
    forall i | 0 <= i < |ranked| ensures Classify(ranked)[i].cumulativeProfit >= 0.0 {
      ClassifyRowAt(ranked, i);
      PrefixOfZeroSum(Profits(ranked), i);
    }
  }

  /**
   On a ranking in non-increasing profit order whose profits add up to zero,
   every cumulative share is not a number and every product is in class C.
   */
  lemma ZeroTotalAllC(ranked: seq<(ProductKey, real)>)
    requires NonIncreasing(ranked)
    requires Sum(Profits(ranked)) == 0.0
    ensures forall i | 0 <= i < |ranked| :: Classify(ranked)[i].cumulativeProfitPercentage.None?
    ensures forall i | 0 <= i < |ranked| :: Classify(ranked)[i].category == C
  {
    ClassifyRows(ranked);
  }

  /**
   With no loss-making product and a positive total, the cumulative share
   never decreases down the ranking.
   */
  lemma CumulativeSharesMonotone(ranked: seq<(ProductKey, real)>)
    requires forall i | 0 <= i < |ranked| :: ranked[i].1 >= 0.0
    requires Sum(Profits(ranked)) > 0.0
    ensures forall i | 0 <= i < |ranked| :: Classify(ranked)[i].cumulativeProfitPercentage.Some?
    ensures forall i, j | 0 <= i <= j < |ranked| ::
      Classify(ranked)[i].cumulativeProfitPercentage.value <= Classify(ranked)[j].cumulativeProfitPercentage.value
  {
    var rows := Classify(ranked);
    var profits := Profits(ranked);
    var total := Sum(profits);
    ClassifyRows(ranked);
    CumSumMonotone(profits);
    forall i, j | 0 <= i <= j < |ranked|
      ensures rows[i].cumulativeProfitPercentage.value <= rows[j].cumulativeProfitPercentage.value
    {
      var p, q := rows[i].cumulativeProfit, rows[j].cumulativeProfit;
      assert p == CumSum(profits)[i] && q == CumSum(profits)[j];
      DivideMonotone(p, q, total);
    }
  }

  lemma DivideMonotone(p: real, q: real, t: real)
    requires p <= q && t > 0.0
    ensures p / t <= q / t
  {
    var d := (q - p) / t;
    assert d * t == q - p;
    assert q / t - p / t == d;
  }

  /**
   With no loss-making product the classes follow the ranking: every A
   comes before every B, and every B before every C.
   */
  lemma CategoriesOrdered(ranked: seq<(ProductKey, real)>)
    requires forall i | 0 <= i < |ranked| :: ranked[i].1 >= 0.0
    ensures forall i, j | 0 <= i <= j < |ranked| ::
      Rank(Classify(ranked)[i].category) <= Rank(Classify(ranked)[j].category)
  {
    var rows := Classify(ranked);
    var profits := Profits(ranked);
    var total := Sum(profits);
    ClassifyRows(ranked);
    SumNonNegative(profits);
    CumSumMonotone(profits);
    forall i, j | 0 <= i <= j < |ranked|
      ensures Rank(rows[i].category) <= Rank(rows[j].category)
    {
      if total != 0.0 {
        var p, q := rows[i].cumulativeProfit, rows[j].cumulativeProfit;
        assert p == CumSum(profits)[i] && q == CumSum(profits)[j];
        DivideMonotone(p, q, total);
        AssignAbcMonotone(p / total, q / total);
      }
    }
  }

  function RowProduct(r: AbcRow): ProductKey {
    r.product
  }

  /** Every entry of the ranking is an entry of the per-product table, and the other way round. */
  lemma RankedEntries(master: seq<SalesMasterRow>)
    ensures var table := ProductProfits(master);
      forall e :: e in SortByProfit(table) <==> e in table
  {
    var table := ProductProfits(master);
    var ranked := SortByProfit(table);
    forall e ensures e in ranked <==> e in table {
      assert e in ranked <==> e in multiset(ranked);
      assert e in table <==> e in multiset(table);
    }
  }

  /** The classification of the sales master has one row per product sold. */
  lemma AbcOnePerProduct(master: seq<SalesMasterRow>)
    ensures UniqueKeys(AbcAnalysis(master), RowProduct)
    ensures forall k :: HasKey(AbcAnalysis(master), RowProduct, k) <==> HasKey(master, ProductOf, k)
  {
    AbcUniqueProducts(master);
    AbcProducts(master);
  }

  lemma AbcUniqueProducts(master: seq<SalesMasterRow>)
    ensures UniqueKeys(AbcAnalysis(master), RowProduct)
  {
    var table := ProductProfits(master);
    var ranked := SortByProfit(table);
    var rows := Classify(ranked);
    UniqueKeysPermutation(table, ranked, Fst);
    forall i, j | 0 <= i < j < |rows| ensures RowProduct(rows[i]) != RowProduct(rows[j]) {
      assert Fst(ranked[i]) != Fst(ranked[j]);
    }
  }

  lemma AbcProducts(master: seq<SalesMasterRow>)
    ensures forall k :: HasKey(AbcAnalysis(master), RowProduct, k) <==> HasKey(master, ProductOf, k)
  {
    var table := ProductProfits(master);
    var ranked := SortByProfit(table);
    var rows := Classify(ranked);
    RankedEntries(master);
    forall k ensures HasKey(rows, RowProduct, k) <==> HasKey(table, Fst, k) {
      if HasKey(table, Fst, k) {
        var m :| 0 <= m < |table| && Fst(table[m]) == k;
        assert table[m] in table;
        assert table[m] in ranked;
        var i :| 0 <= i < |ranked| && ranked[i] == table[m];
        assert RowProduct(rows[i]) == k;
      }
      if HasKey(rows, RowProduct, k) {
        var i :| 0 <= i < |rows| && RowProduct(rows[i]) == k;
        assert ranked[i] in ranked;
        assert ranked[i] in table;
        var m :| 0 <= m < |table| && table[m] == ranked[i];
        assert Fst(table[m]) == k;
      }
    }
  }

  /**
   Each product's total gross profit is the sum over that product's sales,
   and the rows are ranked by it, largest first.
   */
  lemma AbcProfitsRanked(master: seq<SalesMasterRow>)
    ensures forall r | r in AbcAnalysis(master) ::
      r.totalGrossProfit == TotalGrossProfit(Select(master, ProductOf, r.product))
    ensures var rows := AbcAnalysis(master);
      forall i, j | 0 <= i < j < |rows| :: rows[i].totalGrossProfit >= rows[j].totalGrossProfit
  {
    var table := ProductProfits(master);
    var ranked := SortByProfit(table);
    var rows := Classify(ranked);
    RankedEntries(master);
    forall r | r in rows ensures r.totalGrossProfit == TotalGrossProfit(Select(master, ProductOf, r.product)) {
      var i :| 0 <= i < |rows| && rows[i] == r;
      assert ranked[i] in ranked;
      assert ranked[i] in table;
    }
  }
}
