/**
 The per-class summary of an ABC classification: for each class that occurs,
 the number of products, their total profit, the smallest and largest
 product profit, and the class's share of all profit and of all products.
 Classes come in the order A, B, C, the order grouping sorts them in.
 */
module Rollup {
  import opened Optional
  import opened Sums
  import opened Abc

  /** The total gross profits of the rows in class `c`, in ranking order. */
  function ProfitsIn(rows: seq<AbcRow>, c: Category): (ps: seq<real>)
    ensures |ps| <= |rows|
  {
    if |rows| == 0 then []
    else
      var last := rows[|rows| - 1];
      ProfitsIn(rows[..|rows| - 1], c) + (if last.category == c then [last.totalGrossProfit] else [])
  }

  /** The profits in class `c` are exactly the profits of the rows of that class. */
  lemma {:induction false} ProfitsInMembers(rows: seq<AbcRow>, c: Category)
    ensures forall p | p in ProfitsIn(rows, c) :: exists i | 0 <= i < |rows| :: rows[i].category == c && rows[i].totalGrossProfit == p
    ensures forall i | 0 <= i < |rows| && rows[i].category == c :: rows[i].totalGrossProfit in ProfitsIn(rows, c)
  {
    if |rows| > 0 {
      var init := rows[..|rows| - 1];
      ProfitsInMembers(init, c);
      forall p | p in ProfitsIn(rows, c)
        ensures exists i | 0 <= i < |rows| :: rows[i].category == c && rows[i].totalGrossProfit == p
      {
        if p in ProfitsIn(init, c) {
          var i :| 0 <= i < |init| && init[i].category == c && init[i].totalGrossProfit == p;
          assert rows[i] == init[i];
        }
      }
      forall i | 0 <= i < |rows| && rows[i].category == c ensures rows[i].totalGrossProfit in ProfitsIn(rows, c) {
        if i < |init| {
          assert init[i] == rows[i];
        }
      }
    }
  }

  /** Every row is in exactly one class. */
  lemma {:induction false} ClassSizes(rows: seq<AbcRow>)
    ensures |ProfitsIn(rows, A)| + |ProfitsIn(rows, B)| + |ProfitsIn(rows, C)| == |rows|
  {
    if |rows| > 0 {
      ClassSizes(rows[..|rows| - 1]);
    }
  }

  function RowProfits(rows: seq<AbcRow>): (ps: seq<real>)
    ensures |ps| == |rows|
    ensures forall i | 0 <= i < |rows| :: ps[i] == rows[i].totalGrossProfit
  {
    seq(|rows|, i requires 0 <= i < |rows| => rows[i].totalGrossProfit)
  }

  /** The class totals add up to the total over all rows. */
  lemma {:induction false} ClassSums(rows: seq<AbcRow>)
    ensures Sum(ProfitsIn(rows, A)) + Sum(ProfitsIn(rows, B)) + Sum(ProfitsIn(rows, C)) == Sum(RowProfits(rows))
  {
    if |rows| > 0 {
      var init, last := rows[..|rows| - 1], rows[|rows| - 1];
      ClassSums(init);
      assert RowProfits(rows)[..|rows| - 1] == RowProfits(init);
      var x := last.totalGrossProfit;
      SumCons(x, []);
      assert [x] + [] == [x];
      SumAppend(ProfitsIn(init, A), if last.category == A then [x] else []);
      SumAppend(ProfitsIn(init, B), if last.category == B then [x] else []);
      SumAppend(ProfitsIn(init, C), if last.category == C then [x] else []);
    }
  }

  /** The smallest value of a non-empty column. */
  function Min(xs: seq<real>): (m: real)
    requires |xs| > 0
    ensures m in xs
    ensures forall x | x in xs :: m <= x
  {
    if |xs| == 1 then xs[0]
    else
      var rest := Min(xs[1..]);
      assert xs == [xs[0]] + xs[1..];
      if xs[0] <= rest then xs[0] else rest
  }

  /** The largest value of a non-empty column. */
  function Max(xs: seq<real>): (m: real)
    requires |xs| > 0
    ensures m in xs
    ensures forall x | x in xs :: x <= m
  {
    if |xs| == 1 then xs[0]
    else
      var rest := Max(xs[1..]);
      assert xs == [xs[0]] + xs[1..];
      if xs[0] >= rest then xs[0] else rest
  }

  /** The aggregates of one class: product count, profit sum, smallest and largest profit. */
  datatype CategoryStats = CategoryStats(
    category: Category,
    totalProducts: nat,
    totalProfit: real,
    minProfit: real,
    maxProfit: real)

  /** The aggregates of class `c`, or nothing when no product is in it. */
  function StatsOf(rows: seq<AbcRow>, c: Category): (stats: seq<CategoryStats>)
    ensures |stats| <= 1
  {
    var ps := ProfitsIn(rows, c);
    if |ps| == 0 then [] else [CategoryStats(c, |ps|, Sum(ps), Min(ps), Max(ps))]
  }

  /** One aggregate row per class that occurs, in the order A, B, C. */
  function Stats(rows: seq<AbcRow>): seq<CategoryStats> {
    StatsOf(rows, A) + StatsOf(rows, B) + StatsOf(rows, C)
  }

  function Totals(stats: seq<CategoryStats>): (ts: seq<real>)
    ensures |ts| == |stats|
    ensures forall i | 0 <= i < |stats| :: ts[i] == stats[i].totalProfit
  {
    seq(|stats|, i requires 0 <= i < |stats| => stats[i].totalProfit)
  }

  function Counts(stats: seq<CategoryStats>): (ns: seq<int>)
    ensures |ns| == |stats|
    ensures forall i | 0 <= i < |stats| :: ns[i] == stats[i].totalProducts
  {
    seq(|stats|, i requires 0 <= i < |stats| => stats[i].totalProducts as int)
  }

  /** A row of the summary. The profit share is None (not a number) when all profit adds up to zero. */
  datatype CategorySummary = CategorySummary(
    category: Category,
    totalProducts: nat,
    totalProfit: real,
    minProfit: real,
    maxProfit: real,
    profitShare: Option<real>,
    productShare: real)

  function ProductCounts(stats: seq<CategoryStats>): (xs: seq<real>)
    ensures |xs| == |stats|
    ensures forall i | 0 <= i < |stats| :: xs[i] == stats[i].totalProducts as real
  {
    seq(|stats|, i requires 0 <= i < |stats| => stats[i].totalProducts as real)
  }

  /**
   The summary: the aggregates with each class's percentage of all profit
   and of all products. The profit share is None when all profit adds up to
   zero; with no products the product share is zero.
   */
  function Summarize(rows: seq<AbcRow>): (summary: seq<CategorySummary>)
    ensures |summary| == |Stats(rows)|
    ensures forall k | 0 <= k < |summary| ::
      var s := Stats(rows)[k];
      && summary[k].category == s.category
      && summary[k].totalProducts == s.totalProducts
      && summary[k].totalProfit == s.totalProfit
      && summary[k].minProfit == s.minProfit
      && summary[k].maxProfit == s.maxProfit
  {
    var stats := Stats(rows);
    var total := Sum(Totals(stats));
    seq(|stats|, k requires 0 <= k < |stats| =>
      var s := stats[k];
      CategorySummary(s.category, s.totalProducts, s.totalProfit, s.minProfit, s.maxProfit,
        if total == 0.0 then None else Some(Percentages(Totals(stats), total)[k]),
        if |rows| == 0 then 0.0 else Percentages(ProductCounts(stats), |rows| as real)[k]))
  }

  /**
   The class product counts add up to the number of products, and the class
   profits to the grand total; the summary copies both columns (Summarize).
   */
  lemma StatsColumns(rows: seq<AbcRow>)
    ensures IntSum(Counts(Stats(rows))) == |rows|
    ensures Sum(Totals(Stats(rows))) == Sum(RowProfits(rows))
  {
    StatsCounts(rows);
    StatsTotals(rows);
  }

  lemma StatsCounts(rows: seq<AbcRow>)
    ensures IntSum(Counts(Stats(rows))) == |rows|
  {
    var sa, sb, sc := StatsOf(rows, A), StatsOf(rows, B), StatsOf(rows, C);
    CountsAppend(sa + sb, sc);
    CountsAppend(sa, sb);
    IntSumAppend(Counts(sa) + Counts(sb), Counts(sc));
    IntSumAppend(Counts(sa), Counts(sb));
    StatsOfColumns(rows, A);
    StatsOfColumns(rows, B);
    StatsOfColumns(rows, C);
    ClassSizes(rows);
  }

  lemma StatsTotals(rows: seq<AbcRow>)
    ensures Sum(Totals(Stats(rows))) == Sum(RowProfits(rows))
  {
    var sa, sb, sc := StatsOf(rows, A), StatsOf(rows, B), StatsOf(rows, C);
    TotalsAppend(sa + sb, sc);
    TotalsAppend(sa, sb);
    SumAppend(Totals(sa) + Totals(sb), Totals(sc));
    SumAppend(Totals(sa), Totals(sb));
    StatsOfColumns(rows, A);
    StatsOfColumns(rows, B);
    StatsOfColumns(rows, C);
    ClassSums(rows);
  }

  lemma CountsAppend(a: seq<CategoryStats>, b: seq<CategoryStats>)
    ensures Counts(a + b) == Counts(a) + Counts(b)
  {
  }

  lemma TotalsAppend(a: seq<CategoryStats>, b: seq<CategoryStats>)
    ensures Totals(a + b) == Totals(a) + Totals(b)
  {
  }

  lemma StatsOfColumns(rows: seq<AbcRow>, c: Category)
    ensures IntSum(Counts(StatsOf(rows, c))) == |ProfitsIn(rows, c)|
    ensures Sum(Totals(StatsOf(rows, c))) == Sum(ProfitsIn(rows, c))
  {
    var stats := StatsOf(rows, c);
    if |stats| == 1 {
      assert Counts(stats)[..0] == [];
      assert Totals(stats)[..0] == [];
    }
  }

  /** Entry `k` of the aggregates is the aggregate of class A, B or C, whichever comes at that place. */
  lemma StatsAt(rows: seq<AbcRow>, k: nat)
    requires k < |Stats(rows)|
    ensures var sa, sb := StatsOf(rows, A), StatsOf(rows, B);
      var c := if k < |sa| then A else if k < |sa| + |sb| then B else C;
      && Stats(rows)[k].category == c
      && |ProfitsIn(rows, c)| > 0
      && Stats(rows)[k] == CategoryStats(c, |ProfitsIn(rows, c)|, Sum(ProfitsIn(rows, c)), Min(ProfitsIn(rows, c)), Max(ProfitsIn(rows, c)))
  {
  }

  /** Some product is in class `c`. */
  ghost predicate Occurs(rows: seq<AbcRow>, c: Category) {
    exists i | 0 <= i < |rows| :: rows[i].category == c
  }

  /** The summary has a row for class `c`. */
  ghost predicate Summarized(summary: seq<CategorySummary>, c: Category) {
    exists k | 0 <= k < |summary| :: summary[k].category == c
  }

  /** The summary's classes come in the order A, B, C, each at most once. */
  lemma SummaryOrdered(rows: seq<AbcRow>)
    ensures var summary := Summarize(rows);
      forall i, j | 0 <= i < j < |summary| :: Rank(summary[i].category) < Rank(summary[j].category)
  {
    var summary := Summarize(rows);
    forall i, j | 0 <= i < j < |summary| ensures Rank(summary[i].category) < Rank(summary[j].category) {
      StatsAt(rows, i);
      StatsAt(rows, j);
    }
  }

  /** The summary has a row for a class exactly when some product is in that class. */
  lemma SummaryCategories(rows: seq<AbcRow>, c: Category)
    ensures Summarized(Summarize(rows), c) <==> Occurs(rows, c)
  {
    var summary := Summarize(rows);
    var sa, sb := StatsOf(rows, A), StatsOf(rows, B);
    ProfitsInMembers(rows, c);
    if Occurs(rows, c) {
      var i :| 0 <= i < |rows| && rows[i].category == c;
      assert rows[i].totalGrossProfit in ProfitsIn(rows, c);
      var k := match c case A => 0 case B => |sa| case C => |sa| + |sb|;
      StatsAt(rows, k);
      assert summary[k].category == c;
    }
    if Summarized(summary, c) {
      var k :| 0 <= k < |summary| && summary[k].category == c;
      StatsAt(rows, k);
      assert ProfitsIn(rows, c)[0] in ProfitsIn(rows, c);
    }
  }

  /**
   Each row of the summary counts the products of its class, sums their
   profit, and holds the smallest and the largest of their profits.
   */
  lemma SummaryEntry(rows: seq<AbcRow>, k: nat)
    requires k < |Summarize(rows)|
    ensures var s := Summarize(rows)[k];
      var ps := ProfitsIn(rows, s.category);
      && s.totalProducts == |ps| > 0
      && s.totalProfit == Sum(ps)
      && s.minProfit in ps && s.maxProfit in ps
      && (forall p | p in ps :: s.minProfit <= p <= s.maxProfit)
  {
    StatsAt(rows, k);
  }

  /**
   A class's profit share is its profit as a percentage of all profit, and
   None exactly when all profit adds up to zero; its product share is its
   product count as a percentage of all products.
   */
  lemma SummaryShares(rows: seq<AbcRow>, k: nat)
    requires k < |Summarize(rows)|
    ensures var s, total := Summarize(rows)[k], Sum(RowProfits(rows));
      && (total == 0.0 ==> s.profitShare.None?)
      && (total != 0.0 ==> s.profitShare == Some(Percent(s.totalProfit, total)))
      && (|rows| > 0 ==> s.productShare == Percent(s.totalProducts as real, |rows| as real))
  {
    StatsColumns(rows);
  }

  function ProductShares(summary: seq<CategorySummary>): (ps: seq<real>)
    ensures |ps| == |summary|
    ensures forall i | 0 <= i < |summary| :: ps[i] == summary[i].productShare
  {
    seq(|summary|, i requires 0 <= i < |summary| => summary[i].productShare)
  }

  function ProfitShares(summary: seq<CategorySummary>): (ps: seq<real>)
    ensures |ps| == |summary|
    ensures forall i | 0 <= i < |summary| :: ps[i] == summary[i].profitShare.GetOr(0.0)
  {
    seq(|summary|, i requires 0 <= i < |summary| => summary[i].profitShare.GetOr(0.0))
  }

  /** With at least one product, the product shares add up to 100. */
  lemma ProductSharesWhole(rows: seq<AbcRow>)
    requires |rows| > 0
    ensures Sum(ProductShares(Summarize(rows))) == 100.0
  {
    var stats := Stats(rows);
    var summary := Summarize(rows);
    var n := |rows| as real;
    StatsColumns(rows);
    forall k | 0 <= k < |stats| ensures ProductShares(summary)[k] == Percentages(ProductCounts(stats), n)[k] {
      assert summary[k].productShare == Percentages(ProductCounts(stats), n)[k];
    }
    assert ProductShares(summary) == Percentages(ProductCounts(stats), n);
    SumPercentages(ProductCounts(stats), n);
    PercentOfWhole(n);
    RealIntSum(Counts(stats), ProductCounts(stats));
  }

  /** When the grand total is not zero, every class has a profit share and the shares add up to 100. */
  lemma ProfitSharesWhole(rows: seq<AbcRow>)
    requires Sum(RowProfits(rows)) != 0.0
    ensures forall k | 0 <= k < |Summarize(rows)| :: Summarize(rows)[k].profitShare.Some?
    ensures Sum(ProfitShares(Summarize(rows))) == 100.0
  {
    var stats := Stats(rows);
    var summary := Summarize(rows);
    var total := Sum(Totals(stats));
    StatsColumns(rows);
    forall k | 0 <= k < |stats| ensures summary[k].profitShare == Some(Percentages(Totals(stats), total)[k]) {
    }
    assert ProfitShares(summary) == Percentages(Totals(stats), total);
    SumPercentages(Totals(stats), total);
    PercentOfWhole(total);
  }

  /** An integer column and its values as reals have the same sum. */
  lemma {:induction false} RealIntSum(ns: seq<int>, xs: seq<real>)
    requires |ns| == |xs| && forall i | 0 <= i < |ns| :: xs[i] == ns[i] as real
    ensures Sum(xs) == IntSum(ns) as real
  {
    if |ns| > 0 {
      RealIntSum(ns[..|ns| - 1], xs[..|xs| - 1]);
    }
  }
}
