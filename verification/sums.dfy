/**
 Sums, running sums and means of a column, in exact arithmetic: pandas'
 `sum()`, `cumsum()` and `mean()` on a float column, without rounding error.
 */
module Sums {
  import opened Optional

  function Sum(xs: seq<real>): real {
    if |xs| == 0 then 0.0 else Sum(xs[..|xs| - 1]) + xs[|xs| - 1]
  }

  function IntSum(xs: seq<int>): int {
    if |xs| == 0 then 0 else IntSum(xs[..|xs| - 1]) + xs[|xs| - 1]
  }

  lemma {:induction false} SumAppend(xs: seq<real>, ys: seq<real>)
    ensures Sum(xs + ys) == Sum(xs) + Sum(ys)
  {
    if |ys| > 0 {
      assert (xs + ys)[..|xs + ys| - 1] == xs + ys[..|ys| - 1];
      SumAppend(xs, ys[..|ys| - 1]);
    } else {
      assert xs + ys == xs;
    }
  }

  lemma MultisetCancel<T>(a: multiset<T>, b: multiset<T>, x: T)
    requires a + multiset{x} == b + multiset{x}
    ensures a == b
  {
    forall y ensures a[y] == b[y] {
      assert (a + multiset{x})[y] == (b + multiset{x})[y];
    }
  }

  /** The sum of a column is its first value plus the sum of the rest. */
  lemma SumCons(x: real, b: seq<real>)
    ensures Sum([x] + b) == x + Sum(b)
  {
    SumAppend([x], b);
    assert [x][..0] == [];
  }

  /** Taking out the value at `k` takes it out of the sum. */
  lemma SumRemove(ys: seq<real>, k: nat)
    requires k < |ys|
    ensures Sum(ys) == Sum(ys[..k] + ys[k + 1..]) + ys[k]
  {
    var a, x, b := ys[..k], ys[k], ys[k + 1..];
    assert ys == a + ([x] + b);
    SumAppend(a, [x] + b);
    SumCons(x, b);
    SumAppend(a, b);
  }

  lemma {:induction false} IntSumAppend(xs: seq<int>, ys: seq<int>)
    ensures IntSum(xs + ys) == IntSum(xs) + IntSum(ys)
  {
    if |ys| > 0 {
      assert (xs + ys)[..|xs + ys| - 1] == xs + ys[..|ys| - 1];
      IntSumAppend(xs, ys[..|ys| - 1]);
    } else {
      assert xs + ys == xs;
    }
  }

  /** Reordering a column does not change its sum. */
  lemma {:induction false} SumPermutation(xs: seq<real>, ys: seq<real>)
    requires multiset(xs) == multiset(ys)
    ensures Sum(xs) == Sum(ys)
  {
    if |xs| > 0 {
      var init := xs[..|xs| - 1];
      var x := xs[|xs| - 1];
      assert xs == init + [x];
      assert x in multiset(ys);
      var k :| 0 <= k < |ys| && ys[k] == x;
      var rest := ys[..k] + ys[k + 1..];
      assert ys == ys[..k] + [x] + ys[k + 1..];
      assert multiset(ys) == multiset(rest) + multiset{x};
      assert multiset(xs) == multiset(init) + multiset{x};
      MultisetCancel(multiset(init), multiset(rest), x);
      SumPermutation(init, rest);
      SumRemove(ys, k);
    } else {
      assert |ys| == 0;
    }
  }

  /** A column of non-negative values has a non-negative sum. */
  lemma {:induction false} SumNonNegative(xs: seq<real>)
    requires forall i | 0 <= i < |xs| :: xs[i] >= 0.0
    ensures Sum(xs) >= 0.0
  {
    if |xs| > 0 {
      SumNonNegative(xs[..|xs| - 1]);
    }
  }

  lemma {:induction false} SumNonPositive(xs: seq<real>)
    requires forall i | 0 <= i < |xs| :: xs[i] <= 0.0
    ensures Sum(xs) <= 0.0
  {
    if |xs| > 0 {
      SumNonPositive(xs[..|xs| - 1]);
    }
  }

  /**
   When the values never increase and add up to zero, no prefix adds up to
   less than zero: a negative prefix would end in a negative value, and
   every later value would be negative too.
   */
  lemma PrefixOfZeroSum(xs: seq<real>, i: nat)
    requires forall a, b | 0 <= a < b < |xs| :: xs[a] >= xs[b]
    requires Sum(xs) == 0.0 && i < |xs|
    ensures Sum(xs[..i + 1]) >= 0.0
  {
    var pre, post := xs[..i + 1], xs[i + 1..];
    assert xs == pre + post;
    SumAppend(pre, post);
    if xs[i] >= 0.0 {
      assert forall a | 0 <= a < |pre| :: pre[a] >= xs[i];
      SumNonNegative(pre);
    } else {
      assert forall b | 0 <= b < |post| :: post[b] <= xs[i];
      SumNonPositive(post);
    }
  }

  /** `cumsum()`: entry `i` is the sum of the first `i + 1` values. */
  function CumSum(xs: seq<real>): (cs: seq<real>)
    ensures |cs| == |xs|
    ensures forall i | 0 <= i < |xs| :: cs[i] == Sum(xs[..i + 1])
  {
    if |xs| == 0 then []
    else
      var init := xs[..|xs| - 1];
      assert forall n | 0 <= n <= |init| :: init[..n] == xs[..n];
      assert xs[..|xs|] == xs;
      CumSum(init) + [Sum(xs)]
  }

  /** A running sum of non-negative values never decreases. */
  lemma CumSumMonotone(xs: seq<real>)
    requires forall i | 0 <= i < |xs| :: xs[i] >= 0.0
    ensures forall i, j | 0 <= i <= j < |xs| :: CumSum(xs)[i] <= CumSum(xs)[j]
  {
    forall i, j | 0 <= i <= j < |xs|
      ensures CumSum(xs)[i] <= CumSum(xs)[j]
    {
      assert xs[..j + 1] == xs[..i + 1] + xs[i + 1..j + 1];
      SumAppend(xs[..i + 1], xs[i + 1..j + 1]);
      SumNonNegative(xs[i + 1..j + 1]);
    }
  }

  /** Every value of `xs` divided by `d`. */
  function Divide(xs: seq<real>, d: real): (ys: seq<real>)
    requires d != 0.0
    ensures |ys| == |xs|
    ensures forall i | 0 <= i < |xs| :: ys[i] * d == xs[i]
  {
    seq(|xs|, i requires 0 <= i < |xs| => xs[i] / d)
  }

  lemma DividePrefix(xs: seq<real>, d: real, n: nat)
    requires d != 0.0 && n <= |xs|
    ensures Divide(xs, d)[..n] == Divide(xs[..n], d)
  {
  }

  /** Dividing every value by `d` divides the sum by `d`. */
  lemma {:induction false} SumDivide(xs: seq<real>, d: real)
    requires d != 0.0
    ensures Sum(Divide(xs, d)) == Sum(xs) / d
  {
    if |xs| > 0 {
      var init := xs[..|xs| - 1];
      assert Divide(xs, d)[..|xs| - 1] == Divide(init, d);
      SumDivide(init, d);
    }
  }

  /** `x` as a percentage of `d`. */
  function Percent(x: real, d: real): (p: real)
    requires d != 0.0
    ensures p * d == x * 100.0
  {
    x / d * 100.0
  }

  /** The whole is 100 percent of itself. */
  lemma PercentOfWhole(d: real)
    requires d != 0.0
    ensures Percent(d, d) == 100.0
  {
  }

  /** Every value as a percentage of `d`. */
  function Percentages(xs: seq<real>, d: real): (ps: seq<real>)
    requires d != 0.0
    ensures |ps| == |xs|
    ensures forall i | 0 <= i < |xs| :: ps[i] == Percent(xs[i], d)
  {
    seq(|xs|, i requires 0 <= i < |xs| => Percent(xs[i], d))
  }

  /** The percentages of `d` add up to the sum as a percentage of `d`. */
  lemma {:induction false} SumPercentages(xs: seq<real>, d: real)
    requires d != 0.0
    ensures Sum(Percentages(xs, d)) == Percent(Sum(xs), d)
  {
    if |xs| > 0 {
      var init := xs[..|xs| - 1];
      assert Percentages(xs, d)[..|xs| - 1] == Percentages(init, d);
      SumPercentages(init, d);
      var a, b := Sum(init), xs[|xs| - 1];
      assert (a + b) / d == a / d + b / d;
      assert Percent(a + b, d) == Percent(a, d) + Percent(b, d);
    }
  }

  /** `mean()`: the average of the values, or None (NaN) when there are none. */
  function Mean(xs: seq<real>): (m: Option<real>)
    ensures m.Some? <==> |xs| > 0
    ensures m.Some? ==> m.value * (|xs| as real) == Sum(xs)
  {
    if |xs| == 0 then None else Some(Sum(xs) / (|xs| as real))
  }

  /** The present values of a nullable column, in order. */
  function Present(xs: seq<Option<real>>): (ps: seq<real>)
    ensures |ps| <= |xs|
  {
    if |xs| == 0 then []
    else Present(xs[..|xs| - 1]) + (match xs[|xs| - 1] case Some(v) => [v] case None => [])
  }

  /** `fillna(0)` on a nullable column. */
  function ZeroFilled(xs: seq<Option<real>>): (ys: seq<real>)
    ensures |ys| == |xs|
    ensures forall i | 0 <= i < |xs| :: ys[i] == xs[i].GetOr(0.0)
  {
    seq(|xs|, i requires 0 <= i < |xs| => xs[i].GetOr(0.0))
  }

  /** The positions of a nullable column that hold a value. */
  ghost function PresentPositions(xs: seq<Option<real>>): set<int> {
    set i | 0 <= i < |xs| && xs[i].Some?
  }

  /** There are as many present values as positions holding a value. */
  lemma {:induction false} PresentCount(xs: seq<Option<real>>)
    ensures |Present(xs)| == |PresentPositions(xs)|
  {
    if |xs| > 0 {
      var init, last := xs[..|xs| - 1], xs[|xs| - 1];
      PresentCount(init);
      if last.Some? {
        assert PresentPositions(xs) == PresentPositions(init) + {|init|};
        assert |init| !in PresentPositions(init);
      } else {
        assert PresentPositions(xs) == PresentPositions(init);
      }
    }
  }

  /** The present values add up to the column's sum with missing values counted as zero. */
  lemma {:induction false} PresentSum(xs: seq<Option<real>>)
    ensures Sum(Present(xs)) == Sum(ZeroFilled(xs))
  {
    if |xs| > 0 {
      var init, last := xs[..|xs| - 1], xs[|xs| - 1];
      PresentSum(init);
      assert ZeroFilled(xs)[..|xs| - 1] == ZeroFilled(init);
      var tail := match last case Some(v) => [v] case None => [];
      SumAppend(Present(init), tail);
    }
  }

  /**
   `mean()` on a nullable column skips missing values: times the number of
   values present (PresentCount) it is the sum of the present values; it
   is None when every value is missing.
   */
  function MeanPresent(xs: seq<Option<real>>): (m: Option<real>)
    ensures m.Some? <==> exists i | 0 <= i < |xs| :: xs[i].Some?
    ensures m.Some? ==> m.value * (|Present(xs)| as real) == Sum(ZeroFilled(xs))
  {
    PresentNonEmpty(xs);
    PresentSum(xs);
    Mean(Present(xs))
  }

  lemma {:induction false} PresentNonEmpty(xs: seq<Option<real>>)
    ensures |Present(xs)| > 0 <==> exists i | 0 <= i < |xs| :: xs[i].Some?
  {
    if |xs| > 0 {
      var init := xs[..|xs| - 1];
      PresentNonEmpty(init);
      if exists i | 0 <= i < |init| :: init[i].Some? {
        var i :| 0 <= i < |init| && init[i].Some?;
        assert xs[i].Some?;
      }
      if exists i | 0 <= i < |xs| :: xs[i].Some? {
        var i :| 0 <= i < |xs| && xs[i].Some?;
        if i < |init| {
          assert init[i].Some?;
        }
      }
    }
  }

  /** A factor of a non-negative product whose other factor is positive is non-negative. */
  lemma NonNegativeFactor(a: real, b: real)
    requires b > 0.0
    ensures a * b >= 0.0 ==> a >= 0.0
  {
    if a < 0.0 {
      assert a * b < 0.0;
    }
  }

  /** The mean of non-negative values is non-negative. */
  lemma MeanNonNegative(xs: seq<real>)
    requires forall i | 0 <= i < |xs| :: xs[i] >= 0.0
    ensures Mean(xs).Some? ==> Mean(xs).value >= 0.0
  {
    SumNonNegative(xs);
    if |xs| > 0 {
      NonNegativeFactor(Mean(xs).value, |xs| as real);
    }
  }

  /** The present values of a column whose present values are non-negative are non-negative. */
  lemma {:induction false} PresentNonNegative(xs: seq<Option<real>>)
    requires forall i | 0 <= i < |xs| :: xs[i].Some? ==> xs[i].value >= 0.0
    ensures forall i | 0 <= i < |Present(xs)| :: Present(xs)[i] >= 0.0
  {
    if |xs| > 0 {
      PresentNonNegative(xs[..|xs| - 1]);
    }
  }

  /** The mean of the present values of a column is non-negative when they all are. */
  lemma MeanPresentNonNegative(xs: seq<Option<real>>)
    requires forall i | 0 <= i < |xs| :: xs[i].Some? ==> xs[i].value >= 0.0
    ensures MeanPresent(xs).Some? ==> MeanPresent(xs).value >= 0.0
  {
    PresentNonNegative(xs);
    MeanNonNegative(Present(xs));
  }

  /** A column of non-negative integers has a non-negative sum. */
  lemma {:induction false} IntSumNonNegative(xs: seq<int>)
    requires forall i | 0 <= i < |xs| :: xs[i] >= 0
    ensures IntSum(xs) >= 0
  {
    if |xs| > 0 {
      IntSumNonNegative(xs[..|xs| - 1]);
    }
  }
}
