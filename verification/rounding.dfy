/**
 numpy's `round(0)` (to the nearest integer, ties to the even one) and
 `sqrt` followed by that rounding, stated exactly over the reals. A square
 root need not be rational, so the rounded square root is characterised
 through squares: `r` is the rounded root of `x` when `(r - 1/2)^2 <= x <=
 (r + 1/2)^2`, and a tie goes to the even candidate.
 */
module Rounding {

  /** `r` is `x` rounded to the nearest integer, ties to the even one. */
  ghost predicate IsRoundHalfEven(x: real, r: int) {
    && -0.5 <= x - r as real <= 0.5
    && ((x - r as real == 0.5 || r as real - x == 0.5) ==> r % 2 == 0)
  }

  function RoundHalfEven(x: real): (r: int)
    ensures IsRoundHalfEven(x, r)
  {
    var f := x.Floor;
    var d := x - f as real;
    if d < 0.5 then f
    else if d > 0.5 then f + 1
    else if f % 2 == 0 then f else f + 1
  }

  /** Rounding half to even is determined by its characterisation: there is only one such integer. */
  lemma RoundHalfEvenUnique(x: real, r1: int, r2: int)
    requires IsRoundHalfEven(x, r1) && IsRoundHalfEven(x, r2)
    ensures r1 == r2
  {
  }

  /** Rounding a non-negative value gives a non-negative integer. */
  lemma RoundHalfEvenNonNegative(x: real)
    requires x >= 0.0
    ensures RoundHalfEven(x) >= 0
  {
  }

  lemma SquareMonotone(a: real, b: real)
    requires 0.0 <= a <= b
    ensures a * a <= b * b
    ensures a * a == b * b ==> a == b
  {
    var d := b - a;
    assert b * b == a * a + d * (a + b);
    if d > 0.0 {
      assert d * (a + b) > 0.0;
    }
  }

  lemma SqrtStep(m: nat, h: nat)
    requires h * h <= m / 4 < (h + 1) * (h + 1)
    ensures (2 * h) * (2 * h) <= m < (2 * h + 2) * (2 * h + 2)
  {
    var q := m / 4;
    assert m == 4 * q + m % 4;
    assert (2 * h) * (2 * h) == 4 * (h * h);
    assert (2 * h + 2) * (2 * h + 2) == 4 * ((h + 1) * (h + 1));
    assert q + 1 <= (h + 1) * (h + 1);
  }

  /** The integer square root: the largest `r` with `r * r <= m`. */
  function ISqrt(m: nat): (r: nat)
    ensures r * r <= m < (r + 1) * (r + 1)
  {
    if m < 4 then (if m == 0 then 0 else 1)
    else
      var h := ISqrt(m / 4);
      SqrtStep(m, h);
      var s := 2 * h;
      if (s + 1) * (s + 1) <= m then s + 1 else s
  }

  /** `r` is the square root of `x` rounded to the nearest integer, ties to the even one. */
  ghost predicate IsRoundedSqrt(x: real, r: nat) {
    var lo := r as real - 0.5;
    var hi := r as real + 0.5;
    && (r == 0 || lo * lo <= x)
    && x <= hi * hi
    && ((x == hi * hi || (r > 0 && x == lo * lo)) ==> r % 2 == 0)
  }

  /** `np.sqrt(x).round(0)` for a non-negative `x`. */
  function RoundSqrt(x: real): (r: nat)
    requires x >= 0.0
    ensures IsRoundedSqrt(x, r)
  {
    var n := ISqrt(x.Floor);
    BracketRoot(x, n);
    // (n + 1/2)^2, the square of the midpoint between the candidates n and n + 1
    var mid := (n * n + n) as real + 0.25;
    if x < mid || (x == mid && n % 2 == 0) then
      RoundDown(x, n);
      n
    else
      RoundUp(x, n);
      n + 1
  }

  lemma BracketRoot(x: real, n: nat)
    requires x >= 0.0
    requires n * n <= x.Floor < (n + 1) * (n + 1)
    ensures (n * n) as real <= x < ((n + 1) * (n + 1)) as real
  {
    assert x.Floor + 1 <= (n + 1) * (n + 1);
  }

  /** Below the midpoint `(n + 1/2)^2`, or on it with `n` even, the root rounds down to `n`. */
  lemma RoundDown(x: real, n: nat)
    requires (n * n) as real <= x
    requires var mid := (n * n + n) as real + 0.25; x < mid || (x == mid && n % 2 == 0)
    ensures IsRoundedSqrt(x, n)
  {
    var N := n as real;
    assert (n * n) as real == N * N;
    assert (N + 0.5) * (N + 0.5) == (n * n + n) as real + 0.25;
    assert (N - 0.5) * (N - 0.5) == N * N - N + 0.25;
  }

  /** Above the midpoint `(n + 1/2)^2`, or on it with `n` odd, the root rounds up to `n + 1`. */
  lemma RoundUp(x: real, n: nat)
    requires x < ((n + 1) * (n + 1)) as real
    requires var mid := (n * n + n) as real + 0.25; x > mid || (x == mid && n % 2 == 1)
    ensures IsRoundedSqrt(x, n + 1)
  {
    var N := n as real;
    assert (n + 1) as real - 0.5 == N + 0.5;
    assert (n + 1) as real + 0.5 == N + 1.5;
    assert (N + 0.5) * (N + 0.5) == (n * n + n) as real + 0.25;
    assert ((n + 1) * (n + 1)) as real == (N + 1.0) * (N + 1.0);
    assert (N + 1.5) * (N + 1.5) == (N + 1.0) * (N + 1.0) + N + 1.25;
  }

  /** The rounded square root is determined by its characterisation. */
  lemma RoundedSqrtUnique(x: real, r1: nat, r2: nat)
    requires IsRoundedSqrt(x, r1) && IsRoundedSqrt(x, r2)
    ensures r1 == r2
  {
    SquaresApart(r1, r2);
    SquaresApart(r2, r1);
  }

  /**
   The interval of squares claimed by a smaller candidate ends where the one
   of a larger candidate begins, and they meet only for neighbours.
   */
  lemma SquaresApart(r1: nat, r2: nat)
    ensures var hi1, lo2 := r1 as real + 0.5, r2 as real - 0.5;
      r1 < r2 ==> hi1 * hi1 <= lo2 * lo2 && (hi1 * hi1 == lo2 * lo2 ==> r2 == r1 + 1)
  {
    var hi1, lo2 := r1 as real + 0.5, r2 as real - 0.5;
    if r1 < r2 {
      SquareMonotone(hi1, lo2);
    }
  }
}
