/**
 Sums and means of a column, as pandas computes them over exact reals.
 `Series.mean()` of an empty column is NaN, written here as `None`.
 */
module Sums {
  import opened Options

  /** Σ ys[t], by recursion on the last element. */
  function Sum(ys: seq<real>): real
    decreases |ys|
  {
    if |ys| == 0 then 0.0 else Sum(ys[..|ys| - 1]) + ys[|ys| - 1]
  }

  /**
   The product a·x as a named term: sums scaled by a factor are stated with
   it so that they are matched by name, not by nonlinear arithmetic.
   */
  function Times(a: real, x: real): real {
    a * x
  }

  lemma TimesDistributes(a: real, x: real, y: real)
    ensures Times(a, x + y) == Times(a, x) + Times(a, y)
  {
  }

  /** `Series.mean()`: the sum over the count, or NaN (`None`) for an empty column. */
  function Mean(ys: seq<real>): (m: Option<real>)
    ensures m.Some? <==> |ys| > 0
    ensures m.Some? ==> Times(m.value, |ys| as real) == Sum(ys)
  {
    if |ys| == 0 then None else Some(Sum(ys) / |ys| as real)
  }

  /** A column whose values lie in [lo, hi] sums to between n·lo and n·hi. */
  lemma {:induction false} SumBounds(ys: seq<real>, lo: real, hi: real)
    requires forall i :: 0 <= i < |ys| ==> lo <= ys[i] <= hi
    ensures Times(lo, |ys| as real) <= Sum(ys) <= Times(hi, |ys| as real)
    decreases |ys|
  {
    if |ys| > 0 {
      var p := ys[..|ys| - 1];
      assert |p| as real + 1.0 == |ys| as real;
      SumBounds(p, lo, hi);
      TimesDistributes(lo, |p| as real, 1.0);
      TimesDistributes(hi, |p| as real, 1.0);
    }
  }

  /** The mean of values in [lo, hi] lies in [lo, hi]. */
  lemma MeanWithin(ys: seq<real>, lo: real, hi: real)
    requires |ys| > 0
    requires forall i :: 0 <= i < |ys| ==> lo <= ys[i] <= hi
    ensures lo <= Mean(ys).value <= hi
  {
    SumBounds(ys, lo, hi);
    QuotientWithin(Sum(ys), |ys| as real, lo, hi);
  }

  /** If n·lo <= s <= n·hi with n > 0 then lo <= s / n <= hi. */
  lemma QuotientWithin(s: real, n: real, lo: real, hi: real)
    requires n > 0.0 && Times(lo, n) <= s <= Times(hi, n)
    ensures lo <= s / n <= hi
  {
    assert (s / n - lo) * n == s - Times(lo, n);
    assert (hi - s / n) * n == Times(hi, n) - s;
    PositiveFactor(s / n - lo, n);
    PositiveFactor(hi - s / n, n);
  }

  lemma PositiveFactor(x: real, n: real)
    requires n > 0.0 && x * n >= 0.0
    ensures x >= 0.0
  {
  }

  /** A column of non-negative values has a non-negative sum. */
  lemma {:induction false} SumNonNegative(ys: seq<real>)
    requires forall i :: 0 <= i < |ys| ==> 0.0 <= ys[i]
    ensures 0.0 <= Sum(ys)
    decreases |ys|
  {
    if |ys| > 0 {
      SumNonNegative(ys[..|ys| - 1]);
    }
  }
}
