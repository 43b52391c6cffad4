/**
 The number conversions the dashboards apply to prices: Python's `int(x)` and
 pandas' `.astype(int)` (truncation toward zero), and `round(x, n)` (nearest
 multiple of 10^-n, ties to the even neighbour), both over exact reals.
 */
module Numeric {

  /** `int(x)`: drops the fraction, rounding toward zero. */
  function Trunc(x: real): (r: int)
    ensures 0.0 <= x ==> 0 <= r && r as real <= x < r as real + 1.0
    ensures x < 0.0 ==> r <= 0 && r as real - 1.0 < x <= r as real
  {
    if x >= 0.0 then x.Floor else -((-x).Floor)
  }

  function Pow10(n: nat): (r: nat)
    ensures r >= 1
  {
    if n == 0 then 1 else 10 * Pow10(n - 1)
  }

  /** `round(x)`: the nearest integer, the even one on a tie. */
  function RoundHalfEven(x: real): (r: int)
    ensures -0.5 <= r as real - x <= 0.5
    ensures (r as real - x == 0.5 || x - r as real == 0.5) ==> r % 2 == 0
  {
    var n := x.Floor;
    var frac := x - n as real;
    if frac < 0.5 then n
    else if frac > 0.5 then n + 1
    else if n % 2 == 0 then n
    else n + 1
  }

  /** `x` measured in units of 10^-places. */
  function Scaled(x: real, places: nat): real {
    x * Pow10(places) as real
  }

  /** `x` is a whole number of units of 10^-places. */
  predicate HasPlaces(x: real, places: nat) {
    Scaled(x, places).Floor as real == Scaled(x, places)
  }

  /** `round(x, places)`: the nearest multiple of 10^-places, ties to even. */
  function RoundTo(x: real, places: nat): (r: real)
    ensures HasPlaces(r, places)
    ensures -0.5 <= Scaled(r, places) - Scaled(x, places) <= 0.5
    ensures 0.0 <= x ==> 0.0 <= r
    ensures Scaled(r, places) == RoundHalfEven(Scaled(x, places)) as real
  {
    var n := RoundHalfEven(Scaled(x, places));
    Unscale(n as real, places);
    n as real / Pow10(places) as real
  }

  /** Dividing by 10^places undoes scaling. */
  lemma Unscale(q: real, places: nat)
    ensures Scaled(q / Pow10(places) as real, places) == q
    ensures HasPlaces(q.Floor as real / Pow10(places) as real, places)
    ensures 0.0 <= q ==> 0.0 <= q / Pow10(places) as real
  {
    DivideThenMultiply(q, Pow10(places) as real);
    DivideThenMultiply(q.Floor as real, Pow10(places) as real);
    assert Scaled(q.Floor as real / Pow10(places) as real, places) == q.Floor as real;
    assert (q.Floor as real).Floor == q.Floor;
    if 0.0 <= q {
      DivideNonNegative(q, Pow10(places) as real);
    }
  }

  lemma DivideThenMultiply(q: real, p: real)
    requires p > 0.0
    ensures q / p * p == q
  {
  }

  lemma DivideNonNegative(q: real, p: real)
    requires p > 0.0 && q >= 0.0
    ensures q / p >= 0.0
  {
  }

  /** An integer rounds to itself. */
  lemma RoundHalfEvenOfInteger(n: int)
    ensures RoundHalfEven(n as real) == n
  {
  }

  /** Rounding an already rounded value changes nothing. */
  lemma RoundToIdempotent(x: real, places: nat)
    ensures RoundTo(RoundTo(x, places), places) == RoundTo(x, places)
  {
    RoundToExact(RoundTo(x, places), places);
  }

  /** A value already on the grid is returned unchanged. */
  lemma RoundToExact(x: real, places: nat)
    requires HasPlaces(x, places)
    ensures RoundTo(x, places) == x
  {
    var n := Scaled(x, places).Floor;
    RoundHalfEvenOfInteger(n);
    Rescale(x, places);
  }

  /** Scaling and then dividing by 10^places gives the value back. */
  lemma Rescale(x: real, places: nat)
    ensures Scaled(x, places) / Pow10(places) as real == x
  {
    var p := Pow10(places) as real;
    assert x * p / p == x;
  }

  /** Scaling by 10^places keeps order, in both directions. */
  lemma ScaledMonotone(x: real, y: real, places: nat)
    ensures x <= y <==> Scaled(x, places) <= Scaled(y, places)
  {
    var p := Pow10(places) as real;
    assert Scaled(y, places) - Scaled(x, places) == (y - x) * p;
  }

  /** Rounding a value between two grid points stays between them. */
  lemma RoundToWithin(x: real, places: nat, lo: real, hi: real)
    requires HasPlaces(lo, places) && HasPlaces(hi, places)
    requires lo <= x <= hi
    ensures lo <= RoundTo(x, places) <= hi
  {
    var r := RoundTo(x, places);
    ScaledMonotone(lo, x, places);
    ScaledMonotone(x, hi, places);
    ScaledMonotone(lo, r, places);
    ScaledMonotone(r, hi, places);
    WholeNumbersApart(Scaled(lo, places), Scaled(r, places));
    WholeNumbersApart(Scaled(r, places), Scaled(hi, places));
  }

  /** Whole numbers less than one apart from below are in order. */
  lemma WholeNumbersApart(a: real, b: real)
    requires a.Floor as real == a && b.Floor as real == b
    requires a - 0.5 <= b
    ensures a <= b
  {
  }

  /**
   A non-negative value rounds to zero exactly when it is at most half a unit
   of the last place: ties at one half go to the even neighbour, zero.
   */
  lemma RoundToZero(x: real, places: nat)
    requires 0.0 <= x
    ensures RoundTo(x, places) == 0.0 <==> Scaled(x, places) <= 0.5
  {
    var s := Scaled(x, places);
    ScaledMonotone(0.0, x, places);
    if s <= 0.5 {
      assert s.Floor == 0;
      assert RoundHalfEven(s) == 0;
    } else {
      assert RoundHalfEven(s) >= 1;
      RoundedNonZero(RoundHalfEven(s), places);
    }
  }

  lemma RoundedNonZero(n: int, places: nat)
    requires n >= 1
    ensures n as real / Pow10(places) as real > 0.0
  {
  }
}
