/**
 `np.polyfit(t, y, 1)` with `t = 0, 1, ..., k-1`: the ordinary least-squares
 line through the points `(t, ys[t])`, over exact reals. With the sums
 n = k, St = Σ t, Stt = Σ t², Sy = Σ y and Sty = Σ t·y it is the solution of
 the two normal equations

   Sy  = slope · St  + intercept · n
   Sty = slope · Stt + intercept · St

 Every sum below runs over the indices `t < |ys|` (or `t < k`) and is defined
 by recursion on the last index.
 */
module Regression {
  import opened Sums

  datatype Line = Line(slope: real, intercept: real)

  function Square(x: real): real {
    x * x
  }

  /** The value the line predicts at index `t`. */
  function Predict(l: Line, t: real): real {
    l.slope * t + l.intercept
  }

  /** Σ t·ys[t] */
  function WeightedSum(ys: seq<real>): real
    decreases |ys|
  {
    if |ys| == 0 then 0.0 else WeightedSum(ys[..|ys| - 1]) + (|ys| - 1) as real * ys[|ys| - 1]
  }

  /** Σ_{t<k} t */
  function IndexSum(k: nat): real {
    if k == 0 then 0.0 else IndexSum(k - 1) + (k - 1) as real
  }

  /** Σ_{t<k} t² */
  function IndexSquareSum(k: nat): real {
    if k == 0 then 0.0 else IndexSquareSum(k - 1) + Square((k - 1) as real)
  }

  /** Σ_{t<k} t·(a·t + b) */
  function IndexLineSum(k: nat, a: real, b: real): real {
    if k == 0 then 0.0
    else
      var t := (k - 1) as real;
      IndexLineSum(k - 1, a, b) + t * (a * t + b)
  }

  /** Σ (ys[t] - (a·t + b)) */
  function SumResiduals(ys: seq<real>, a: real, b: real): real
    decreases |ys|
  {
    if |ys| == 0 then 0.0
    else
      var t := (|ys| - 1) as real;
      SumResiduals(ys[..|ys| - 1], a, b) + (ys[|ys| - 1] - (a * t + b))
  }

  /** Σ t·(ys[t] - (a·t + b)) */
  function SumIndexResiduals(ys: seq<real>, a: real, b: real): real
    decreases |ys|
  {
    if |ys| == 0 then 0.0
    else
      var t := (|ys| - 1) as real;
      SumIndexResiduals(ys[..|ys| - 1], a, b) + t * (ys[|ys| - 1] - (a * t + b))
  }

  /** Σ (da·t + db)·(ys[t] - (a·t + b)): residuals of (a, b) against a second line's offsets. */
  function ResidualProducts(ys: seq<real>, a: real, b: real, da: real, db: real): real
    decreases |ys|
  {
    if |ys| == 0 then 0.0
    else
      var t := (|ys| - 1) as real;
      ResidualProducts(ys[..|ys| - 1], a, b, da, db) + (da * t + db) * (ys[|ys| - 1] - (a * t + b))
  }

  /** Σ (ys[t] - (a·t + b))²: the squared error least squares minimises. */
  function SquaredError(ys: seq<real>, a: real, b: real): real
    decreases |ys|
  {
    if |ys| == 0 then 0.0
    else
      var t := (|ys| - 1) as real;
      SquaredError(ys[..|ys| - 1], a, b) + Square(ys[|ys| - 1] - (a * t + b))
  }

  /** Σ_{t<k} (a·t + b)² */
  function SquaredLine(k: nat, a: real, b: real): real {
    if k == 0 then 0.0 else SquaredLine(k - 1, a, b) + Square(a * (k - 1) as real + b)
  }

  // Facts about single terms, each proved where the solver sees nothing but
  // the term.

  lemma SquareNonNegative(x: real)
    ensures Square(x) >= 0.0
  {
  }

  lemma SquarePositive(x: real)
    requires x != 0.0
    ensures Square(x) > 0.0
  {
    if x > 0.0 {
      calc {
        Square(x);
        == x * x;
        > 0.0;
      }
    } else {
      calc {
        Square(x);
        == (-x) * (-x);
        > 0.0;
      }
    }
  }

  lemma SplitTerm(y: real, t: real, a: real, b: real, a2: real, b2: real)
    ensures Square(y - (a2 * t + b2))
         == Square(y - (a * t + b)) - 2.0 * (((a2 - a) * t + (b2 - b)) * (y - (a * t + b)))
            + Square((a2 - a) * t + (b2 - b))
  {
    var r := y - (a * t + b);
    var d := (a2 - a) * t + (b2 - b);
    calc {
      Square(y - (a2 * t + b2));
      == Square(r - d);
      == Square(r) - 2.0 * (d * r) + Square(d);
    }
  }

  lemma {:induction false} IndexSumClosedForm(k: nat)
    ensures IndexSum(k) * 2.0 == (k as real) * (k as real - 1.0)
  {
    if k > 0 {
      IndexSumClosedForm(k - 1);
    }
  }

  lemma {:induction false} IndexSquareSumClosedForm(k: nat)
    ensures IndexSquareSum(k) * 6.0 == (k as real - 1.0) * (k as real) * (2.0 * k as real - 1.0)
  {
    if k > 0 {
      IndexSquareSumClosedForm(k - 1);
      var n := (k - 1) as real;
      calc {
        IndexSquareSum(k) * 6.0;
        == IndexSquareSum(k - 1) * 6.0 + 6.0 * Square(n);
        == (n - 1.0) * n * (2.0 * n - 1.0) + 6.0 * (n * n);
        == n * (n + 1.0) * (2.0 * n + 1.0);
      }
    }
  }

  lemma {:induction false} SquaredLineBounds(k: nat, a: real, b: real)
    ensures SquaredLine(k, a, b) >= 0.0
    ensures k >= 2 ==> SquaredLine(k, a, b) >= Square(b) + Square(a + b)
  {
    if k > 0 {
      SquaredLineBounds(k - 1, a, b);
      SquareNonNegative(a * (k - 1) as real + b);
      if k == 2 {
        assert SquaredLine(1, a, b) == Square(a * 0.0 + b);
        assert a * 0.0 + b == b;
        assert a * 1.0 + b == a + b;
      }
    }
  }

  lemma {:induction false} SquaredErrorNonNegative(ys: seq<real>, a: real, b: real)
    ensures SquaredError(ys, a, b) >= 0.0
    decreases |ys|
  {
    if |ys| > 0 {
      SquaredErrorNonNegative(ys[..|ys| - 1], a, b);
      SquareNonNegative(ys[|ys| - 1] - (a * (|ys| - 1) as real + b));
    }
  }

  /** The first normal equation's residual sum, in terms of Sy, St and n. */
  lemma {:induction false} SumResidualsExpand(ys: seq<real>, a: real, b: real)
    ensures SumResiduals(ys, a, b) == Sum(ys) - Times(a, IndexSum(|ys|)) - Times(b, |ys| as real)
    decreases |ys|
  {
    if |ys| > 0 {
      var p := ys[..|ys| - 1];
      var t := (|ys| - 1) as real;
      assert |p| == |ys| - 1;
      SumResidualsExpand(p, a, b);
      TimesDistributes(a, IndexSum(|p|), t);
      TimesDistributes(b, |p| as real, 1.0);
    }
  }

  /** The second normal equation's residual sum, in terms of Sty, Stt and St. */
  lemma SumIndexResidualsExpand(ys: seq<real>, a: real, b: real)
    ensures SumIndexResiduals(ys, a, b)
         == WeightedSum(ys) - Times(a, IndexSquareSum(|ys|)) - Times(b, IndexSum(|ys|))
  {
    SumIndexResidualsSplit(ys, a, b);
    IndexLineSumExpand(|ys|, a, b);
  }

  lemma IndexResidualTerm(t: real, y: real, a: real, b: real)
    ensures t * (y - (a * t + b)) == t * y - t * (a * t + b)
  {
  }

  lemma {:induction false} SumIndexResidualsSplit(ys: seq<real>, a: real, b: real)
    ensures SumIndexResiduals(ys, a, b) == WeightedSum(ys) - IndexLineSum(|ys|, a, b)
    decreases |ys|
  {
    if |ys| > 0 {
      var p := ys[..|ys| - 1];
      SumIndexResidualsSplit(p, a, b);
      IndexResidualTerm((|ys| - 1) as real, ys[|ys| - 1], a, b);
    }
  }

  lemma IndexLineTerm(t: real, a: real, b: real)
    ensures t * (a * t + b) == Times(a, Square(t)) + Times(b, t)
  {
  }

  lemma {:induction false} IndexLineSumExpand(k: nat, a: real, b: real)
    ensures IndexLineSum(k, a, b) == Times(a, IndexSquareSum(k)) + Times(b, IndexSum(k))
  {
    if k > 0 {
      var t := (k - 1) as real;
      IndexLineSumExpand(k - 1, a, b);
      IndexLineTerm(t, a, b);
      TimesDistributes(a, IndexSquareSum(k - 1), Square(t));
      TimesDistributes(b, IndexSum(k - 1), t);
    }
  }

  /** The residual products split into the two normal-equation sums. */
  lemma ResidualProductsExpand(ys: seq<real>, a: real, b: real, da: real, db: real)
    ensures ResidualProducts(ys, a, b, da, db)
         == Times(da, SumIndexResiduals(ys, a, b)) + Times(db, SumResiduals(ys, a, b))
  {
    ResidualProductsSplit(ys, a, b, da, db);
    ResidualProductsSlope(ys, a, b, da);
    ResidualProductsIntercept(ys, a, b, db);
  }

  lemma ProductTerms(t: real, r: real, da: real, db: real)
    ensures (da * t + db) * r == (da * t + 0.0) * r + (0.0 * t + db) * r
    ensures (da * t + 0.0) * r == Times(da, t * r)
    ensures (0.0 * t + db) * r == Times(db, r)
  {
  }

  lemma {:induction false} ResidualProductsSplit(ys: seq<real>, a: real, b: real, da: real, db: real)
    ensures ResidualProducts(ys, a, b, da, db) == ResidualProducts(ys, a, b, da, 0.0) + ResidualProducts(ys, a, b, 0.0, db)
    decreases |ys|
  {
    if |ys| > 0 {
      ResidualProductsSplit(ys[..|ys| - 1], a, b, da, db);
      ProductTerms((|ys| - 1) as real, ys[|ys| - 1] - (a * (|ys| - 1) as real + b), da, db);
    }
  }

  lemma {:induction false} ResidualProductsSlope(ys: seq<real>, a: real, b: real, da: real)
    ensures ResidualProducts(ys, a, b, da, 0.0) == Times(da, SumIndexResiduals(ys, a, b))
    decreases |ys|
  {
    if |ys| > 0 {
      var p := ys[..|ys| - 1];
      var t := (|ys| - 1) as real;
      var r := ys[|ys| - 1] - (a * t + b);
      ResidualProductsSlope(p, a, b, da);
      ProductTerms(t, r, da, 0.0);
      TimesDistributes(da, SumIndexResiduals(p, a, b), t * r);
    }
  }

  lemma {:induction false} ResidualProductsIntercept(ys: seq<real>, a: real, b: real, db: real)
    ensures ResidualProducts(ys, a, b, 0.0, db) == Times(db, SumResiduals(ys, a, b))
    decreases |ys|
  {
    if |ys| > 0 {
      var p := ys[..|ys| - 1];
      var t := (|ys| - 1) as real;
      var r := ys[|ys| - 1] - (a * t + b);
      ResidualProductsIntercept(p, a, b, db);
      ProductTerms(t, r, 0.0, db);
      TimesDistributes(db, SumResiduals(p, a, b), r);
    }
  }

  /**
   The squared error of any line (a2, b2) is that of (a, b), minus twice the
   residuals of (a, b) weighted by the difference of the lines, plus the
   squared difference of the lines.
   */
  lemma {:induction false} SquaredErrorSplit(ys: seq<real>, a: real, b: real, a2: real, b2: real)
    ensures SquaredError(ys, a2, b2)
         == SquaredError(ys, a, b) - 2.0 * ResidualProducts(ys, a, b, a2 - a, b2 - b)
            + SquaredLine(|ys|, a2 - a, b2 - b)
    decreases |ys|
  {
    if |ys| > 0 {
      var p := ys[..|ys| - 1];
      var t := (|ys| - 1) as real;
      var y := ys[|ys| - 1];
      SquaredErrorSplit(p, a, b, a2, b2);
      SplitTerm(y, t, a, b, a2, b2);
    }
  }

  /** n·Stt - St², the determinant of the normal equations, is positive once there are two points. */
  lemma DeterminantPositive(k: nat)
    requires k >= 2
    ensures k as real * IndexSquareSum(k) - Square(IndexSum(k)) > 0.0
  {
    IndexSumClosedForm(k);
    IndexSquareSumClosedForm(k);
    DeterminantClosedForm(k as real, IndexSum(k), IndexSquareSum(k));
  }

  lemma DeterminantClosedForm(n: real, st: real, stt: real)
    requires n >= 2.0
    requires st * 2.0 == n * (n - 1.0)
    requires stt * 6.0 == (n - 1.0) * n * (2.0 * n - 1.0)
    ensures n * stt - Square(st) > 0.0
  {
    var m := n * (n - 1.0);
    calc {
      (n * stt - Square(st)) * 12.0;
      == 2.0 * n * (stt * 6.0) - 3.0 * Square(st * 2.0);
      == 2.0 * n * (m * (2.0 * n - 1.0)) - 3.0 * Square(m);
      == { DeterminantPolynomial(n, m); }
      n * m * (n + 1.0);
    }
    assert m > 0.0;
    assert n * m > 0.0;
  }

  lemma DeterminantPolynomial(n: real, m: real)
    requires m == n * (n - 1.0)
    ensures 2.0 * n * (m * (2.0 * n - 1.0)) - 3.0 * Square(m) == n * m * (n + 1.0)
  {
    calc {
      2.0 * n * (m * (2.0 * n - 1.0)) - 3.0 * (m * m);
      == m * (4.0 * n * n - 2.0 * n - 3.0 * m);
      == m * (4.0 * n * n - 2.0 * n - 3.0 * n * n + 3.0 * n);
      == m * (n * n + n);
    }
  }

  /**
   The solution of the normal equations with sums n, St, Stt, Sy and Sty,
   by Cramer's rule.
   */
  function Solve(n: real, st: real, stt: real, sy: real, sty: real): Line {
    var d := n * stt - Square(st);
    if n == 0.0 || d == 0.0 then Line(0.0, 0.0)
    else
      var slope := (n * sty - st * sy) / d;
      Line(slope, (sy - slope * st) / n)
  }

  /** Cramer's rule does solve both normal equations. */
  lemma SolveSatisfiesNormalEquations(n: real, st: real, stt: real, sy: real, sty: real)
    requires n > 0.0 && n * stt - Square(st) != 0.0
    ensures sy - Times(Solve(n, st, stt, sy, sty).slope, st) - Times(Solve(n, st, stt, sy, sty).intercept, n) == 0.0
    ensures sty - Times(Solve(n, st, stt, sy, sty).slope, stt) - Times(Solve(n, st, stt, sy, sty).intercept, st) == 0.0
  {
    var l := Solve(n, st, stt, sy, sty);
    InterceptEquation(n, st, sy, l.slope, l.intercept);
    SlopeEquation(n, st, stt, sy, sty, l.slope, l.intercept);
  }

  /** The intercept (Sy - slope·St) / n satisfies the first normal equation. */
  lemma InterceptEquation(n: real, st: real, sy: real, slope: real, intercept: real)
    requires n > 0.0 && intercept == (sy - slope * st) / n
    ensures sy - Times(slope, st) - Times(intercept, n) == 0.0
  {
    assert intercept * n == sy - slope * st;
  }

  /** With that intercept, the slope (n·Sty - St·Sy) / d satisfies the second normal equation. */
  lemma SlopeEquation(n: real, st: real, stt: real, sy: real, sty: real, slope: real, intercept: real)
    requires n > 0.0 && n * stt - Square(st) != 0.0
    requires slope == (n * sty - st * sy) / (n * stt - Square(st))
    requires intercept == (sy - slope * st) / n
    ensures sty - Times(slope, stt) - Times(intercept, st) == 0.0
  {
    var d := n * stt - Square(st);
    assert slope * d == n * sty - st * sy;
    assert n * intercept == sy - slope * st;
    calc {
      n * (sty - slope * stt - intercept * st);
      == n * sty - slope * (n * stt) - (n * intercept) * st;
      == n * sty - slope * (d + st * st) - (sy - slope * st) * st;
      == n * sty - slope * d - sy * st;
      == 0.0;
    }
    NonZeroProduct(n, sty - slope * stt - intercept * st);
  }

  lemma NonZeroProduct(n: real, x: real)
    requires n != 0.0 && n * x == 0.0
    ensures x == 0.0
  {
  }

  /** The least-squares line: `np.polyfit(range(k), ys, 1)`. */
  function Fit(ys: seq<real>): Line
    requires |ys| >= 2
  {
    Solve(|ys| as real, IndexSum(|ys|), IndexSquareSum(|ys|), Sum(ys), WeightedSum(ys))
  }

  /**
   The fit's residuals satisfy both normal equations, Σ r_t = 0 and
   Σ t·r_t = 0, which characterise the least-squares line.
   */
  lemma FitSolvesNormalEquations(ys: seq<real>)
    requires |ys| >= 2
    ensures SumResiduals(ys, Fit(ys).slope, Fit(ys).intercept) == 0.0
    ensures SumIndexResiduals(ys, Fit(ys).slope, Fit(ys).intercept) == 0.0
  {
    DeterminantPositive(|ys|);
    SolveSatisfiesNormalEquations(|ys| as real, IndexSum(|ys|), IndexSquareSum(|ys|), Sum(ys), WeightedSum(ys));
    SumResidualsExpand(ys, Fit(ys).slope, Fit(ys).intercept);
    SumIndexResidualsExpand(ys, Fit(ys).slope, Fit(ys).intercept);
  }

  /** No line has a smaller squared error than the fit, and only the fit attains it. */
  lemma FitIsLeastSquares(ys: seq<real>, a: real, b: real)
    requires |ys| >= 2
    ensures SquaredError(ys, Fit(ys).slope, Fit(ys).intercept) <= SquaredError(ys, a, b)
    ensures SquaredError(ys, a, b) == SquaredError(ys, Fit(ys).slope, Fit(ys).intercept) ==> Fit(ys) == Line(a, b)
  {
    var l := Fit(ys);
    FitSolvesNormalEquations(ys);
    var da := a - l.slope;
    var db := b - l.intercept;
    SquaredErrorSplit(ys, l.slope, l.intercept, a, b);
    ResidualProductsExpand(ys, l.slope, l.intercept, da, db);
    assert ResidualProducts(ys, l.slope, l.intercept, da, db) == 0.0;
    SquaredLineBounds(|ys|, da, db);
    if SquaredError(ys, a, b) == SquaredError(ys, l.slope, l.intercept) {
      SquareNonNegative(db);
      SquareNonNegative(da + db);
      if db != 0.0 {
        SquarePositive(db);
      }
      if da + db != 0.0 {
        SquarePositive(da + db);
      }
    }
  }

  /**
   The normal equations have one solution: a line whose residuals satisfy
   Σ r_t = 0 and Σ t·r_t = 0 is the fit.
   */
  lemma NormalEquationsDetermineFit(ys: seq<real>, a: real, b: real)
    requires |ys| >= 2
    requires SumResiduals(ys, a, b) == 0.0 && SumIndexResiduals(ys, a, b) == 0.0
    ensures Fit(ys) == Line(a, b)
  {
    var l := Fit(ys);
    SquaredErrorSplit(ys, a, b, l.slope, l.intercept);
    ResidualProductsExpand(ys, a, b, l.slope - a, l.intercept - b);
    SquaredLineBounds(|ys|, l.slope - a, l.intercept - b);
    FitIsLeastSquares(ys, a, b);
  }

  lemma {:induction false} ExactLineHasNoError(ys: seq<real>, a: real, b: real)
    requires forall t :: 0 <= t < |ys| ==> ys[t] == a * t as real + b
    ensures SquaredError(ys, a, b) == 0.0
    decreases |ys|
  {
    if |ys| > 0 {
      ExactLineHasNoError(ys[..|ys| - 1], a, b);
      assert Square(0.0) == 0.0;
    }
  }

  /** Points lying exactly on a line are fitted by that very line. */
  lemma FitRecoversExactLine(ys: seq<real>, a: real, b: real)
    requires |ys| >= 2
    requires forall t :: 0 <= t < |ys| ==> ys[t] == a * t as real + b
    ensures Fit(ys) == Line(a, b)
  {
    ExactLineHasNoError(ys, a, b);
    FitIsLeastSquares(ys, a, b);
    var l := Fit(ys);
    SquaredErrorNonNegative(ys, l.slope, l.intercept);
  }
}
