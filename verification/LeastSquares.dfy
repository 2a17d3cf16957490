/**
 The forecaster's least-squares line, over the reals. `Slope` and `Intercept` are
 the program's closed form; they give the one line with the least squared error,
 for every history of at least two observations.

 Products go through `Times`, so that inductions over the sums can treat them as
 black boxes and leave the algebra to lemmas about single steps.
 */
module LeastSquares {
  function Times(x: real, y: real): real { x * y }

  function Square(x: real): real { Times(x, x) }

  // ----- Sums over the first n observations -----

  function SumT(n: nat): real { if n == 0 then 0.0 else SumT(n - 1) + (n - 1) as real }

  function SumT2(n: nat): real { if n == 0 then 0.0 else SumT2(n - 1) + Square((n - 1) as real) }

  function SumY(ys: seq<real>, n: nat): real
    requires n <= |ys|
  {
    if n == 0 then 0.0 else SumY(ys, n - 1) + ys[n - 1]
  }

  function SumTY(ys: seq<real>, n: nat): real
    requires n <= |ys|
  {
    if n == 0 then 0.0 else SumTY(ys, n - 1) + Times((n - 1) as real, ys[n - 1])
  }

  /** What the line a + b*t misses of y at time t. */
  function Residual(y: real, t: real, a: real, b: real): real {
    y - (a + Times(b, t))
  }

  /** The squared error of a line. */
  function SquaredError(ys: seq<real>, a: real, b: real, n: nat): real
    requires n <= |ys|
  {
    if n == 0 then 0.0 else SquaredError(ys, a, b, n - 1) + Square(Residual(ys[n - 1], (n - 1) as real, a, b))
  }

  // ----- The program's line -----

  function Denominator(n: nat): real { Times(n as real, SumT2(n)) - Square(SumT(n)) }

  function Slope(ys: seq<real>): real {
    var n := |ys|;
    if Denominator(n) == 0.0 then 0.0
    else (Times(n as real, SumTY(ys, n)) - Times(SumT(n), SumY(ys, n))) / Denominator(n)
  }

  function Intercept(ys: seq<real>): real
    requires ys != []
  {
    (SumY(ys, |ys|) - Times(Slope(ys), SumT(|ys|))) / |ys| as real
  }

  function Mean(ys: seq<real>): real
    requires ys != []
  {
    SumY(ys, |ys|) / |ys| as real
  }

  // ----- The denominator -----

  lemma {:induction false} ClosedSums(n: nat)
    ensures 2.0 * SumT(n) == n as real * (n as real - 1.0)
    ensures 6.0 * SumT2(n) == n as real * (n as real - 1.0) * (2.0 * n as real - 1.0)
  {
    if n > 0 {
      ClosedSums(n - 1);
      var x := (n - 1) as real;
      assert n as real == x + 1.0;
      assert (x + 1.0) * x * (2.0 * x + 1.0) == x * (x - 1.0) * (2.0 * x - 1.0) + 6.0 * (x * x);
    }
  }

  lemma DenominatorAlgebra(x: real, t: real, q: real)
    requires 2.0 * t == x * (x - 1.0) && 6.0 * q == x * (x - 1.0) * (2.0 * x - 1.0)
    ensures 12.0 * (x * q - t * t) == x * x * (x * x - 1.0)
  {
  }

  /** n^2 (n^2 - 1) / 12, so positive from two observations on. */
  lemma DenominatorIs(n: nat)
    ensures 12.0 * Denominator(n) == n as real * n as real * (n as real * n as real - 1.0)
    ensures n >= 2 ==> Denominator(n) > 0.0
  {
    ClosedSums(n);
    hide SumT, SumT2;
    var x := n as real;
    DenominatorAlgebra(x, SumT(n), SumT2(n));
    if n >= 2 {
      assert x * x >= 2.0 * 2.0;
      assert x * x * (x * x - 1.0) > 0.0;
    }
  }

  // ----- The normal equations -----

  function SumResidual(ys: seq<real>, a: real, b: real, n: nat): real
    requires n <= |ys|
  {
    if n == 0 then 0.0 else SumResidual(ys, a, b, n - 1) + Residual(ys[n - 1], (n - 1) as real, a, b)
  }

  function SumTResidual(ys: seq<real>, a: real, b: real, n: nat): real
    requires n <= |ys|
  {
    if n == 0 then 0.0
    else SumTResidual(ys, a, b, n - 1) + Times((n - 1) as real, Residual(ys[n - 1], (n - 1) as real, a, b))
  }

  lemma ResidualStep(x: real, y: real, a: real, b: real, sy: real, st: real)
    ensures sy - Times(a, x) - Times(b, st) + Residual(y, x, a, b) == (sy + y) - Times(a, x + 1.0) - Times(b, st + x)
  {
  }

  lemma TResidualStep(x: real, y: real, a: real, b: real, sty: real, st: real, st2: real)
    ensures sty - Times(a, st) - Times(b, st2) + Times(x, Residual(y, x, a, b))
         == (sty + Times(x, y)) - Times(a, st + x) - Times(b, st2 + Square(x))
  {
  }

  lemma TimesZero(x: real)
    ensures Times(x, 0.0) == 0.0
  {
  }

  lemma {:induction false} ResidualSums(ys: seq<real>, a: real, b: real, n: nat)
    requires n <= |ys|
    ensures SumResidual(ys, a, b, n) == SumY(ys, n) - Times(a, n as real) - Times(b, SumT(n))
    ensures SumTResidual(ys, a, b, n) == SumTY(ys, n) - Times(a, SumT(n)) - Times(b, SumT2(n))
  {
    hide Times, Square, Residual;
    if n == 0 {
      TimesZero(a);
      TimesZero(b);
    } else {
      var m := n - 1;
      ResidualSums(ys, a, b, m);
      ResidualStep(m as real, ys[m], a, b, SumY(ys, m), SumT(m));
      TResidualStep(m as real, ys[m], a, b, SumTY(ys, m), SumT(m), SumT2(m));
      assert n as real == m as real + 1.0;
    }
  }

  /** The second normal equation follows from the first and the slope. */
  lemma Eliminate(x: real, t: real, q: real, y: real, ty: real, a: real, b: real)
    requires x != 0.0 && Times(a, x) == y - Times(b, t)
    requires Times(b, Times(x, q) - Square(t)) == Times(x, ty) - Times(t, y)
    ensures ty - Times(a, t) - Times(b, q) == 0.0
  {
  }

  lemma TimesOfQuotient(p: real, q: real)
    requires q != 0.0
    ensures Times(p / q, q) == p
  {
  }

  /** The line leaves residuals that sum to zero, plain and weighted by time. */
  lemma NormalEquations(ys: seq<real>)
    requires |ys| >= 2
    ensures SumResidual(ys, Intercept(ys), Slope(ys), |ys|) == 0.0
    ensures SumTResidual(ys, Intercept(ys), Slope(ys), |ys|) == 0.0
  {
    hide Times, Square, SumT, SumT2, SumY, SumTY, SumResidual, SumTResidual;
    var n := |ys|;
    DenominatorIs(n);
    ResidualSums(ys, Intercept(ys), Slope(ys), n);
    var (x, t, y, b) := (n as real, SumT(n), SumY(ys, n), Slope(ys));
    TimesOfQuotient(Times(x, SumTY(ys, n)) - Times(t, y), Denominator(n));
    TimesOfQuotient(y - Times(b, t), x);
    Eliminate(x, t, SumT2(n), y, SumTY(ys, n), Intercept(ys), b);
  }

  /** The mean is the constant that leaves deviations summing to zero. */
  lemma MeanBalances(ys: seq<real>)
    requires ys != []
    ensures SumResidual(ys, Mean(ys), 0.0, |ys|) == 0.0
  {
    hide Times, SumY, SumResidual, SumT;
    ResidualSums(ys, Mean(ys), 0.0, |ys|);
    TimesOfQuotient(SumY(ys, |ys|), |ys| as real);
    ZeroTimes(SumT(|ys|));
  }

  lemma ZeroTimes(x: real)
    ensures Times(0.0, x) == 0.0
  {
  }

  // ----- The line is the best one -----

  /** The squared distance between two lines over the first n points. */
  function Distance(da: real, db: real, n: nat): real {
    if n == 0 then 0.0 else Distance(da, db, n - 1) + Square(da + Times(db, (n - 1) as real))
  }

  lemma PositiveProduct(x: real, y: real)
    requires (x > 0.0 && y > 0.0) || (x < 0.0 && y < 0.0)
    ensures Times(x, y) > 0.0
  {
  }

  lemma SquarePositive(x: real)
    ensures Square(x) >= 0.0
    ensures Square(x) == 0.0 <==> x == 0.0
  {
    if x == 0.0 {
      TimesZero(x);
    } else {
      PositiveProduct(x, x);
      hide Times;
    }
  }

  lemma {:induction false} DistancePositive(da: real, db: real, n: nat)
    ensures Distance(da, db, n) >= 0.0
    ensures n >= 2 && Distance(da, db, n) == 0.0 ==> da == 0.0 && db == 0.0
  {
    hide Square;
    if n > 0 {
      DistancePositive(da, db, n - 1);
      SquarePositive(da + Times(db, (n - 1) as real));
      if n == 2 { SquarePositive(da + Times(db, 0.0)); }
    }
  }

  lemma ExpandStep(y: real, t: real, a: real, b: real, da: real, db: real, s0: real, s1: real)
    ensures Square(Residual(y, t, a - da, b - db)) + 2.0 * Times(da, s0) + 2.0 * Times(db, s1)
         == Square(Residual(y, t, a, b)) + Square(da + Times(db, t))
          + 2.0 * Times(da, s0 + Residual(y, t, a, b)) + 2.0 * Times(db, s1 + Times(t, Residual(y, t, a, b)))
  {
  }

  /** Pythagoras: the error of another line, expanded around this one. */
  lemma {:induction false} Expand(ys: seq<real>, a: real, b: real, da: real, db: real, n: nat)
    requires n <= |ys|
    ensures SquaredError(ys, a - da, b - db, n) == SquaredError(ys, a, b, n) + Distance(da, db, n)
      + 2.0 * Times(da, SumResidual(ys, a, b, n)) + 2.0 * Times(db, SumTResidual(ys, a, b, n))
  {
    hide Times, Square, Residual;
    if n == 0 {
      TimesZero(da);
      TimesZero(db);
    } else {
      var m := n - 1;
      Expand(ys, a, b, da, db, m);
      ExpandStep(ys[m], m as real, a, b, da, db, SumResidual(ys, a, b, m), SumTResidual(ys, a, b, m));
    }
  }

  /** No line has a smaller squared error, and no other line has the same. */
  lemma FitIsBest(ys: seq<real>, a: real, b: real)
    requires |ys| >= 2
    ensures SquaredError(ys, Intercept(ys), Slope(ys), |ys|) <= SquaredError(ys, a, b, |ys|)
    ensures SquaredError(ys, Intercept(ys), Slope(ys), |ys|) == SquaredError(ys, a, b, |ys|)
       <==> a == Intercept(ys) && b == Slope(ys)
  {
    hide Times, SquaredError, Distance, Intercept, Slope;
    NormalEquations(ys);
    var (da, db) := (Intercept(ys) - a, Slope(ys) - b);
    Expand(ys, Intercept(ys), Slope(ys), da, db, |ys|);
    TimesZero(da);
    TimesZero(db);
    DistancePositive(da, db, |ys|);
  }

  lemma {:induction false} ErrorPositive(ys: seq<real>, a: real, b: real, n: nat)
    requires n <= |ys|
    ensures SquaredError(ys, a, b, n) >= 0.0
  {
    hide Square;
    if n > 0 {
      ErrorPositive(ys, a, b, n - 1);
      SquarePositive(Residual(ys[n - 1], (n - 1) as real, a, b));
    }
  }

  /** The fit explains part of the variance, so the coefficient of determination needs no clamp. */
  lemma FitExplains(ys: seq<real>)
    requires |ys| >= 2
    ensures var (res, tot) := (SquaredError(ys, Intercept(ys), Slope(ys), |ys|), SquaredError(ys, Mean(ys), 0.0, |ys|));
            0.0 <= res <= tot && (tot > 0.0 ==> 0.0 <= 1.0 - res / tot <= 1.0)
  {
    hide SquaredError, Intercept, Slope, Mean;
    FitIsBest(ys, Mean(ys), 0.0);
    ErrorPositive(ys, Intercept(ys), Slope(ys), |ys|);
  }

  lemma {:induction false} ExactError(ys: seq<real>, a: real, b: real, n: nat)
    requires n <= |ys| && forall i :: 0 <= i < n ==> ys[i] == a + Times(b, i as real)
    ensures SquaredError(ys, a, b, n) == 0.0
  {
    if n > 0 {
      ExactError(ys, a, b, n - 1);
      TimesZero(0.0);
    }
  }

  /** A history on a line is recovered exactly. */
  lemma FitRecovers(ys: seq<real>, a: real, b: real)
    requires |ys| >= 2 && forall i :: 0 <= i < |ys| ==> ys[i] == a + Times(b, i as real)
    ensures Intercept(ys) == a && Slope(ys) == b
    ensures SquaredError(ys, Intercept(ys), Slope(ys), |ys|) == 0.0
  {
    hide Intercept, Slope, SquaredError;
    ExactError(ys, a, b, |ys|);
    ErrorPositive(ys, Intercept(ys), Slope(ys), |ys|);
    FitIsBest(ys, a, b);
  }
}
