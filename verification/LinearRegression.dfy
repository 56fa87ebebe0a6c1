/** Least squares over exact reals, as the memory-leak benchmark fits them. */
module LinearRegression {

  /** f64::EPSILON */
  const EPSILON: real := 1.0 / 4503599627370496.0

  /** A quotient by zero rounds is not a number. */
  datatype Float = NaN | Num(value: real)

  datatype Fit = Fit(slope: real, intercept: Float, rSquared: real)

  function Sum(ys: seq<real>): real {
    if ys == [] then 0.0 else Sum(ys[..|ys| - 1]) + ys[|ys| - 1]
  }

  /** The abscissae are the round numbers 0, 1, 2, ... */
  function SumX(n: nat): real {
    if n == 0 then 0.0 else SumX(n - 1) + (n - 1) as real
  }

  function SumXX(n: nat): real {
    if n == 0 then 0.0 else SumXX(n - 1) + (n - 1) as real * (n - 1) as real
  }

  function SumXY(ys: seq<real>): real {
    if ys == [] then 0.0 else SumXY(ys[..|ys| - 1]) + (|ys| - 1) as real * ys[|ys| - 1]
  }

  function Square(x: real): (r: real)
    ensures r >= 0.0
  {
    x * x
  }

  /** The sum of squared residuals of the line `slope * x + intercept`. */
  function Residuals(ys: seq<real>, slope: real, intercept: real): (r: real)
    ensures r >= 0.0
  {
    if ys == [] then 0.0
    else Residuals(ys[..|ys| - 1], slope, intercept)
         + Square(ys[|ys| - 1] - (slope * (|ys| - 1) as real + intercept))
  }

  function Denominator(n: nat): real { n as real * SumXX(n) - SumX(n) * SumX(n) }

  function Abs(x: real): real { if x < 0.0 then -x else x }

  function Regression(ys: seq<real>): Fit {
    var n := |ys| as real;
    var denom := Denominator(|ys|);
    if ys == [] then Fit(0.0, NaN, 0.0)  // no rounds: the denominator is 0, the mean 0/0
    else if Abs(denom) < EPSILON then Fit(0.0, Num(Sum(ys) / n), 0.0)
    else
      var slope := (n * SumXY(ys) - SumX(|ys|) * Sum(ys)) / denom;
      var intercept := (Sum(ys) - slope * SumX(|ys|)) / n;
      var mean := Sum(ys) / n;
      var total := Residuals(ys, 0.0, mean);
      var residual := Residuals(ys, slope, intercept);
      Fit(slope, Num(intercept), if total > 0.0 then 1.0 - residual / total else 0.0)
  }

  // ---------------------------------------------------------------------
  // The denominator.
  // ---------------------------------------------------------------------

  lemma {:induction false} ClosedForms(n: nat)
    ensures 2.0 * SumX(n) == n as real * (n as real - 1.0)
    ensures 6.0 * SumXX(n) == n as real * (n as real - 1.0) * (2.0 * n as real - 1.0)
  {
    if n > 0 {
      ClosedForms(n - 1);
      var m := (n - 1) as real;
      assert n as real == m + 1.0;
      assert (m + 1.0) * m * (2.0 * m + 1.0) == m * (m - 1.0) * (2.0 * m - 1.0) + 6.0 * m * m;
    }
  }

  /** The denominator is n^2 (n^2 - 1) / 12: positive from two rounds on. */
  lemma DenominatorClosedForm(n: nat)
    ensures 12.0 * Denominator(n) == n as real * n as real * (n as real * n as real - 1.0)
    ensures n >= 2 ==> Denominator(n) >= 1.0
    ensures n < 2 ==> Denominator(n) == 0.0
  {
    ClosedForms(n);
    var r, x, xx := n as real, SumX(n), SumXX(n);
    assert 12.0 * (r * xx) == 2.0 * r * (6.0 * xx);
    assert 12.0 * (x * x) == 3.0 * (2.0 * x) * (2.0 * x);
    Expand(r);
    assert 12.0 * Denominator(n) == r * r * (r * r - 1.0);
    if n >= 2 { AtLeastTwelve(r); }
    if n == 1 { assert r == 1.0; }
  }

  lemma Expand(r: real)
    ensures 2.0 * r * (r * (r - 1.0) * (2.0 * r - 1.0)) - 3.0 * (r * (r - 1.0)) * (r * (r - 1.0)) ==
            r * r * (r * r - 1.0)
  {
    var q := r * r;
    assert r * (r - 1.0) == q - r;
    assert (q - r) * (2.0 * r - 1.0) == 2.0 * q * r - q - 2.0 * q + r;
    assert (q - r) * (q - r) == q * q - 2.0 * q * r + q;
    assert r * (2.0 * q * r - 3.0 * q + r) == 2.0 * q * q - 3.0 * q * r + q;
  }

  lemma AtLeastTwelve(r: real)
    requires r >= 2.0
    ensures r * r * (r * r - 1.0) >= 12.0
  {
    var q := r * r;
    assert q >= 4.0;
    assert q * (q - 1.0) >= 4.0 * (q - 1.0);
  }

  // ---------------------------------------------------------------------
  // Optimality.
  // ---------------------------------------------------------------------

  function SumYY(ys: seq<real>): real {
    if ys == [] then 0.0 else SumYY(ys[..|ys| - 1]) + ys[|ys| - 1] * ys[|ys| - 1]
  }

  /** The sum of (y - (a x + b))^2 written in the moments of the data. */
  function Quadratic(a: real, b: real, syy: real, sxy: real, sy: real, sxx: real, sx: real, n: real): real {
    syy - 2.0 * (a * sxy) - 2.0 * (b * sy) + (a * a) * sxx + 2.0 * ((a * b) * sx) + (b * b) * n
  }

  lemma QuadraticStep(a: real, b: real, syy: real, sxy: real, sy: real, sxx: real, sx: real, n: real, x: real, y: real)
    ensures Quadratic(a, b, syy + y * y, sxy + x * y, sy + y, sxx + x * x, sx + x, n + 1.0)
         == Quadratic(a, b, syy, sxy, sy, sxx, sx, n) + Square(y - (a * x + b))
  {
    var p := a * x;
    assert Square(y - (p + b)) == y * y - 2.0 * (p * y) - 2.0 * (b * y) + p * p + 2.0 * (b * p) + b * b;
    assert p * y == a * (x * y);
    assert p * p == (a * a) * (x * x);
    assert b * p == (a * b) * x;
    assert a * (sxy + x * y) == a * sxy + a * (x * y);
    assert b * (sy + y) == b * sy + b * y;
    assert (a * a) * (sxx + x * x) == (a * a) * sxx + (a * a) * (x * x);
    assert (a * b) * (sx + x) == (a * b) * sx + (a * b) * x;
  }

  lemma {:induction false} ResidualsExpand(ys: seq<real>, a: real, b: real)
    ensures Residuals(ys, a, b) == Quadratic(a, b, SumYY(ys), SumXY(ys), Sum(ys), SumXX(|ys|), SumX(|ys|), |ys| as real)
    decreases |ys|
  {
    if ys != [] {
      var n := |ys| - 1;
      ResidualsExpand(ys[..n], a, b);
      ResidualsExpandStep(ys, n, a, b);
    }
  }

  lemma ResidualsExpandStep(ys: seq<real>, n: nat, a: real, b: real)
    requires |ys| == n + 1
    requires Residuals(ys[..n], a, b) ==
             Quadratic(a, b, SumYY(ys[..n]), SumXY(ys[..n]), Sum(ys[..n]), SumXX(n), SumX(n), n as real)
    ensures Residuals(ys, a, b) ==
            Quadratic(a, b, SumYY(ys), SumXY(ys), Sum(ys), SumXX(n + 1), SumX(n + 1), (n + 1) as real)
  {
    hide Quadratic, Square;
    var y, x := ys[n], n as real;
    assert SumYY(ys) == SumYY(ys[..n]) + y * y;
    assert SumXY(ys) == SumXY(ys[..n]) + x * y;
    assert Sum(ys) == Sum(ys[..n]) + y;
    assert SumXX(n + 1) == SumXX(n) + x * x;
    assert SumX(n + 1) == SumX(n) + x;
    assert Residuals(ys, a, b) == Residuals(ys[..n], a, b) + Square(y - (a * x + b));
    QuadraticStep(a, b, SumYY(ys[..n]), SumXY(ys[..n]), Sum(ys[..n]), SumXX(n), SumX(n), n as real, x, y);
    assert (n + 1) as real == x + 1.0;
  }

  /** The spread of one line about another: sum of (u x + v)^2. */
  function Spread(n: nat, u: real, v: real): (r: real)
    ensures r >= 0.0
  {
    if n == 0 then 0.0 else Spread(n - 1, u, v) + Square(0.0 - (u * (n - 1) as real + v))
  }

  lemma {:induction false} SpreadExpand(n: nat, u: real, v: real)
    ensures Spread(n, u, v) == Quadratic(u, v, 0.0, 0.0, 0.0, SumXX(n), SumX(n), n as real)
  {
    if n > 0 {
      SpreadExpand(n - 1, u, v);
      SpreadExpandStep(n - 1, u, v);
    }
  }

  lemma SpreadExpandStep(n: nat, u: real, v: real)
    requires Spread(n, u, v) == Quadratic(u, v, 0.0, 0.0, 0.0, SumXX(n), SumX(n), n as real)
    ensures Spread(n + 1, u, v) == Quadratic(u, v, 0.0, 0.0, 0.0, SumXX(n + 1), SumX(n + 1), (n + 1) as real)
  {
    hide Quadratic, Square;
    var x := n as real;
    assert SumXX(n + 1) == SumXX(n) + x * x;
    assert SumX(n + 1) == SumX(n) + x;
    assert Spread(n + 1, u, v) == Spread(n, u, v) + Square(0.0 - (u * x + v));
    QuadraticStep(u, v, 0.0, 0.0, 0.0, SumXX(n), SumX(n), n as real, x, 0.0);
    assert (n + 1) as real == x + 1.0;
    assert x * 0.0 == 0.0;
  }

  /** The line (a, b) has the first two moments of the data. */
  ghost predicate NormalEquations(ys: seq<real>, a: real, b: real) {
    && a * SumX(|ys|) + b * |ys| as real == Sum(ys)
    && a * SumXX(|ys|) + b * SumX(|ys|) == SumXY(ys)
  }

  /** Pythagoras: any other line is worse by its spread about the fitted one. */
  lemma ResidualsSplit(ys: seq<real>, m: real, c: real, a: real, b: real)
    requires NormalEquations(ys, m, c)
    ensures Residuals(ys, a, b) == Residuals(ys, m, c) + Spread(|ys|, a - m, b - c)
  {
    hide Quadratic, Residuals, Spread, SumX, SumXX, SumXY, SumYY, Sum;
    ResidualsExpand(ys, a, b);
    ResidualsExpand(ys, m, c);
    SpreadExpand(|ys|, a - m, b - c);
    Pythagoras(m, c, a, b, SumYY(ys), SumXY(ys), Sum(ys), SumXX(|ys|), SumX(|ys|), |ys| as real);
  }

  lemma Pythagoras(m: real, c: real, a: real, b: real, syy: real, sxy: real, sy: real, sxx: real, sx: real, n: real)
    requires m * sx + c * n == sy
    requires m * sxx + c * sx == sxy
    ensures Quadratic(a, b, syy, sxy, sy, sxx, sx, n) ==
              Quadratic(m, c, syy, sxy, sy, sxx, sx, n) + Quadratic(a - m, b - c, 0.0, 0.0, 0.0, sxx, sx, n)
  {
    assert a * sxy == a * (m * sxx) + a * (c * sx);
    assert m * sxy == m * (m * sxx) + m * (c * sx);
    assert b * sy == b * (m * sx) + b * (c * n);
    assert c * sy == c * (m * sx) + c * (c * n);
    assert (a - m) * (a - m) == a * a - 2.0 * (a * m) + m * m;
    assert (a - m) * (b - c) == a * b - a * c - m * b + m * c;
    assert (b - c) * (b - c) == b * b - 2.0 * (b * c) + c * c;
  }

  lemma FitSolvesNormalEquations(ys: seq<real>)
    requires |ys| >= 2
    ensures Regression(ys).intercept.Num?
    ensures NormalEquations(ys, Regression(ys).slope, Regression(ys).intercept.value)
  {
    hide SumX, SumXX, SumXY, Sum, Residuals;
    DenominatorClosedForm(|ys|);
    var n, sx, sxx, sy, sxy := |ys| as real, SumX(|ys|), SumXX(|ys|), Sum(ys), SumXY(ys);
    var denom := n * sxx - sx * sx;
    var m := (n * sxy - sx * sy) / denom;
    var c := (sy - m * sx) / n;
    Cramer(n, sx, sxx, sy, sxy, denom, m, c);
  }

  lemma Cramer(n: real, sx: real, sxx: real, sy: real, sxy: real, denom: real, m: real, c: real)
    requires n > 0.0 && denom == n * sxx - sx * sx && denom != 0.0
    requires m == (n * sxy - sx * sy) / denom && c == (sy - m * sx) / n
    ensures m * sx + c * n == sy
    ensures m * sxx + c * sx == sxy
  {
    assert m * denom == n * sxy - sx * sy;
    assert c * n == sy - m * sx;
    assert n * (m * sxx + c * sx) == m * (n * sxx) + (c * n) * sx;
    assert (sy - m * sx) * sx == sy * sx - m * (sx * sx);
    assert m * (n * sxx) - m * (sx * sx) == m * denom;
    assert n * (m * sxx + c * sx) == n * sxy;
    CancelFactor(n, m * sxx + c * sx, sxy);
  }

  lemma CancelFactor(n: real, p: real, q: real)
    requires n != 0.0 && n * p == n * q
    ensures p == q
  {
    assert n * (p - q) == 0.0;
  }

  lemma {:induction false} SpreadPositive(n: nat, u: real, v: real)
    requires n >= 2 && Spread(n, u, v) == 0.0
    ensures u == 0.0 && v == 0.0
    decreases n
  {
    if n == 2 {
      assert Spread(2, u, v) == Spread(1, u, v) + Square(0.0 - (u * 1.0 + v));
      assert Spread(1, u, v) == Square(0.0 - (u * 0.0 + v));
      ZeroSquare(0.0 - (u * 0.0 + v));
      ZeroSquare(0.0 - (u * 1.0 + v));
    } else {
      SpreadPositive(n - 1, u, v);
    }
  }

  lemma SameSignProduct(p: real, q: real, product: real)
    requires product == p * q && ((p > 0.0 && q > 0.0) || (p < 0.0 && q < 0.0))
    ensures product > 0.0
  {
  }

  lemma ZeroSquare(x: real)
    requires Square(x) == 0.0
    ensures x == 0.0
  {
    if x != 0.0 { SameSignProduct(x, x, Square(x)); }
  }

  /** The fitted line minimises the squared residuals over all lines, and is
      the only line to do so, for every sample of two or more rounds. */
  lemma FitIsTheMinimum(ys: seq<real>, a: real, b: real)
    requires |ys| >= 2
    ensures Regression(ys).intercept.Num?
    ensures Residuals(ys, Regression(ys).slope, Regression(ys).intercept.value) <= Residuals(ys, a, b)
    ensures Residuals(ys, Regression(ys).slope, Regression(ys).intercept.value) == Residuals(ys, a, b) ==>
              a == Regression(ys).slope && b == Regression(ys).intercept.value
  {
    hide Regression;
    FitSolvesNormalEquations(ys);
    var m, c := Regression(ys).slope, Regression(ys).intercept.value;
    ResidualsSplit(ys, m, c, a, b);
    if Spread(|ys|, a - m, b - c) == 0.0 {
      SpreadPositive(|ys|, a - m, b - c);
    }
  }

  /** All samples lie on the line. */
  ghost predicate OnLine(ys: seq<real>, a: real, b: real) {
    forall i :: 0 <= i < |ys| ==> ys[i] == a * i as real + b
  }

  lemma {:induction false} NoResidualsMeansOnLine(ys: seq<real>, a: real, b: real)
    ensures Residuals(ys, a, b) == 0.0 <==> OnLine(ys, a, b)
    decreases |ys|
  {
    if ys != [] {
      var n := |ys| - 1;
      NoResidualsMeansOnLine(ys[..n], a, b);
      var d := ys[n] - (a * n as real + b);
      if Residuals(ys, a, b) == 0.0 {
        ZeroSquare(d);
        assert forall i :: 0 <= i < n ==> ys[..n][i] == ys[i];
      }
      if OnLine(ys, a, b) {
        assert forall i :: 0 <= i < n ==> ys[..n][i] == ys[i];
        assert d == 0.0 && Square(d) == 0.0;
      }
    }
  }

  /** R^2 lies in [0, 1]; it is 1 exactly for samples on a line that is not
      flat, so a leak verdict never rests on a value outside its range. */
  lemma RSquaredIsAFraction(ys: seq<real>)
    ensures 0.0 <= Regression(ys).rSquared <= 1.0
    ensures |ys| >= 2 ==>
              (Regression(ys).rSquared == 1.0 <==>
                 OnLine(ys, Regression(ys).slope, Regression(ys).intercept.value)
                 && Residuals(ys, 0.0, Sum(ys) / |ys| as real) > 0.0)
  {
    DenominatorClosedForm(|ys|);
    if |ys| >= 2 {
      var mean := Sum(ys) / |ys| as real;
      FitIsTheMinimum(ys, 0.0, mean);
      var residual := Residuals(ys, Regression(ys).slope, Regression(ys).intercept.value);
      var total := Residuals(ys, 0.0, mean);
      NoResidualsMeansOnLine(ys, Regression(ys).slope, Regression(ys).intercept.value);
      if total > 0.0 {
        QuotientInRange(residual, total);
      }
    }
  }

  lemma QuotientInRange(p: real, q: real)
    requires 0.0 <= p <= q && q > 0.0
    ensures 0.0 <= p / q <= 1.0
    ensures p / q == 0.0 <==> p == 0.0
  {
    assert p / q * q == p;
  }

  /** Growth the benchmark tolerates, in KB per round. */
  const MAX_SLOPE_KB_PER_ROUND: real := 50.0

  /** The verdict on samples in MB. */
  predicate LeakSuspected(ys: seq<real>) {
    Regression(ys).slope * 1024.0 > MAX_SLOPE_KB_PER_ROUND && Regression(ys).rSquared > 0.7
  }

  /** No other line has smaller squared residuals. */
  ghost predicate IsLeastSquares(ys: seq<real>, a: real, b: real) {
    forall c, d :: Residuals(ys, a, b) <= Residuals(ys, c, d)
  }

  /** The verdict without the fit: a leak is suspected exactly when the best line
      climbs by more than 50 KB a round and leaves less than three tenths of the
      spread about the mean; never with fewer than two rounds. */
  lemma LeakIff(ys: seq<real>)
    ensures |ys| < 2 ==> !LeakSuspected(ys)
    ensures |ys| >= 2 ==>
            (LeakSuspected(ys) <==>
               exists a, b :: IsLeastSquares(ys, a, b) && a * 1024.0 > 50.0
                              && 10.0 * Residuals(ys, a, b) < 3.0 * Residuals(ys, 0.0, Sum(ys) / |ys| as real))
  {
    DenominatorClosedForm(|ys|);
    if |ys| >= 2 {
      var mean := Sum(ys) / |ys| as real;
      FitIsTheMinimum(ys, 0.0, mean);
      var m, c := Regression(ys).slope, Regression(ys).intercept.value;
      forall a, b ensures Residuals(ys, m, c) <= Residuals(ys, a, b) { FitIsTheMinimum(ys, a, b); }
      assert IsLeastSquares(ys, m, c);
      forall a, b | IsLeastSquares(ys, a, b) ensures a == m && b == c {
        FitIsTheMinimum(ys, a, b);
        assert Residuals(ys, a, b) <= Residuals(ys, m, c);
      }
      var residual, total := Residuals(ys, m, c), Residuals(ys, 0.0, mean);
      if total > 0.0 { QuotientBelow(residual, total); }
    }
  }

  lemma QuotientBelow(p: real, q: real)
    requires q > 0.0
    ensures 1.0 - p / q > 0.7 <==> 10.0 * p < 3.0 * q
  {
    var ratio := p / q;
    assert ratio * q == p;
    if ratio < 0.3 { SameSign(0.3 - ratio, q); }
    if ratio >= 0.3 { NotNegative(ratio - 0.3, q); }
  }

  lemma SameSign(x: real, y: real)
    requires x > 0.0 && y > 0.0
    ensures x * y > 0.0
  {}

  lemma NotNegative(x: real, y: real)
    requires x >= 0.0 && y > 0.0
    ensures x * y >= 0.0
  {}

  /** Samples on a line are judged by that line: the fit recovers it, and the
      verdict is a leak exactly when it climbs faster than tolerated. */
  lemma ExactGrowthIsJudgedByItsSlope(ys: seq<real>, a: real, b: real)
    requires |ys| >= 2 && OnLine(ys, a, b)
    ensures Regression(ys).slope == a && Regression(ys).intercept == Num(b)
    ensures LeakSuspected(ys) <==> a * 1024.0 > MAX_SLOPE_KB_PER_ROUND
  {
    hide Regression;
    NoResidualsMeansOnLine(ys, a, b);
    FitIsTheMinimum(ys, a, b);
    RSquaredIsAFraction(ys);
    var mean := Sum(ys) / |ys| as real;
    if a != 0.0 && Residuals(ys, 0.0, mean) == 0.0 {
      FitIsTheMinimum(ys, 0.0, mean);
    }
  }
}
