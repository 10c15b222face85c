/** What the fit is for: its line is the one with the least squared error, and its median stands in the middle. */
module LeastSquares {
  import opened LineFit

  // ---- The squared error ----

  function Residual(x: real, y: real, a: real, b: real): real {
    y - (a + b * x)
  }

  function Squared(r: real): (s: real)
    ensures s >= 0.0
  {
    r * r
  }

  /** The squared error of the line `a + b x` over all points. */
  function SquaredError(xs: seq<real>, ys: seq<real>, a: real, b: real): real
    requires |xs| == |ys|
  {
    if xs == [] then 0.0
    else
      var n := |xs| - 1;
      SquaredError(xs[..n], ys[..n], a, b) + Squared(Residual(xs[n], ys[n], a, b))
  }

  /** The sum of the residuals, and of the residuals times their timestamps. */
  function ErrorSum(n: real, sx: real, sy: real, a: real, b: real): real {
    sy - n * a - b * sx
  }

  function ErrorDot(sx: real, sxx: real, sxy: real, a: real, b: real): real {
    sxy - a * sx - b * sxx
  }

  /** The sum of `(u + v x)²`. */
  function Shift(xs: seq<real>, u: real, v: real): (s: real)
    ensures s >= 0.0
  {
    if xs == [] then 0.0 else Shift(xs[..|xs| - 1], u, v) + Squared(u + Times(v, xs[|xs| - 1]))
  }

  function Twice(u: real, e: real): real {
    2.0 * u * e
  }

  lemma TwiceAdd(u: real, e: real, r: real)
    ensures Twice(u, e + r) == Twice(u, e) + Twice(u, r)
  {
  }

  lemma PointMoves(x: real, y: real, a: real, b: real, u: real, v: real)
    ensures var r := Residual(x, y, a, b);
            Squared(Residual(x, y, a + u, b + v))
              == Squared(r) - Twice(u, r) - Twice(v, Times(r, x)) + Squared(u + Times(v, x))
  {
    var r, t := Residual(x, y, a, b), u + v * x;
    assert Residual(x, y, a + u, b + v) == r - t by { assert (b + v) * x == b * x + v * x; }
    assert (r - t) * (r - t) == r * r - 2.0 * (r * t) + t * t;
    assert r * t == u * r + v * (r * x);
  }

  lemma SumsMove(n: real, sx: real, sy: real, sxx: real, sxy: real, x: real, y: real, a: real, b: real)
    ensures ErrorSum(n + 1.0, sx + x, sy + y, a, b) == ErrorSum(n, sx, sy, a, b) + Residual(x, y, a, b)
    ensures ErrorDot(sx + x, sxx + Times(x, x), sxy + Times(x, y), a, b)
         == ErrorDot(sx, sxx, sxy, a, b) + Times(Residual(x, y, a, b), x)
  {
    assert b * (sx + x) == b * sx + b * x && (n + 1.0) * a == n * a + a;
    assert a * (sx + x) == a * sx + a * x && b * (sxx + x * x) == b * sxx + b * (x * x);
    assert Residual(x, y, a, b) * x == x * y - a * x - b * (x * x);
  }

  /** The error of a moved line, from the error and the residual sums of the line it was moved from. */
  lemma {:induction false} LineMoves(xs: seq<real>, ys: seq<real>, a: real, b: real, u: real, v: real)
    requires |xs| == |ys|
    ensures SquaredError(xs, ys, a + u, b + v)
         == SquaredError(xs, ys, a, b)
            - Twice(u, ErrorSum(|xs| as real, Sum(xs), Sum(ys), a, b))
            - Twice(v, ErrorDot(Sum(xs), Dot(xs, xs), Dot(xs, ys), a, b)) + Shift(xs, u, v)
  {
    hide ErrorSum, ErrorDot, Residual, Squared, Dot, Sum, Times, Twice;
    if xs == [] {
      NoPoints(a, b, u, v);
      NoSums(xs, ys);
    } else {
      var n := |xs| - 1;
      var x, y, fx, fy := xs[n], ys[n], xs[..n], ys[..n];
      var r := Residual(x, y, a, b);
      LineMoves(fx, fy, a, b, u, v);
      PointMoves(x, y, a, b, u, v);
      SumsMove(n as real, Sum(fx), Sum(fy), Dot(fx, fx), Dot(fx, fy), x, y, a, b);
      assert |xs| as real == n as real + 1.0;
      LastDot(xs, ys);
      TwiceAdd(u, ErrorSum(n as real, Sum(fx), Sum(fy), a, b), r);
      TwiceAdd(v, ErrorDot(Sum(fx), Dot(fx, fx), Dot(fx, fy), a, b), Times(r, x));
    }
  }

  lemma NoSums(xs: seq<real>, ys: seq<real>)
    requires xs == [] && ys == []
    ensures Sum(xs) == 0.0 && Sum(ys) == 0.0 && Dot(xs, xs) == 0.0 && Dot(xs, ys) == 0.0
  {
  }

  lemma LastDot(xs: seq<real>, ys: seq<real>)
    requires |xs| == |ys| > 0
    ensures var n := |xs| - 1;
            && Dot(xs, xs) == Dot(xs[..n], xs[..n]) + Times(xs[n], xs[n])
            && Dot(xs, ys) == Dot(xs[..n], ys[..n]) + Times(xs[n], ys[n])
            && Sum(xs) == Sum(xs[..n]) + xs[n] && Sum(ys) == Sum(ys[..n]) + ys[n]
  {
    hide Times;
  }

  lemma NoPoints(a: real, b: real, u: real, v: real)
    ensures ErrorSum(0.0, 0.0, 0.0, a, b) == 0.0 && ErrorDot(0.0, 0.0, 0.0, a, b) == 0.0
    ensures Twice(u, 0.0) == 0.0 && Twice(v, 0.0) == 0.0
  {
  }

  // ---- The fitted line is the best one ----

  /** At the fitted line the residuals, and the residuals weighted by time, add up to nothing. */
  lemma NormalEquations(n: real, sx: real, sy: real, sxx: real, sxy: real)
    requires n > 0.0 && Cross(n, sx, sx, sxx) != 0.0
    ensures var b := Cross(n, sx, sy, sxy) / Cross(n, sx, sx, sxx);
            var a := Intercept(n, sx, sy, b);
            ErrorSum(n, sx, sy, a, b) == 0.0 && ErrorDot(sx, sxx, sxy, a, b) == 0.0
  {
    var d, c := Cross(n, sx, sx, sxx), Cross(n, sx, sy, sxy);
    var b := c / d;
    var a := Intercept(n, sx, sy, b);
    assert b * d == c;
    assert n * a == sy - b * sx;
    DotTimes(n, sx, sy, sxx, sxy, a, b);
    NoFactor(n, ErrorDot(sx, sxx, sxy, a, b));
  }

  lemma DotTimes(n: real, sx: real, sy: real, sxx: real, sxy: real, a: real, b: real)
    requires n * a == sy - b * sx && b * Cross(n, sx, sx, sxx) == Cross(n, sx, sy, sxy)
    ensures n * ErrorDot(sx, sxx, sxy, a, b) == 0.0
  {
    assert n * (sxy - a * sx - b * sxx) == n * sxy - (n * a) * sx - b * (n * sxx);
    assert (sy - b * sx) * sx == sx * sy - b * (sx * sx);
    assert b * (n * sxx - sx * sx) == b * (n * sxx) - b * (sx * sx);
  }

  lemma NoFactor(n: real, e: real)
    requires n > 0.0 && n * e == 0.0
    ensures e == 0.0
  {
  }

  /** No other line comes as close to the points: slope and intercept of the fit have the least squared error. */
  lemma FitIsLeastSquares(xs: seq<real>, ys: seq<real>, a: real, b: real)
    requires |xs| == |ys| > 0 && Spread(xs) != 0.0
    ensures var slope := Slope(xs, ys);
            var start := Intercept(|xs| as real, Sum(xs), Sum(ys), slope);
            SquaredError(xs, ys, start, slope) <= SquaredError(xs, ys, a, b)
  {
    var n := |xs| as real;
    var slope := Slope(xs, ys);
    var start := Intercept(n, Sum(xs), Sum(ys), slope);
    NormalEquations(n, Sum(xs), Sum(ys), Dot(xs, xs), Dot(xs, ys));
    NoPoints(a, b, a - start, b - slope);
    LineMoves(xs, ys, start, slope, a - start, b - slope);
    assert start + (a - start) == a && slope + (b - slope) == b;
  }

  // ---- The median ----

  /** At least half of the values are at most the median, and at least half of them are at least it. */
  lemma MiddleSplits(sorted: seq<real>)
    requires sorted != [] && Ascending(sorted)
    ensures forall i | 0 <= i <= (|sorted| - 1) / 2 :: sorted[i] <= Middle(sorted)
    ensures forall i | |sorted| / 2 <= i < |sorted| :: Middle(sorted) <= sorted[i]
  {
  }

  /** Values that lie symmetrically around a centre have it as their median. */
  lemma MiddleOfSymmetric(sorted: seq<real>, centre: real)
    requires sorted != []
    requires forall i | 0 <= i < |sorted| :: sorted[i] - centre == centre - sorted[|sorted| - 1 - i]
    ensures Middle(sorted) == centre
  {
    var n := |sorted|;
    assert sorted[n / 2] - centre == centre - sorted[n - 1 - n / 2];
  }
}
