/**
 The least-squares fit of the drift estimator, over reals: sums, slope, one rejection round by median absolute deviation
 and a refit. The residuals are sorted by the median computation before they are matched with the points again.
 */
module LineFit {
  import opened Prelude

  const TINY: real := 0.000000001

  // ---- Sums and the slope they give ----

  function Sum(v: seq<real>): real {
    if v == [] then 0.0 else Sum(v[..|v| - 1]) + v[|v| - 1]
  }

  function Dot(v: seq<real>, w: seq<real>): real
    requires |v| == |w|
  {
    if v == [] then 0.0 else Dot(v[..|v| - 1], w[..|w| - 1]) + Times(v[|v| - 1], w[|w| - 1])
  }

  function Times(a: real, b: real): real {
    a * b
  }

  /** `n Σvw - Σv Σw`, from the sums. */
  function Cross(n: real, sv: real, sw: real, svw: real): real {
    n * svw - sv * sw
  }

  /** `n Σx² - (Σx)²`, the denominator of the slope. */
  function Spread(xs: seq<real>): real {
    Cross(|xs| as real, Sum(xs), Sum(xs), Dot(xs, xs))
  }

  function Slope(xs: seq<real>, ys: seq<real>): real
    requires |xs| == |ys| && Spread(xs) != 0.0
  {
    Cross(|xs| as real, Sum(xs), Sum(ys), Dot(xs, ys)) / Spread(xs)
  }

  /** Where the line of slope `b` through the centre meets zero. */
  function Intercept(n: real, sx: real, sy: real, b: real): real
    requires n != 0.0
  {
    (sy - b * sx) / n
  }

  function Abs(r: real): real {
    if r < 0.0 then -r else r
  }

  // ---- Sorting and the median ----

  function Insert(r: real, v: seq<real>): (w: seq<real>)
    ensures |w| == |v| + 1
  {
    if v == [] then [r] else if r <= v[0] then [r] + v else [v[0]] + Insert(r, v[1..])
  }

  function Sort(v: seq<real>): (w: seq<real>)
    ensures |w| == |v|
  {
    if v == [] then [] else Insert(v[|v| - 1], Sort(v[..|v| - 1]))
  }

  predicate Ascending(v: seq<real>) {
    forall i, j :: 0 <= i < j < |v| ==> v[i] <= v[j]
  }

  /** Every value is at least `lo`. */
  predicate From(lo: real, v: seq<real>) {
    forall i :: 0 <= i < |v| ==> lo <= v[i]
  }

  lemma AscendingCons(r: real, v: seq<real>)
    requires From(r, v) && Ascending(v)
    ensures Ascending([r] + v)
  {
  }

  lemma {:induction false} InsertFrom(lo: real, r: real, v: seq<real>)
    requires lo <= r && From(lo, v)
    ensures From(lo, Insert(r, v))
  {
    if v != [] && r > v[0] { InsertFrom(lo, r, v[1..]); }
  }

  lemma {:induction false} InsertKeepsOrder(r: real, v: seq<real>)
    requires Ascending(v)
    ensures Ascending(Insert(r, v)) && multiset(Insert(r, v)) == multiset(v) + multiset{r}
  {
    if v == [] {
    } else if r <= v[0] {
      AscendingCons(r, v);
    } else {
      InsertKeepsOrder(r, v[1..]);
      InsertFrom(v[0], r, v[1..]);
      AscendingCons(v[0], Insert(r, v[1..]));
      assert v == [v[0]] + v[1..];
    }
  }

  /** Sorting yields the same values in ascending order. */
  lemma {:induction false} Sorts(v: seq<real>)
    ensures Ascending(Sort(v)) && multiset(Sort(v)) == multiset(v)
  {
    if v != [] {
      Sorts(v[..|v| - 1]);
      InsertKeepsOrder(v[|v| - 1], Sort(v[..|v| - 1]));
      assert v == v[..|v| - 1] + [v[|v| - 1]];
    }
  }

  /** The middle of sorted values, or the mean of the two middle ones. */
  function Middle(sorted: seq<real>): real {
    var n := |sorted|;
    if n == 0 then 0.0
    else if n % 2 == 1 then sorted[n / 2]
    else 0.5 * (sorted[n / 2 - 1] + sorted[n / 2])
  }

  /** Sorts `v` in place. */
  method Median(v: array<real>) returns (m: real)
    modifies v
    ensures v[..] == Sort(old(v[..])) && m == Middle(v[..])
  {
    if v.Length == 0 {
      return 0.0;
    }
    var n := v.Length;
    var sorted := Sort(v[..]);
    forall i | 0 <= i < n {
      v[i] := sorted[i];
    }
    if n % 2 == 1 {
      m := v[n / 2];
    } else {
      m := 0.5 * (v[n / 2 - 1] + v[n / 2]);
    }
  }

  // ---- The fit ----

  function At(a: real, b: real, x: real): real {
    a + b * x
  }

  function Residuals(xs: seq<real>, ys: seq<real>, a: real, b: real): (r: seq<real>)
    requires |xs| == |ys|
    ensures |r| == |xs|
  {
    seq(|xs|, i requires 0 <= i < |xs| => ys[i] - At(a, b, xs[i]))
  }

  function Deviations(resid: seq<real>, med: real): (d: seq<real>)
    ensures |d| == |resid|
  {
    seq(|resid|, i requires 0 <= i < |resid| => Abs(resid[i] - med))
  }

  /** The values whose position holds a residual within `limit` of `med`. */
  function Kept(v: seq<real>, resid: seq<real>, med: real, limit: real): seq<real>
    requires |v| == |resid|
  {
    if v == [] then []
    else
      var front := Kept(v[..|v| - 1], resid[..|v| - 1], med, limit);
      if Abs(resid[|v| - 1] - med) <= limit then front + [v[|v| - 1]] else front
  }

  lemma {:induction false} KeptTogether(v: seq<real>, w: seq<real>, resid: seq<real>, med: real, limit: real)
    requires |v| == |w| == |resid|
    ensures |Kept(v, resid, med, limit)| == |Kept(w, resid, med, limit)|
  {
    if v != [] { KeptTogether(v[..|v| - 1], w[..|v| - 1], resid[..|v| - 1], med, limit); }
  }

  /** How far from the median a sorted residual may lie. */
  function Limit(sorted: seq<real>): real {
    var mad := Middle(Sort(Deviations(sorted, Middle(sorted))));
    4.0 * (if mad <= 0.0 then TINY else mad)
  }

  /** The residuals of the first fit, point by point. */
  function PointResiduals(xs: seq<real>, ys: seq<real>): (resid: seq<real>)
    requires |xs| == |ys| && xs != [] && Spread(xs) != 0.0
    ensures |resid| == |xs|
  {
    var b := Slope(xs, ys);
    Residuals(xs, ys, Intercept(|xs| as real, Sum(xs), Sum(ys), b), b)
  }

  /** The same in ascending order, as they meet the points. */
  function FirstResiduals(xs: seq<real>, ys: seq<real>): (sorted: seq<real>)
    requires |xs| == |ys| && xs != [] && Spread(xs) != 0.0
    ensures |sorted| == |xs|
  {
    Sort(PointResiduals(xs, ys))
  }

  /** Fit, drop, refit; None when a denominator vanishes. */
  function Fit(xs: seq<real>, ys: seq<real>): Option<real>
    requires |xs| == |ys|
  {
    if |xs| < 2 || Abs(Spread(xs)) < TINY then None
    else
      var sorted := FirstResiduals(xs, ys);
      var xs2 := Kept(xs, sorted, Middle(sorted), Limit(sorted));
      var ys2 := Kept(ys, sorted, Middle(sorted), Limit(sorted));
      KeptTogether(xs, ys, sorted, Middle(sorted), Limit(sorted));
      if |xs2| < 2 || Abs(Spread(xs2)) < TINY then None else Some(Slope(xs2, ys2))
  }

  method Sums(xs: seq<real>, ys: seq<real>) returns (sx: real, sy: real, sxx: real, sxy: real)
    requires |xs| == |ys|
    ensures sx == Sum(xs) && sy == Sum(ys) && sxx == Dot(xs, xs) && sxy == Dot(xs, ys)
  {
    sx, sy, sxx, sxy := 0.0, 0.0, 0.0, 0.0;
    for i := 0 to |xs|
      invariant sx == Sum(xs[..i]) && sy == Sum(ys[..i])
      invariant sxx == Dot(xs[..i], xs[..i]) && sxy == Dot(xs[..i], ys[..i])
    {
      var x, y := xs[i], ys[i];
      assert xs[..i + 1][..i] == xs[..i] && ys[..i + 1][..i] == ys[..i];
      sx, sy, sxx, sxy := sx + x, sy + y, sxx + x * x, sxy + x * y;
    }
    assert xs[..|xs|] == xs && ys[..|ys|] == ys;
  }

  method FitSlope(xs: seq<real>, ys: seq<real>) returns (slope: Option<real>)
    requires |xs| == |ys|
    ensures slope == Fit(xs, ys)
  {
    hide Cross, Intercept;
    var n := |xs|;
    if n < 2 {
      return None;
    }
    var sx, sy, sxx, sxy := Sums(xs, ys);
    var denom := Cross(n as real, sx, sx, sxx);
    if Abs(denom) < TINY {
      return None;
    }
    var b := Cross(n as real, sx, sy, sxy) / denom;
    var a := Intercept(n as real, sx, sy, b);
    var xs2, ys2 := Survivors(xs, ys, a, b);
    var m := |xs2|;
    if m < 2 {
      return None;
    }
    var sx2, sy2, sxx2, sxy2 := Sums(xs2, ys2);
    var denom2 := Cross(m as real, sx2, sx2, sxx2);
    if Abs(denom2) < TINY {
      return None;
    }
    return Some(Cross(m as real, sx2, sy2, sxy2) / denom2);
  }

  /** The rejection round. `resid` is sorted in place before it is matched with the points. */
  method Survivors(xs: seq<real>, ys: seq<real>, a: real, b: real) returns (xs2: seq<real>, ys2: seq<real>)
    requires |xs| == |ys|
    ensures var sorted := Sort(Residuals(xs, ys, a, b));
            && xs2 == Kept(xs, sorted, Middle(sorted), Limit(sorted))
            && ys2 == Kept(ys, sorted, Middle(sorted), Limit(sorted))
            && |xs2| == |ys2|
  {
    hide At, Kept, Sort, Middle;
    var resid := new real[|xs|](i requires 0 <= i < |xs| => ys[i] - At(a, b, xs[i]));
    assert resid[..] == Residuals(xs, ys, a, b);
    var med := Median(resid);
    var mad := SpreadAround(resid[..], med);
    mad := if mad <= 0.0 then TINY else mad;
    xs2, ys2 := Zip(xs, ys, resid[..], med, 4.0 * mad);
  }

  /** The median of the absolute deviations. */
  method SpreadAround(resid: seq<real>, med: real) returns (mad: real)
    ensures mad == Middle(Sort(Deviations(resid, med)))
  {
    var absDev := new real[|resid|](i requires 0 <= i < |resid| => Abs(resid[i] - med));
    assert absDev[..] == Deviations(resid, med);
    mad := Median(absDev);
  }

  method Zip(xs: seq<real>, ys: seq<real>, resid: seq<real>, med: real, limit: real)
    returns (xs2: seq<real>, ys2: seq<real>)
    requires |xs| == |ys| == |resid|
    ensures xs2 == Kept(xs, resid, med, limit) && ys2 == Kept(ys, resid, med, limit) && |xs2| == |ys2|
  {
    xs2, ys2 := [], [];
    for i := 0 to |xs|
      invariant xs2 == Kept(xs[..i], resid[..i], med, limit) && ys2 == Kept(ys[..i], resid[..i], med, limit)
    {
      assert xs[..i + 1][..i] == xs[..i] && ys[..i + 1][..i] == ys[..i] && resid[..i + 1][..i] == resid[..i];
      if Abs(resid[i] - med) <= limit {
        xs2, ys2 := xs2 + [xs[i]], ys2 + [ys[i]];
      }
    }
    assert xs[..|xs|] == xs && ys[..|xs|] == ys && resid[..|xs|] == resid;
    KeptTogether(xs, ys, resid, med, limit);
  }

  // ---- The denominator ----

  /** `Σ (v - x)²` over all `v`. */
  function Gap(v: seq<real>, x: real): (g: real)
    ensures g >= 0.0
  {
    if v == [] then 0.0 else Gap(v[..|v| - 1], x) + Square(v[|v| - 1] - x)
  }

  function Square(r: real): (s: real)
    ensures s >= 0.0
    ensures s == r * r
  {
    r * r
  }

  /** The sum of the squared differences of all pairs. */
  function PairSpread(xs: seq<real>): (s: real)
    ensures s >= 0.0
  {
    if xs == [] then 0.0 else PairSpread(xs[..|xs| - 1]) + Gap(xs[..|xs| - 1], xs[|xs| - 1])
  }

  /** `Σ (v - x)²` from the sums over `v`. */
  function GapOf(n: real, s: real, q: real, x: real): real {
    q - 2.0 * x * s + n * (x * x)
  }

  lemma ZeroForms(a: real, b: real)
    ensures GapOf(0.0, 0.0, 0.0, a) == 0.0 && Cross(0.0, 0.0, 0.0, 0.0) == 0.0 && OnLineSum(0.0, 0.0, a, b) == 0.0
  {
  }

  lemma GapStep(n: real, s: real, q: real, x: real, last: real, n': real, s': real, q': real)
    requires n' == n + 1.0 && s' == s + last && q' == q + Times(last, last)
    ensures GapOf(n', s', q', x) == GapOf(n, s, q, x) + Square(last - x)
  {
    assert GapOf(n + 1.0, s + last, q + last * last, x) == GapOf(n, s, q, x) + Square(last - x);
  }

  lemma {:induction false} GapExpands(v: seq<real>, x: real)
    ensures Gap(v, x) == GapOf(|v| as real, Sum(v), Dot(v, v), x)
  {
    hide GapOf, Square, Times;
    if v != [] {
      var front, last := v[..|v| - 1], v[|v| - 1];
      GapExpands(front, x);
      GapStep(|front| as real, Sum(front), Dot(front, front), x, last, |v| as real, Sum(v), Dot(v, v));
    } else {
      ZeroForms(x, x);
    }
  }

  lemma CrossStep(n: real, s: real, q: real, x: real, n': real, s': real, q': real)
    requires n' == n + 1.0 && s' == s + x && q' == q + Times(x, x)
    ensures Cross(n', s', s', q') == Cross(n, s, s, q) + GapOf(n, s, q, x)
  {
    assert Cross(n + 1.0, s + x, s + x, q + x * x) == Cross(n, s, s, q) + GapOf(n, s, q, x);
  }

  /** `n Σx² - (Σx)² = Σ (xi - xj)²` over all pairs. */
  lemma {:induction false} SpreadOfPairs(xs: seq<real>)
    ensures Spread(xs) == PairSpread(xs)
  {
    hide Cross, GapOf, Times;
    if xs != [] {
      var front, x := xs[..|xs| - 1], xs[|xs| - 1];
      SpreadOfPairs(front);
      GapExpands(front, x);
      CrossStep(|front| as real, Sum(front), Dot(front, front), x, |xs| as real, Sum(xs), Dot(xs, xs));
    } else {
      ZeroForms(0.0, 0.0);
    }
  }

  predicate Integral(v: seq<real>) {
    forall i :: 0 <= i < |v| ==> v[i] == v[i].Floor as real
  }

  predicate AllEqual(v: seq<real>) {
    forall i :: 0 <= i < |v| ==> v[i] == v[0]
  }

  lemma {:induction false} EqualSpread(xs: seq<real>, x: real)
    requires forall i :: 0 <= i < |xs| ==> xs[i] == x
    ensures Gap(xs, x) == 0.0 && PairSpread(xs) == 0.0
  {
    if xs != [] { EqualSpread(xs[..|xs| - 1], x); }
  }

  lemma {:induction false} GapAtLeast(v: seq<real>, x: real, i: nat)
    requires i < |v|
    ensures Gap(v, x) >= Square(v[i] - x)
  {
    if i < |v| - 1 { GapAtLeast(v[..|v| - 1], x, i); }
  }

  lemma {:induction false} PairAtLeast(xs: seq<real>, i: nat, j: nat)
    requires i < j < |xs|
    ensures PairSpread(xs) >= Square(xs[i] - xs[j])
  {
    if j < |xs| - 1 { PairAtLeast(xs[..|xs| - 1], i, j); } else { GapAtLeast(xs[..j], xs[j], i); }
  }

  lemma UnitSquare(d: real)
    requires d >= 1.0 || d <= -1.0
    ensures Square(d) >= 1.0
  {
    if d >= 1.0 { assert (d - 1.0) * (d + 1.0) >= 0.0; } else { assert (-d - 1.0) * (-d + 1.0) >= 0.0; }
  }

  lemma IntegersApart(p: real, q: real)
    requires p == p.Floor as real && q == q.Floor as real && p != q
    ensures Square(p - q) >= 1.0
  {
    hide Square;
    var d := p.Floor - q.Floor;
    assert p - q == d as real && d != 0;
    UnitSquare(p - q);
  }

  lemma DifferentSpread(xs: seq<real>, j: nat)
    requires Integral(xs) && j < |xs| && xs[j] != xs[0]
    ensures PairSpread(xs) >= 1.0
  {
    hide Square, PairSpread;
    PairAtLeast(xs, 0, j);
    IntegersApart(xs[0], xs[j]);
  }

  /** For integer abscissas the denominator is zero if all are equal, and at least one otherwise. */
  lemma SpreadDecides(xs: seq<real>)
    requires Integral(xs)
    ensures Abs(Spread(xs)) < TINY <==> AllEqual(xs)
    ensures !AllEqual(xs) ==> Spread(xs) >= 1.0
  {
    hide Spread, PairSpread;
    SpreadOfPairs(xs);
    if AllEqual(xs) {
      EqualSpread(xs, if xs == [] then 0.0 else xs[0]);
    } else {
      var j :| 0 <= j < |xs| && xs[j] != xs[0];
      DifferentSpread(xs, j);
    }
  }

  // ---- Exactness on a line ----

  predicate OnLine(xs: seq<real>, ys: seq<real>, a: real, b: real) {
    |xs| == |ys| && forall i :: 0 <= i < |xs| ==> ys[i] == At(a, b, xs[i])
  }

  /** `Σ (a + b x)` over `n` values, from their sum; also `Σ x (a + b x)`, from their sum and their squares. */
  function OnLineSum(n: real, s: real, a: real, b: real): real {
    n * a + b * s
  }

  lemma OnLineSumStep(n: real, s: real, a: real, b: real, x: real, y: real, n': real, s': real)
    requires n' == n + 1.0 && s' == s + x && y == At(a, b, x)
    ensures OnLineSum(n', s', a, b) == OnLineSum(n, s, a, b) + y
  {
    assert OnLineSum(n + 1.0, s + x, a, b) == OnLineSum(n, s, a, b) + (a + b * x);
  }

  lemma OnLineDotStep(s: real, q: real, a: real, b: real, x: real, y: real, s': real, q': real)
    requires s' == s + x && q' == q + Times(x, x) && y == At(a, b, x)
    ensures OnLineSum(s', q', a, b) == OnLineSum(s, q, a, b) + Times(x, y)
  {
    assert OnLineSum(s + x, q + x * x, a, b) == OnLineSum(s, q, a, b) + x * (a + b * x);
  }

  lemma OnLineFront(xs: seq<real>, ys: seq<real>, a: real, b: real)
    requires OnLine(xs, ys, a, b) && xs != []
    ensures OnLine(xs[..|xs| - 1], ys[..|ys| - 1], a, b) && ys[|ys| - 1] == At(a, b, xs[|xs| - 1])
  {
    hide At;
  }

  lemma {:induction false} LineSum(xs: seq<real>, ys: seq<real>, a: real, b: real)
    requires |xs| == |ys| && OnLine(xs, ys, a, b)
    ensures Sum(ys) == OnLineSum(|xs| as real, Sum(xs), a, b)
  {
    hide OnLineSum, OnLine, At, Times, Dot;
    if xs == [] {
      assert ys == [];
      ZeroForms(a, b);
    } else {
      var front, x, y := xs[..|xs| - 1], xs[|xs| - 1], ys[|ys| - 1];
      OnLineFront(xs, ys, a, b);
      LineSum(front, ys[..|ys| - 1], a, b);
      OnLineSumStep(|front| as real, Sum(front), a, b, x, y, |xs| as real, Sum(xs));
    }
  }

  lemma {:induction false} LineDot(xs: seq<real>, ys: seq<real>, a: real, b: real)
    requires |xs| == |ys| && OnLine(xs, ys, a, b)
    ensures Dot(xs, ys) == OnLineSum(Sum(xs), Dot(xs, xs), a, b)
  {
    hide OnLineSum, OnLine, At, Times;
    if xs == [] {
      assert ys == [];
      ZeroForms(a, b);
    } else {
      var front, x, y := xs[..|xs| - 1], xs[|xs| - 1], ys[|ys| - 1];
      OnLineFront(xs, ys, a, b);
      LineDot(front, ys[..|ys| - 1], a, b);
      OnLineDotStep(Sum(front), Dot(front, front), a, b, x, y, Sum(xs), Dot(xs, xs));
    }
  }

  /** Least squares recovers the line that all points lie on. */
  lemma LineSlope(xs: seq<real>, ys: seq<real>, a: real, b: real)
    requires OnLine(xs, ys, a, b) && xs != [] && Spread(xs) != 0.0
    ensures Slope(xs, ys) == b && Intercept(|xs| as real, Sum(xs), Sum(ys), b) == a
  {
    hide Cross, OnLineSum, Intercept;
    LineSum(xs, ys, a, b);
    LineDot(xs, ys, a, b);
    LineAlgebra(|xs| as real, Sum(xs), Dot(xs, xs), a, b);
  }

  lemma LineAlgebra(n: real, s: real, q: real, a: real, b: real)
    requires n != 0.0 && Cross(n, s, s, q) != 0.0
    ensures Cross(n, s, OnLineSum(n, s, a, b), OnLineSum(s, q, a, b)) / Cross(n, s, s, q) == b
    ensures Intercept(n, s, OnLineSum(n, s, a, b), b) == a
  {
    assert Cross(n, s, OnLineSum(n, s, a, b), OnLineSum(s, q, a, b)) == b * Cross(n, s, s, q);
    Cancel(b, Cross(n, s, s, q));
    Cancel(a, n);
  }

  lemma Cancel(a: real, d: real)
    requires d != 0.0
    ensures a * d / d == a
  {
  }

  predicate AllZero(v: seq<real>) {
    forall i :: 0 <= i < |v| ==> v[i] == 0.0
  }

  lemma {:induction false} InsertZero(v: seq<real>)
    requires AllZero(v)
    ensures AllZero(Insert(0.0, v))
  {
  }

  lemma {:induction false} SortZeros(v: seq<real>)
    requires AllZero(v)
    ensures AllZero(Sort(v))
  {
    if v != [] {
      SortZeros(v[..|v| - 1]);
      InsertZero(Sort(v[..|v| - 1]));
    }
  }

  lemma {:induction false} KeepAll(v: seq<real>, resid: seq<real>, limit: real)
    requires |v| == |resid| && AllZero(resid) && limit >= 0.0
    ensures Kept(v, resid, 0.0, limit) == v
  {
    if v != [] { KeepAll(v[..|v| - 1], resid[..|v| - 1], limit); }
  }

  lemma ZeroResiduals(sorted: seq<real>)
    requires AllZero(sorted)
    ensures Middle(sorted) == 0.0 && Limit(sorted) == 4.0 * TINY
  {
    SortZeros(Deviations(sorted, 0.0));
  }

  /**
   Arrivals exactly on a line, at integer timestamps: the slope of the line comes back, through rejection and refit, if
   and only if the timestamps are not all equal; otherwise there is no estimate.
   */
  lemma ExactOnLine(xs: seq<real>, ys: seq<real>, a: real, b: real)
    requires OnLine(xs, ys, a, b) && Integral(xs)
    ensures Fit(xs, ys) == if AllEqual(xs) then None else Some(b)
  {
    hide Cross, Intercept, Kept;
    SpreadDecides(xs);
    if !AllEqual(xs) {
      assert |xs| >= 2;
      LineSlope(xs, ys, a, b);
      var resid := Residuals(xs, ys, a, b);
      assert AllZero(resid);
      SortZeros(resid);
      var sorted := FirstResiduals(xs, ys);
      assert sorted == Sort(resid);
      ZeroResiduals(sorted);
      KeepAll(xs, sorted, 4.0 * TINY);
      KeepAll(ys, sorted, 4.0 * TINY);
    }
  }

  // ---- What the rejection round keeps ----

  type Test = real -> bool

  function AtMost(limit: real): Test {
    r => r <= limit
  }

  function LessThan(limit: real): Test {
    r => r < limit
  }

  function MoreThan(limit: real): Test {
    r => r > limit
  }

  /** How many values pass the test. */
  function Count(v: seq<real>, p: Test): (n: nat)
    ensures n <= |v|
  {
    if v == [] then 0 else Count(v[..|v| - 1], p) + (if p(v[|v| - 1]) then 1 else 0)
  }

  lemma {:induction false} KeptCount(v: seq<real>, resid: seq<real>, med: real, limit: real)
    requires |v| == |resid|
    ensures |Kept(v, resid, med, limit)| == Count(Deviations(resid, med), AtMost(limit))
  {
    if v != [] {
      KeptCount(v[..|v| - 1], resid[..|v| - 1], med, limit);
      assert Deviations(resid, med)[..|v| - 1] == Deviations(resid[..|v| - 1], med);
    }
  }

  lemma {:induction false} CountCons(r: real, v: seq<real>, p: Test)
    ensures Count([r] + v, p) == Count(v, p) + (if p(r) then 1 else 0)
  {
    if v == [] {
      assert [r] + v == [r] && [r][..0] == [];
    } else {
      CountCons(r, v[..|v| - 1], p);
      assert ([r] + v)[..|v|] == [r] + v[..|v| - 1];
    }
  }

  lemma {:induction false} CountInsert(r: real, v: seq<real>, p: Test)
    ensures Count(Insert(r, v), p) == Count(v, p) + (if p(r) then 1 else 0)
  {
    if v == [] || r <= v[0] {
      CountCons(r, v, p);
      assert v == [] ==> [r] + v == [r];
    } else {
      CountInsert(r, v[1..], p);
      CountCons(v[0], Insert(r, v[1..]), p);
      CountCons(v[0], v[1..], p);
      assert v == [v[0]] + v[1..];
    }
  }

  lemma {:induction false} CountSort(v: seq<real>, p: Test)
    ensures Count(Sort(v), p) == Count(v, p)
  {
    if v != [] {
      CountSort(v[..|v| - 1], p);
      CountInsert(v[|v| - 1], Sort(v[..|v| - 1]), p);
    }
  }

  lemma {:induction false} CountFront(v: seq<real>, h: nat, p: Test)
    requires h < |v| && forall i :: 0 <= i <= h ==> p(v[i])
    ensures Count(v, p) >= h + 1
  {
    if h < |v| - 1 {
      CountFront(v[..|v| - 1], h, p);
    } else if h > 0 {
      CountFront(v[..h], h - 1, p);
    }
  }

  /** The limit admits the smaller half of the deviations, and always two of them. */
  lemma LimitAdmits(sorted: seq<real>, d: seq<real>, h: nat)
    requires |sorted| >= 2 && d == Sort(Deviations(sorted, Middle(sorted))) && Ascending(d)
    requires forall i :: 0 <= i < |d| ==> d[i] >= 0.0
    requires h == Max(1, (|d| - 1) / 2)
    ensures d[h] <= Limit(sorted)
  {
    hide Sort, Deviations;
    var n := |d|;
    var mad := Middle(d);
    assert d[0] <= d[1];
    if n % 2 == 1 {
      assert mad == d[n / 2] && h == n / 2;
    } else {
      assert mad == 0.5 * (d[n / 2 - 1] + d[n / 2]) && d[n / 2 - 1] <= d[n / 2];
      assert n > 2 ==> h == n / 2 - 1;
    }
  }

  lemma {:induction false} InsertNonnegative(r: real, v: seq<real>)
    requires r >= 0.0 && From(0.0, v)
    ensures From(0.0, Insert(r, v))
  {
    InsertFrom(0.0, r, v);
  }

  lemma {:induction false} SortNonnegative(v: seq<real>)
    requires From(0.0, v)
    ensures From(0.0, Sort(v))
  {
    if v != [] {
      SortNonnegative(v[..|v| - 1]);
      InsertNonnegative(v[|v| - 1], Sort(v[..|v| - 1]));
    }
  }

  /** At least half of the points survive, and never fewer than two: the guard on too few survivors cannot fire. */
  lemma MajoritySurvives(v: seq<real>, sorted: seq<real>)
    requires |v| == |sorted| >= 2
    ensures |Kept(v, sorted, Middle(sorted), Limit(sorted))| >= Max(2, (|v| + 1) / 2)
  {
    hide Kept, Limit, Sort, Count;
    var devs := Deviations(sorted, Middle(sorted));
    var d, h := Sort(devs), Max(1, (|v| - 1) / 2);
    KeptCount(v, sorted, Middle(sorted), Limit(sorted));
    SortNonnegative(devs);
    Sorts(devs);
    CountSort(devs, AtMost(Limit(sorted)));
    LimitAdmits(sorted, d, h);
    forall i | 0 <= i <= h ensures d[i] <= Limit(sorted) { assert i < h ==> d[i] <= d[h]; }
    CountFront(d, h, AtMost(Limit(sorted)));
  }

  predicate InBand(r: real, med: real, limit: real) {
    Abs(r - med) <= limit
  }

  lemma BetweenInBand(low: real, r: real, high: real, med: real, limit: real)
    requires low <= r <= high && InBand(low, med, limit) && InBand(high, med, limit)
    ensures InBand(r, med, limit)
  {
  }

  /** In ascending order, the residuals within the limit are one stretch. */
  lemma {:induction false} Band(sorted: seq<real>, med: real, limit: real) returns (lo: nat, hi: nat)
    requires Ascending(sorted)
    ensures lo <= hi <= |sorted|
    ensures forall k | 0 <= k < |sorted| :: InBand(sorted[k], med, limit) <==> lo <= k < hi
  {
    if sorted == [] {
      return 0, 0;
    }
    var n := |sorted| - 1;
    lo, hi := Band(sorted[..n], med, limit);
    assert forall k | 0 <= k < n :: sorted[..n][k] == sorted[k];
    if InBand(sorted[n], med, limit) {
      forall k | lo <= k < n && lo < hi ensures InBand(sorted[k], med, limit) {
        BetweenInBand(sorted[lo], sorted[k], sorted[n], med, limit);
      }
      lo, hi := if lo == hi then n else lo, n + 1;
    }
  }

  lemma {:induction false} KeptBand(v: seq<real>, resid: seq<real>, med: real, limit: real, lo: nat, hi: nat)
    requires |v| == |resid| && lo <= hi <= |v|
    requires forall k | 0 <= k < |v| :: InBand(resid[k], med, limit) <==> lo <= k < hi
    ensures Kept(v, resid, med, limit) == v[lo..hi]
  {
    if v != [] {
      var n := |v| - 1;
      assert forall k | 0 <= k < n :: resid[..n][k] == resid[k];
      if lo <= n < hi {
        KeptBand(v[..n], resid[..n], med, limit, lo, n);
        assert v[lo..hi] == v[..n][lo..n] + [v[n]];
      } else {
        var top := Min(hi, n);
        KeptBand(v[..n], resid[..n], med, limit, Min(lo, top), top);
        assert InBand(resid[n], med, limit) <==> false;
        assert v[lo..hi] == v[..n][Min(lo, top)..top];
      }
    }
  }

  /**
   Because the residuals are sorted before they meet the points again, the survivors are always a contiguous stretch of
   the window, of at least half of it and at least two points, wherever the outliers are.
   */
  lemma SurvivorsAreContiguous(xs: seq<real>, ys: seq<real>) returns (lo: nat, hi: nat)
    requires |xs| == |ys| >= 2 && Spread(xs) != 0.0
    ensures lo + Max(2, (|xs| + 1) / 2) <= hi <= |xs|
    ensures var sorted := FirstResiduals(xs, ys);
            && Kept(xs, sorted, Middle(sorted), Limit(sorted)) == xs[lo..hi]
            && Kept(ys, sorted, Middle(sorted), Limit(sorted)) == ys[lo..hi]
  {
    hide Kept, Limit, Middle, Sort, Cross, Intercept, At;
    var sorted := FirstResiduals(xs, ys);
    Sorts(PointResiduals(xs, ys));
    lo, hi := Band(sorted, Middle(sorted), Limit(sorted));
    KeptBand(xs, sorted, Middle(sorted), Limit(sorted), lo, hi);
    KeptBand(ys, sorted, Middle(sorted), Limit(sorted), lo, hi);
    MajoritySurvives(xs, sorted);
  }

  // ---- When the points near the line are kept ----

  /** In ascending order, what passes a test that lower values pass first is a prefix. */
  lemma {:induction false} CountIsPrefix(v: seq<real>, p: Test)
    requires Ascending(v) && forall r: real, s: real | r <= s && p(s) :: p(r)
    ensures forall k | 0 <= k < |v| :: p(v[k]) <==> k < Count(v, p)
  {
    if v != [] {
      var n := |v| - 1;
      CountIsPrefix(v[..n], p);
      forall k | 0 <= k <= n ensures p(v[k]) <==> k < Count(v, p) {
        assert v[k] <= v[n];
        assert k < n ==> v[..n][k] == v[k];
        assert p(v[n]) && n > 0 ==> p(v[..n][n - 1]);
      }
    }
  }

  lemma {:induction false} CountComplement(v: seq<real>, limit: real)
    ensures Count(v, AtMost(limit)) + Count(v, MoreThan(limit)) == |v|
  {
    if v != [] { CountComplement(v[..|v| - 1], limit); }
  }

  /** Sorted, the values in the band stand behind those below it and before those above it. */
  lemma BandExactly(resid: seq<real>, med: real, limit: real)
    ensures var below, above := Count(resid, LessThan(med - limit)), Count(resid, MoreThan(med + limit));
            forall k | 0 <= k < |resid| :: InBand(Sort(resid)[k], med, limit) <==> below <= k < |resid| - above
  {
    var sorted := Sort(resid);
    Sorts(resid);
    CountSort(resid, LessThan(med - limit));
    CountSort(resid, AtMost(med + limit));
    CountComplement(resid, med + limit);
    CountIsPrefix(sorted, LessThan(med - limit));
    CountIsPrefix(sorted, AtMost(med + limit));
    forall k | 0 <= k < |sorted|
      ensures InBand(sorted[k], med, limit) <==>
                !LessThan(med - limit)(sorted[k]) && AtMost(med + limit)(sorted[k])
    {
    }
  }

  /** The points kept are those whose own residual is in the band. */
  ghost predicate KeepsNear(resid: seq<real>, med: real, limit: real) {
    forall k | 0 <= k < |resid| :: InBand(Sort(resid)[k], med, limit) <==> InBand(resid[k], med, limit)
  }

  /** The residuals in the band stand where sorting would put them. */
  ghost predicate BandInPlace(resid: seq<real>, med: real, limit: real) {
    var below, above := Count(resid, LessThan(med - limit)), Count(resid, MoreThan(med + limit));
    forall k | 0 <= k < |resid| :: InBand(resid[k], med, limit) <==> below <= k < |resid| - above
  }

  /**
   Rejection keeps exactly the points near the first line if and only if these come behind as many points as lie below
   the band and before as many as lie above it.
   */
  lemma NearPointsKeptExactly(xs: seq<real>, ys: seq<real>)
    requires |xs| == |ys| >= 2 && Spread(xs) != 0.0
    ensures var resid, sorted := PointResiduals(xs, ys), FirstResiduals(xs, ys);
            var med, limit := Middle(sorted), Limit(sorted);
            && (KeepsNear(resid, med, limit) <==> BandInPlace(resid, med, limit))
            && (KeepsNear(resid, med, limit) ==>
                  && Kept(xs, sorted, med, limit) == Kept(xs, resid, med, limit)
                  && Kept(ys, sorted, med, limit) == Kept(ys, resid, med, limit))
  {
    hide PointResiduals, Middle, Limit, Sort, Count, Kept, InBand;
    var resid, sorted := PointResiduals(xs, ys), FirstResiduals(xs, ys);
    var med, limit := Middle(sorted), Limit(sorted);
    BandExactly(resid, med, limit);
    if KeepsNear(resid, med, limit) {
      SameKept(xs, sorted, resid, med, limit);
      SameKept(ys, sorted, resid, med, limit);
    }
  }

  lemma {:induction false} SameKept(v: seq<real>, p: seq<real>, q: seq<real>, med: real, limit: real)
    requires |v| == |p| == |q|
    requires forall k | 0 <= k < |v| :: InBand(p[k], med, limit) <==> InBand(q[k], med, limit)
    ensures Kept(v, p, med, limit) == Kept(v, q, med, limit)
  {
    if v != [] {
      var n := |v| - 1;
      forall k | 0 <= k < n ensures InBand(p[..n][k], med, limit) <==> InBand(q[..n][k], med, limit) {
        assert p[..n][k] == p[k] && q[..n][k] == q[k];
      }
      SameKept(v[..n], p[..n], q[..n], med, limit);
      assert InBand(p[n], med, limit) <==> InBand(q[n], med, limit);
    }
  }

  /** Nothing is dropped if and only if no point is out of the band. */
  lemma AllKeptExactly(xs: seq<real>, ys: seq<real>)
    requires |xs| == |ys| >= 2 && Spread(xs) != 0.0
    ensures var resid, sorted := PointResiduals(xs, ys), FirstResiduals(xs, ys);
            var med, limit := Middle(sorted), Limit(sorted);
            Kept(xs, sorted, med, limit) == xs <==> forall k | 0 <= k < |xs| :: InBand(resid[k], med, limit)
  {
    hide PointResiduals, Middle, Limit, Sort, Count, Kept, InBand;
    var resid, sorted := PointResiduals(xs, ys), FirstResiduals(xs, ys);
    var med, limit := Middle(sorted), Limit(sorted);
    BandExactly(resid, med, limit);
    var below, above := Count(resid, LessThan(med - limit)), Count(resid, MoreThan(med + limit));
    LimitPositive(sorted);
    BandSizes(resid, med, limit);
    KeptBand(xs, sorted, med, limit, below, |xs| - above);
  }

  lemma LimitPositive(sorted: seq<real>)
    ensures Limit(sorted) > 0.0
  {
    hide Middle, Sort, Deviations;
  }

  /** Below the band and above it lie different points, and in the band the rest. */
  lemma {:induction false} BandSizes(resid: seq<real>, med: real, limit: real)
    requires limit >= 0.0
    ensures var below, above := Count(resid, LessThan(med - limit)), Count(resid, MoreThan(med + limit));
            && below + above <= |resid|
            && (below + above == 0 <==> forall k | 0 <= k < |resid| :: InBand(resid[k], med, limit))
  {
    if resid != [] {
      var n := |resid| - 1;
      BandSizes(resid[..n], med, limit);
      assert forall k | 0 <= k < n :: resid[..n][k] == resid[k];
      assert InBand(resid[n], med, limit) <==> !LessThan(med - limit)(resid[n]) && !MoreThan(med + limit)(resid[n]);
      assert forall k | 0 <= k < n :: InBand(resid[k], med, limit) <==> InBand(resid[..n][k], med, limit);
    }
  }

  /** With strictly increasing integer timestamps, two points are enough for an estimate, whatever the arrivals. */
  lemma IncreasingAlwaysFits(xs: seq<real>, ys: seq<real>)
    requires |xs| == |ys| && Integral(xs) && forall i, j :: 0 <= i < j < |xs| ==> xs[i] < xs[j]
    ensures Fit(xs, ys).Some? <==> |xs| >= 2
  {
    if |xs| >= 2 {
      hide Spread, Slope, FirstResiduals, Middle, Limit, Kept;
      assert xs[0] < xs[1];
      SpreadDecides(xs);
      var lo, hi := SurvivorsAreContiguous(xs, ys);
      var kept := xs[lo..hi];
      assert kept[0] < kept[1];
      SpreadDecides(kept);
    }
  }

  // ---- An outlier that survives ----

  lemma {:induction false} InsertTop(r: real, v: seq<real>)
    requires forall i :: 0 <= i < |v| ==> v[i] < r
    ensures Insert(r, v) == v + [r]
  {
    if v != [] { InsertTop(r, v[1..]); }
  }

  lemma Sum7(p: real, q: real, r: real, s: real, t: real, u: real, v: real)
    ensures Sum([p, q, r, s, t, u]) == p + q + r + s + t + u
    ensures Sum([p, q, r, s, t, u, v]) == p + q + r + s + t + u + v
  {
    assert [p][..0] == [] && [p, q][..1] == [p] && [p, q, r][..2] == [p, q] && [p, q, r, s][..3] == [p, q, r];
    assert [p, q, r, s, t][..4] == [p, q, r, s] && [p, q, r, s, t, u][..5] == [p, q, r, s, t];
    assert [p, q, r, s, t, u, v][..6] == [p, q, r, s, t, u];
    assert Sum([p]) == p && Sum([p, q]) == p + q && Sum([p, q, r]) == p + q + r;
    assert Sum([p, q, r, s]) == p + q + r + s;
  }

  function Products(v: seq<real>, w: seq<real>): (r: seq<real>)
    requires |v| == |w|
    ensures |r| == |v|
  {
    seq(|v|, i requires 0 <= i < |v| => Times(v[i], w[i]))
  }

  lemma {:induction false} DotIsSum(v: seq<real>, w: seq<real>)
    requires |v| == |w|
    ensures Dot(v, w) == Sum(Products(v, w))
  {
    hide Times;
    if v != [] {
      DotIsSum(v[..|v| - 1], w[..|w| - 1]);
      assert Products(v, w)[..|v| - 1] == Products(v[..|v| - 1], w[..|w| - 1]);
    }
  }

  /** Six residuals of -1 and one of 6, in any order: sorted, centred and with no spread but the tiny one. */
  lemma OneHigh(resid: seq<real>)
    requires resid == [-1.0, -1.0, -1.0, 6.0, -1.0, -1.0, -1.0]
    ensures var sorted := Sort(resid);
            sorted == [-1.0, -1.0, -1.0, -1.0, -1.0, -1.0, 6.0] && Middle(sorted) == -1.0 && Limit(sorted) == 4.0 * TINY
  {
    var low := [-1.0, -1.0, -1.0];
    assert Sort(low) == low by {
      assert low[..2] == [-1.0, -1.0] && low[..2][..1] == [-1.0] && low[..2][..1][..0] == [];
      assert Sort([-1.0]) == [-1.0] && Sort([-1.0, -1.0]) == [-1.0, -1.0];
    }
    var r4 := [-1.0, -1.0, -1.0, 6.0];
    var r5, r6 := [-1.0, -1.0, -1.0, 6.0, -1.0], [-1.0, -1.0, -1.0, 6.0, -1.0, -1.0];
    assert r4[..3] == low;
    assert r5[..4] == r4;
    assert r6[..5] == r5;
    assert resid[..6] == r6;
    InsertTop(6.0, low);
    assert Sort(r4) == low + [6.0];
    assert Sort(r5) == [-1.0] + (low + [6.0]);
    assert Sort(r6) == [-1.0] + ([-1.0] + (low + [6.0]));
    var sorted := Sort(resid);
    assert sorted == [-1.0] + ([-1.0] + ([-1.0] + (low + [6.0])));
    TinyLimit(sorted);
  }

  lemma TinyLimit(sorted: seq<real>)
    requires sorted == [-1.0, -1.0, -1.0, -1.0, -1.0, -1.0, 6.0]
    ensures Middle(sorted) == -1.0 && Limit(sorted) == 4.0 * TINY
  {
    var dev := Deviations(sorted, -1.0);
    var zeros := dev[..6];
    assert AllZero(zeros) && dev[6] == 7.0;
    SortZeros(zeros);
    InsertTop(7.0, Sort(zeros));
    assert Sort(dev)[3] == 0.0;
  }

  lemma OutlierSums(xs: seq<real>, ys: seq<real>)
    requires xs == [0.0, 1.0, 2.0, 3.0, 4.0, 5.0, 6.0] && ys == [0.0, 0.0, 0.0, 7.0, 0.0, 0.0, 0.0]
    ensures Sum(xs) == 21.0 && Sum(ys) == 7.0 && Dot(xs, xs) == 91.0 && Dot(xs, ys) == 21.0
    ensures Sum(xs[..6]) == 15.0 && Sum(ys[..6]) == 7.0
    ensures Dot(xs[..6], xs[..6]) == 55.0 && Dot(xs[..6], ys[..6]) == 21.0
  {
    hide Sum, Dot;
    var xs2, ys2 := xs[..6], ys[..6];
    assert xs2 == [0.0, 1.0, 2.0, 3.0, 4.0, 5.0] && ys2 == [0.0, 0.0, 0.0, 7.0, 0.0, 0.0];
    Sum7(0.0, 1.0, 2.0, 3.0, 4.0, 5.0, 6.0);
    Sum7(0.0, 0.0, 0.0, 7.0, 0.0, 0.0, 0.0);
    Sum7(0.0, 1.0, 4.0, 9.0, 16.0, 25.0, 36.0);
    Sum7(0.0, 0.0, 0.0, 21.0, 0.0, 0.0, 0.0);
    DotIsSum(xs, xs);
    DotIsSum(xs, ys);
    DotIsSum(xs2, xs2);
    DotIsSum(xs2, ys2);
    assert Products(xs, xs) == [0.0, 1.0, 4.0, 9.0, 16.0, 25.0, 36.0];
    assert Products(xs, ys) == [0.0, 0.0, 0.0, 21.0, 0.0, 0.0, 0.0];
    assert Products(xs2, xs2) == [0.0, 1.0, 4.0, 9.0, 16.0, 25.0];
    assert Products(xs2, ys2) == [0.0, 0.0, 0.0, 21.0, 0.0, 0.0];
  }

  lemma OutlierSteps(xs: seq<real>, ys: seq<real>)
    requires xs == [0.0, 1.0, 2.0, 3.0, 4.0, 5.0, 6.0] && ys == [0.0, 0.0, 0.0, 7.0, 0.0, 0.0, 0.0]
    requires Sum(xs) == 21.0 && Sum(ys) == 7.0 && Dot(xs, xs) == 91.0 && Dot(xs, ys) == 21.0
    requires Sum(xs[..6]) == 15.0 && Sum(ys[..6]) == 7.0
    requires Dot(xs[..6], xs[..6]) == 55.0 && Dot(xs[..6], ys[..6]) == 21.0
    ensures Fit(xs, ys) == Some(1.0 / 5.0)
    ensures Spread(xs) == 196.0 && PointResiduals(xs, ys) == [-1.0, -1.0, -1.0, 6.0, -1.0, -1.0, -1.0]
  {
    hide Sum, Dot, Sort, Middle, Limit, Kept;
    assert |xs| as real == 7.0 && Cross(7.0, 21.0, 21.0, 91.0) == 196.0 && Cross(7.0, 21.0, 7.0, 21.0) == 0.0;
    assert Spread(xs) == 196.0;
    assert 0.0 / 196.0 == 0.0;
    assert Slope(xs, ys) == 0.0;
    assert Intercept(7.0, 21.0, 7.0, 0.0) == 1.0;
    var resid := Residuals(xs, ys, 1.0, 0.0);
    assert resid == [-1.0, -1.0, -1.0, 6.0, -1.0, -1.0, -1.0];
    OneHigh(resid);
    var sorted := FirstResiduals(xs, ys);
    assert sorted == Sort(resid);
    assert forall k | 0 <= k < 7 :: InBand(sorted[k], -1.0, 4.0 * TINY) <==> 0 <= k < 6;
    KeptBand(xs, sorted, -1.0, 4.0 * TINY, 0, 6);
    KeptBand(ys, sorted, -1.0, 4.0 * TINY, 0, 6);
    assert |xs[..6]| as real == 6.0 && Cross(6.0, 15.0, 15.0, 55.0) == 105.0 && Cross(6.0, 15.0, 7.0, 21.0) == 21.0;
    assert Spread(xs[..6]) == 105.0;
    assert 21.0 / 105.0 == 1.0 / 5.0;
    assert Slope(xs[..6], ys[..6]) == 1.0 / 5.0;
  }

  /**
   Seven arrivals on the line of slope 0 except one: the outlier survives and bends the estimate to 1/5, while the last
   point, which is on the line, is dropped in its place.
   */
  lemma OutlierSurvives()
    ensures var xs := [0.0, 1.0, 2.0, 3.0, 4.0, 5.0, 6.0];
            var ys := [0.0, 0.0, 0.0, 7.0, 0.0, 0.0, 0.0];
            && OnLine(xs[..3] + xs[4..], ys[..3] + ys[4..], 0.0, 0.0)
            && Fit(xs, ys) == Some(1.0 / 5.0)
  {
    hide Fit;
    var xs := [0.0, 1.0, 2.0, 3.0, 4.0, 5.0, 6.0];
    var ys := [0.0, 0.0, 0.0, 7.0, 0.0, 0.0, 0.0];
    OutlierSums(xs, ys);
    OutlierSteps(xs, ys);
  }

  /**
   At these arrivals nothing lies below the band and one point above it, but that point is not the last one: the
   condition fails at points 3 and 6, of which the wrong one is kept.
   */
  lemma OutlierOutOfPlace()
    ensures var xs := [0.0, 1.0, 2.0, 3.0, 4.0, 5.0, 6.0];
            var ys := [0.0, 0.0, 0.0, 7.0, 0.0, 0.0, 0.0];
            && Spread(xs) != 0.0
            && var resid, sorted := PointResiduals(xs, ys), FirstResiduals(xs, ys);
               var med, limit := Middle(sorted), Limit(sorted);
               && Count(resid, LessThan(med - limit)) == 0 && Count(resid, MoreThan(med + limit)) == 1
               && !InBand(resid[3], med, limit) && InBand(sorted[3], med, limit)
               && InBand(resid[6], med, limit) && !InBand(sorted[6], med, limit)
               && !BandInPlace(resid, med, limit)
  {
    hide Fit, Middle, Limit, Sort, Spread, Count, PointResiduals;
    var xs := [0.0, 1.0, 2.0, 3.0, 4.0, 5.0, 6.0];
    var ys := [0.0, 0.0, 0.0, 7.0, 0.0, 0.0, 0.0];
    OutlierSums(xs, ys);
    OutlierSteps(xs, ys);
    var resid, sorted := PointResiduals(xs, ys), FirstResiduals(xs, ys);
    OneHigh(resid);
    CountOneHigh(resid, Middle(sorted), Limit(sorted));
  }

  lemma CountOneHigh(resid: seq<real>, med: real, limit: real)
    requires resid == [-1.0, -1.0, -1.0, 6.0, -1.0, -1.0, -1.0] && med == -1.0 && limit == 4.0 * TINY
    ensures Count(resid, LessThan(med - limit)) == 0 && Count(resid, MoreThan(med + limit)) == 1
  {
    var below, above := LessThan(med - limit), MoreThan(med + limit);
    CountNone(resid[..3], below);
    CountNone(resid[..3], above);
    CountNone(resid[4..], below);
    CountNone(resid[4..], above);
    CountAppend(resid[..3], [6.0] + resid[4..], below);
    CountAppend(resid[..3], [6.0] + resid[4..], above);
    CountCons(6.0, resid[4..], below);
    CountCons(6.0, resid[4..], above);
    assert resid == resid[..3] + ([6.0] + resid[4..]);
  }

  lemma {:induction false} CountNone(v: seq<real>, p: Test)
    requires forall k :: 0 <= k < |v| ==> !p(v[k])
    ensures Count(v, p) == 0
  {
    if v != [] { CountNone(v[..|v| - 1], p); }
  }

  lemma {:induction false} CountAppend(v: seq<real>, w: seq<real>, p: Test)
    ensures Count(v + w, p) == Count(v, p) + Count(w, p)
  {
    if w == [] {
      assert v + w == v;
    } else {
      CountAppend(v, w[..|w| - 1], p);
      assert (v + w)[..|v + w| - 1] == v + w[..|w| - 1];
    }
  }
}
