/**
 What the resampler's outputs mean: every frame interpolates the signal at the position it belongs to, with the row of
 the coefficient table nearest to that position.
 */
module Interpolation {
  import opened Prelude
  import opened Resampler

  // ---- The nearest row ----

  /** How far into its input frame a position lies. */
  function Fraction(pos: real): (phi: real)
    ensures 0.0 <= phi < 1.0
  {
    pos - pos.Floor as real
  }

  function Distance(a: real, b: real): real {
    if a <= b then b - a else a - b
  }

  /** The fraction that a row of the table stands for. */
  function RowFraction(row: int): real {
    row as real / PHASES as real
  }

  /** No row is nearer to the fraction than the one picked; of two equally near ones it is the higher. */
  lemma NearestRow(pos: real, row: nat)
    requires row < PHASES
    ensures Phase(pos) < PHASES
    ensures Distance(RowFraction(Phase(pos)), Fraction(pos)) <= Distance(RowFraction(row), Fraction(pos))
    ensures Distance(RowFraction(Phase(pos)), Fraction(pos)) == Distance(RowFraction(row), Fraction(pos)) ==>
              row <= Phase(pos)
  {
    var scaled := Fraction(pos) * 4096.0;
    var picked := Phase(pos);
    assert picked == Min((scaled + 0.5).Floor, 4095);
    assert RowFraction(picked) == picked as real / 4096.0 && RowFraction(row) == row as real / 4096.0;
    assert scaled - 0.5 < picked as real || picked == 4095;
    assert picked as real <= scaled + 0.5;
    if row <= picked {
      assert row < picked ==> row as real <= picked as real - 1.0;
    } else {
      assert row as real >= picked as real + 1.0;
    }
    assert Fraction(pos) == scaled / 4096.0;
  }

  /** Hence the row lies within half a row of the fraction, or is the last one. */
  lemma RowIsClose(pos: real)
    ensures Distance(RowFraction(Phase(pos)), Fraction(pos)) <= 1.0 / 8192.0 || Phase(pos) == PHASES - 1
  {
    var scaled := Fraction(pos) * 4096.0;
    assert Phase(pos) == Min((scaled + 0.5).Floor, 4095);
  }

  /** A row that is nearest, the higher of two, is the row picked. */
  lemma PicksNearest(pos: real, row: nat)
    requires row < PHASES
    requires forall other: nat | other < PHASES ::
               && Distance(RowFraction(row), Fraction(pos)) <= Distance(RowFraction(other), Fraction(pos))
               && (Distance(RowFraction(row), Fraction(pos)) == Distance(RowFraction(other), Fraction(pos)) ==>
                     other <= row)
    ensures Phase(pos) == row
  {
    NearestRow(pos, row);
  }

  // ---- The interpolated signal ----

  /** The sample of frame `j` on channel `c`; silence before the start. */
  function Sample(f: Filter, x: seq<i16>, j: int, c: nat): real
    requires Supported(f) && c < f.channels && Span(f, Max(j + 1, 0)) <= |x|
  {
    if j < 0 then 0.0 else x[Span(f, j) + c] as real
  }

  /** The signal around frame `n` weighted by a kernel of the distance to `centre`, over `k` frames from `n - 31` on. */
  function Weighted(f: Filter, kernel: real -> real, x: seq<i16>, centre: real, n: nat, c: nat, k: nat): real
    requires Supported(f) && c < f.channels && k <= TAPS && Span(f, n + HALF + 1) <= |x|
  {
    if k == 0 then 0.0
    else
      var j := n - HALF + k;
      Weighted(f, kernel, x, centre, n, c, k - 1) + kernel(j as real - centre) * Sample(f, x, j, c)
  }

  /** The table holds the kernel, sampled at the distance of each tap from the centre that the row stands for. */
  ghost predicate TableOf(f: Filter, kernel: real -> real) {
    forall row: nat, k: nat | row < PHASES && k < TAPS ::
      f.coef(row, k) == kernel((k + 1 - HALF) as real - RowFraction(row))
  }

  lemma {:induction false} TapsWeigh(f: Filter, kernel: real -> real, x: seq<i16>, row: nat, n: nat, c: nat, k: nat)
    requires Supported(f) && TableOf(f, kernel) && row < PHASES
    requires c < f.channels && k <= TAPS && Span(f, n + HALF + 1) <= |x|
    ensures Taps(f, x, row, n, c, k) == Weighted(f, kernel, x, n as real + RowFraction(row), n, c, k)
  {
    if k > 0 {
      TapsWeigh(f, kernel, x, row, n, c, k - 1);
      var j := n - HALF + k;
      var d := (k - HALF) as real - RowFraction(row);
      assert j as real - (n as real + RowFraction(row)) == d;
      assert f.coef(row, k - 1) == kernel(d);
    }
  }

  /**
   With a table sampled from a kernel, the frame put out at a position is the signal convolved with that kernel at the
   row's centre nearest to the position.
   */
  lemma FrameInterpolates(f: Filter, kernel: real -> real, x: seq<i16>, pos: real) returns (centre: real)
    requires Supported(f) && TableOf(f, kernel) && pos >= 0.0 && Producible(f, x, pos)
    ensures Span(f, pos.Floor + HALF + 1) <= |x|
    ensures forall c | 0 <= c < f.channels ::
              FrameAt(f, x, pos)[c] == f.quantize(Weighted(f, kernel, x, centre, pos.Floor, c, TAPS))
    ensures forall row | 0 <= row < PHASES ::
              Distance(centre, pos) <= Distance(pos.Floor as real + RowFraction(row), pos)
  {
    var n := pos.Floor;
    centre := n as real + RowFraction(Phase(pos));
    forall row | 0 <= row < PHASES ensures Distance(centre, pos) <= Distance(n as real + RowFraction(row), pos) {
      NearestRow(pos, row);
    }
    NearestRow(pos, 0);
    forall c | 0 <= c < f.channels
      ensures FrameAt(f, x, pos)[c] == f.quantize(Weighted(f, kernel, x, centre, n, c, TAPS))
    {
      TapsWeigh(f, kernel, x, Phase(pos), n, c, TAPS);
    }
  }

  // ---- Where the frames belong ----

  /** Frame `i` of the output belongs to the position `i` steps on. */
  lemma {:induction false} FrameBelongs(f: Filter, x: seq<i16>, step: real, pos: real, i: nat)
    requires Supported(f) && step > 0.0 && pos >= 0.0
    requires Producible(f, x, pos + i as real * step) && i as real * step >= 0.0
    ensures Span(f, i + 1) <= |Outputs(f, x, step, pos)|
    ensures Outputs(f, x, step, pos)[Span(f, i)..Span(f, i + 1)] == FrameAt(f, x, pos + i as real * step)
    decreases i
  {
    hide FrameAt;
    var at := pos + i as real * step;
    var frame, rest := FrameAt(f, x, pos), Outputs(f, x, step, pos + step);
    if i == 0 {
      assert Outputs(f, x, step, pos) == frame + rest;
    } else {
      OneStepLess(i, step);
      assert (pos + step) + (i - 1) as real * step == at;
      assert Producible(f, x, pos);
      FrameBelongs(f, x, step, pos + step, i - 1);
      assert Outputs(f, x, step, pos) == frame + rest;
      Behind(frame, rest, Span(f, i - 1), Span(f, i));
    }
  }

  lemma Behind<T>(front: seq<T>, rest: seq<T>, lo: nat, hi: nat)
    requires lo <= hi <= |rest|
    ensures (front + rest)[|front| + lo..|front| + hi] == rest[lo..hi]
  {
  }

  lemma OneStepLess(i: nat, step: real)
    requires i > 0 && step > 0.0
    ensures i as real * step == step + (i - 1) as real * step && (i - 1) as real * step >= 0.0
  {
    var m := (i - 1) as real;
    assert i as real == m + 1.0;
    assert (m + 1.0) * step == m * step + step;
    assert m >= 0.0;
  }

  // ---- At rate one nothing changes ----

  /** The first row is an impulse at the centre, and whole numbers are not rounded. */
  ghost predicate Transparent(f: Filter) {
    && (forall k: nat | k < TAPS :: f.coef(0, k) == if k == HALF - 1 then 1.0 else 0.0)
    && (forall v: i16 :: WholeStays(f, v))
  }

  predicate WholeStays(f: Filter, v: i16) {
    f.quantize(v as real) == v
  }

  lemma {:induction false} ImpulseTaps(f: Filter, x: seq<i16>, n: nat, c: nat, k: nat)
    requires Supported(f) && Transparent(f) && c < f.channels && k <= TAPS && Span(f, n + HALF + 1) <= |x|
    ensures Taps(f, x, 0, n, c, k) == if k < HALF then 0.0 else x[Span(f, n) + c] as real
  {
    if k > 0 {
      ImpulseTaps(f, x, n, c, k - 1);
      assert f.coef(0, k - 1) == if k - 1 == HALF - 1 then 1.0 else 0.0;
    }
  }

  lemma WholePosition(n: nat)
    ensures Phase(n as real) == 0 && (n as real).Floor == n
  {
  }

  /** At a whole position the frame of the signal comes out as it is. */
  lemma WholeFrame(f: Filter, x: seq<i16>, n: nat)
    requires Supported(f) && Transparent(f) && Producible(f, x, n as real)
    ensures Span(f, n + 1) <= |x| && FrameAt(f, x, n as real) == x[Span(f, n)..Span(f, n + 1)]
  {
    WholePosition(n);
    var frame := FrameAt(f, x, n as real);
    forall c | 0 <= c < f.channels ensures frame[c] == x[Span(f, n) + c] {
      ImpulseTaps(f, x, n, c, TAPS);
      assert WholeStays(f, x[Span(f, n) + c]);
    }
  }

  lemma {:induction false} RateOneFrom(f: Filter, x: seq<i16>, n: nat)
    requires Supported(f) && Transparent(f) && n <= FramesIn(f, |x|)
    ensures var end := Max(FramesIn(f, |x|) - HALF, n);
            && Span(f, n) <= Span(f, end) <= |x|
            && Outputs(f, x, 1.0, n as real) == x[Span(f, n)..Span(f, end)]
    decreases |x| - n
  {
    var end := Max(FramesIn(f, |x|) - HALF, n);
    assert (n as real).Floor == n;
    if n + HALF < FramesIn(f, |x|) {
      WholeFrame(f, x, n);
      RateOneFrom(f, x, n + 1);
      assert (n + 1) as real == n as real + 1.0;
      assert x[Span(f, n)..Span(f, end)] == x[Span(f, n)..Span(f, n + 1)] + x[Span(f, n + 1)..Span(f, end)];
    }
  }

  /** At equal rates the whole signal but its last 32 frames comes out unchanged. */
  lemma EqualRatesPassThrough(f: Filter, x: seq<i16>, rate: u32)
    requires Supported(f) && Transparent(f) && rate > 0
    ensures RateRatio(rate, rate) == 1.0
    ensures var n := Span(f, Max(FramesIn(f, |x|) - HALF, 0));
            n <= |x| && Outputs(f, x, RateRatio(rate, rate), 0.0) == x[..n]
  {
    RatesGiveRatio(rate, rate);
    RateOneFrom(f, x, 0);
  }

  // ---- Rates ----

  /** From `T` frames at the input rate come as many at the output rate as last as long, up to one frame. */
  lemma RatesAreKept(f: Filter, x: seq<i16>, inputRate: u32, outputRate: u32)
    requires Supported(f) && inputRate > 0 && outputRate > 0 && FramesIn(f, |x|) > HALF
    ensures RateRatio(inputRate, outputRate) > 0.0
    ensures var fed := FramesIn(f, |x|) - HALF;
            var made := FramesIn(f, |Outputs(f, x, RateRatio(inputRate, outputRate), 0.0)|);
            fed * outputRate <= made * inputRate < fed * outputRate + inputRate
  {
    var step := RateRatio(inputRate, outputRate);
    RatesGiveRatio(inputRate, outputRate);
    OutputCount(f, x, step, 0.0);
    CeilOfRatio(FramesIn(f, |x|) - HALF, inputRate, outputRate);
  }

  function Product(a: real, b: real): real {
    a * b
  }

  lemma RatioInverts(a: real, i: real, o: real)
    requires a > 0.0 && i > 0.0 && o > 0.0
    ensures i / o > 0.0 && Product(a / (i / o), i) == Product(a, o)
  {
    var step := i / o;
    QuotientPositive(i, o);
    var q := a / step;
    assert step * o == i && q * step == a;
    assert q * (step * o) == (q * step) * o;
  }

  lemma CeilScaled(q: real, i: real)
    requires i > 0.0
    ensures Product(q, i) <= Product(Ceil(q) as real, i) < Product(q, i) + i
  {
    var c := Ceil(q) as real;
    assert 0.0 <= c - q && 0.0 < q + 1.0 - c;
    Distributes(c, q, i);
    Distributes(q + 1.0, c, i);
    Distributes(q + 1.0, q, i);
  }

  lemma Distributes(a: real, b: real, i: real)
    requires i > 0.0
    ensures Product(a, i) - Product(b, i) == Product(a - b, i)
    ensures a - b >= 0.0 ==> Product(a - b, i) >= 0.0
    ensures a - b > 0.0 ==> Product(a - b, i) > 0.0
    ensures a - b == 1.0 ==> Product(a - b, i) == i
  {
    if a - b > 0.0 { ProductPositive(a - b, i); }
  }

  lemma ProductPositive(a: real, b: real)
    requires a > 0.0 && b > 0.0
    ensures Product(a, b) > 0.0
  {
  }

  lemma WholeProduct(a: int, b: int)
    ensures Product(a as real, b as real) == (a * b) as real
  {
  }

  lemma BetweenReals(due: int, lasted: int, rate: int)
    requires due as real <= lasted as real < due as real + rate as real
    ensures due <= lasted < due + rate
  {
    assert due as real + rate as real == (due + rate) as real;
  }

  lemma CeilOfRatio(fed: nat, inputRate: u32, outputRate: u32)
    requires fed > 0 && inputRate > 0 && outputRate > 0
    ensures RateRatio(inputRate, outputRate) > 0.0
    ensures var made := Ceil(fed as real / RateRatio(inputRate, outputRate));
            made > 0 && fed * outputRate <= made * inputRate < fed * outputRate + inputRate
  {
    var i, o := inputRate as real, outputRate as real;
    RatioInverts(fed as real, i, o);
    var q := fed as real / (i / o);
    QuotientPositive(fed as real, i / o);
    CeilSteps(q);
    CeilScaled(q, i);
    var made := Ceil(q);
    hide Ceil, Product;
    WholeProduct(made, inputRate);
    WholeProduct(fed, outputRate);
    BetweenReals(fed * outputRate, made * inputRate, inputRate);
  }
}
