/**
 The drift estimator: a sliding window of timestamps and arrivals, a paced update, and the controller that moves the
 applied correction towards the estimate within a slew bound, outside a deadband and never beyond the limit.
 */
module Drift {
  import opened Prelude
  import opened LineFit
  import opened Resampler

  datatype Config = Config(
    nominalRate: u32, updateIntervalMs: u64, maxPpmStep: real, deadbandPpm: real, prefillFrames: nat,
    maxEstPpm: real, window: nat)

  /** A rate to aim at, room for one observation, and bounds that keep every ratio positive. */
  predicate Sensible(cfg: Config) {
    && cfg.nominalRate > 0 && cfg.window >= 1
    && cfg.maxPpmStep >= 0.0 && cfg.deadbandPpm >= 0.0 && 0.0 <= cfg.maxEstPpm < 1000000.0
  }

  datatype Signal = Idle | Correcting(ppm: real) | ExcessiveDrift(ppm: real)

  /** What the controller decides: the applied correction, the resampler's ratio, whether it ever corrected. */
  datatype Control = Control(applied: real, ratio: real, signal: Signal, corrected: bool)

  const START := Control(0.0, 1.0, Idle, false)

  function RMin(a: real, b: real): real { if a <= b then a else b }

  function RMax(a: real, b: real): real { if a <= b then b else a }

  /** Input frames per output frame at a correction of `ppm`. */
  function RatioAt(ppm: real): real
    requires ppm > -1000000.0
  {
    1.0 / (1.0 + ppm * 0.000001)
  }

  /** Where the slew bound lets the correction go. */
  function Target(cfg: Config, applied: real, raw: real): real {
    RMin(RMax(raw, applied - cfg.maxPpmStep), applied + cfg.maxPpmStep)
  }

  function Updated(cfg: Config, c: Control, raw: real): Control
    requires Sensible(cfg) && Bounded(cfg, c)
  {
    TargetBetween(cfg, c.applied, raw);
    if Abs(raw) > cfg.maxEstPpm then c.(signal := ExcessiveDrift(raw))
    else
      var target := Target(cfg, c.applied, raw);
      if Abs(target) < cfg.deadbandPpm then
        if c.corrected then c.(signal := Idle) else c.(signal := Idle, applied := 0.0, ratio := 1.0)
      else Control(target, RatioAt(target), Correcting(target), true)
  }

  // ---- The controller over all runs ----

  predicate Bounded(cfg: Config, c: Control)
    requires Sensible(cfg)
  {
    && Abs(c.applied) <= cfg.maxEstPpm
    && (c.corrected ==> Abs(c.applied) >= cfg.deadbandPpm && c.ratio == RatioAt(c.applied))
    && (!c.corrected ==> c.applied == 0.0 && c.ratio == 1.0)
  }

  lemma TargetBetween(cfg: Config, applied: real, raw: real)
    requires cfg.maxPpmStep >= 0.0
    ensures var t := Target(cfg, applied, raw);
            && Abs(t - applied) <= cfg.maxPpmStep
            && (applied <= t <= raw || raw <= t <= applied)
            && (Abs(raw - applied) <= cfg.maxPpmStep ==> t == raw)
  {
  }

  /**
   What every update keeps: the correction stays within the limit, moves by at most the slew bound, and is exactly zero
   with ratio one as long as nothing was corrected; an excessive estimate changes nothing that is applied.
   */
  lemma UpdateBounded(cfg: Config, c: Control, raw: real)
    requires Sensible(cfg) && Bounded(cfg, c)
    ensures var c' := Updated(cfg, c, raw);
            && Bounded(cfg, c')
            && Abs(c'.applied - c.applied) <= cfg.maxPpmStep
            && (c.corrected ==> c'.corrected)
            && (Abs(raw) > cfg.maxEstPpm ==> c' == c.(signal := ExcessiveDrift(raw)))
            && (Abs(raw) <= cfg.maxEstPpm ==> !c'.signal.ExcessiveDrift?)
            && (c'.signal.Correcting? ==> c'.corrected && c'.signal.ppm == c'.applied)
  {
    hide RatioAt;
    TargetBetween(cfg, c.applied, raw);
  }

  /** The controller after a sequence of estimates, kept within its bounds throughout. */
  function After(cfg: Config, c: Control, raws: seq<real>): (end: Control)
    requires Sensible(cfg) && Bounded(cfg, c)
    ensures Bounded(cfg, end)
  {
    if raws == [] then c
    else
      var before := After(cfg, c, raws[..|raws| - 1]);
      UpdateBounded(cfg, before, raws[|raws| - 1]);
      Updated(cfg, before, raws[|raws| - 1])
  }

  /** A step narrower than the deadband never corrects anything, whatever the estimates. */
  lemma {:induction false} NarrowStepNeverCorrects(cfg: Config, raws: seq<real>)
    requires Sensible(cfg) && cfg.maxPpmStep < cfg.deadbandPpm
    ensures var c := After(cfg, START, raws); !c.corrected && c.applied == 0.0 && c.ratio == 1.0
  {
    if raws != [] {
      NarrowStepNeverCorrects(cfg, raws[..|raws| - 1]);
      TargetBetween(cfg, 0.0, raws[|raws| - 1]);
    }
  }

  // ---- Convergence ----

  function Repeat(raw: real, k: nat): (raws: seq<real>)
    ensures |raws| == k
  {
    seq(k, _ => raw)
  }

  function Steps(k: nat, step: real): real {
    if k == 0 then 0.0 else Steps(k - 1, step) + step
  }

  lemma {:induction false} StepsProduct(k: nat, step: real)
    ensures Steps(k, step) == k as real * step
  {
    if k > 0 {
      StepsProduct(k - 1, step);
      assert k as real == (k - 1) as real + 1.0;
      AddOne(k, step);
    }
  }

  lemma AddOne(k: nat, step: real)
    requires k > 0
    ensures k as real * step == (k - 1) as real * step + step
  {
    var m := (k - 1) as real;
    assert k as real == m + 1.0;
    assert (m + 1.0) * step == m * step + step;
  }

  /** The point reached after `k` steps from 0 towards `raw`. */
  function Approach(raw: real, k: nat, step: real): real {
    if raw >= 0.0 then RMin(Steps(k, step), raw) else RMax(-Steps(k, step), raw)
  }

  lemma ApproachStep(cfg: Config, raw: real, k: nat)
    requires k > 0 && cfg.maxPpmStep > 0.0 && Steps(k - 1, cfg.maxPpmStep) >= 0.0
    ensures Target(cfg, Approach(raw, k - 1, cfg.maxPpmStep), raw) == Approach(raw, k, cfg.maxPpmStep)
    ensures Abs(Approach(raw, k, cfg.maxPpmStep)) <= Abs(raw)
    ensures Abs(Approach(raw, k, cfg.maxPpmStep)) >= RMin(cfg.maxPpmStep, Abs(raw))
  {
  }

  /** A constant in-range estimate is approached by one full step each update and then held. */
  lemma {:induction false} ConstantEstimate(cfg: Config, raw: real, k: nat)
    requires Sensible(cfg) && 0.0 < cfg.maxPpmStep && cfg.deadbandPpm <= cfg.maxPpmStep
    requires cfg.deadbandPpm <= Abs(raw) <= cfg.maxEstPpm
    ensures After(cfg, START, Repeat(raw, k)).applied == Approach(raw, k, cfg.maxPpmStep)
    ensures Steps(k, cfg.maxPpmStep) >= 0.0
    ensures k > 0 ==> Steps(k, cfg.maxPpmStep) >= cfg.maxPpmStep
    ensures k > 0 ==> After(cfg, START, Repeat(raw, k)).signal == Correcting(Approach(raw, k, cfg.maxPpmStep))
  {
    hide RatioAt;
    if k > 0 {
      ConstantEstimate(cfg, raw, k - 1);
      assert Repeat(raw, k)[..k - 1] == Repeat(raw, k - 1);
      ApproachStep(cfg, raw, k);
    }
  }

  /** It is reached after exactly ⌈|raw| / step⌉ updates, and not before. */
  lemma ReachedExactly(cfg: Config, raw: real, k: nat)
    requires Sensible(cfg) && 0.0 < cfg.maxPpmStep && cfg.deadbandPpm <= cfg.maxPpmStep
    requires cfg.deadbandPpm <= Abs(raw) <= cfg.maxEstPpm
    ensures After(cfg, START, Repeat(raw, k)).applied == raw <==> k >= Ceil(Abs(raw) / cfg.maxPpmStep)
  {
    hide After, Updated, Bounded, Steps, Approach, Ceil;
    ConstantEstimate(cfg, raw, k);
    ApproachReaches(raw, k, cfg.maxPpmStep);
    StepsProduct(k, cfg.maxPpmStep);
    CeilDecides(Abs(raw), cfg.maxPpmStep, k);
  }

  lemma ApproachReaches(raw: real, k: nat, step: real)
    requires Steps(k, step) >= 0.0
    ensures Approach(raw, k, step) == raw <==> Steps(k, step) >= Abs(raw)
  {
  }

  lemma CeilDecides(a: real, b: real, k: nat)
    requires a >= 0.0 && b > 0.0
    ensures k as real * b >= a <==> k >= Ceil(a / b)
  {
    var q := a / b;
    assert q * b == a;
    if k as real >= q {
      assert (k as real - q) * b >= 0.0;
    } else {
      assert (q - k as real) * b > 0.0;
    }
  }

  // ---- Sign changes ----

  predicate OppositeSigns(a: real, b: real) {
    (a > 0.0 && b < 0.0) || (a < 0.0 && b > 0.0)
  }

  /** In no run does the correction that is applied at one time have the opposite sign of one applied later. */
  ghost predicate SignKept(cfg: Config)
    requires Sensible(cfg)
  {
    forall raws: seq<real>, i: nat, j: nat | i <= j <= |raws| ::
      !OppositeSigns(After(cfg, START, raws[..i]).applied, After(cfg, START, raws[..j]).applied)
  }

  /** A correction is engaged for good, on the side of zero where it began. */
  predicate SameSide(c: Control, c': Control) {
    && (c.applied > 0.0 ==> c'.applied > 0.0)
    && (c.applied < 0.0 ==> c'.applied < 0.0)
  }

  /** No config in which a swing is possible: too narrow a step, or no room for any correction. */
  predicate TooTight(cfg: Config) {
    cfg.maxPpmStep < 2.0 * cfg.deadbandPpm || cfg.maxEstPpm < cfg.deadbandPpm || cfg.maxPpmStep == 0.0
    || cfg.maxEstPpm == 0.0
  }

  lemma StaysOnSide(cfg: Config, c: Control, raw: real)
    requires Sensible(cfg) && Bounded(cfg, c) && TooTight(cfg)
    ensures SameSide(c, Updated(cfg, c, raw))
  {
    hide RatioAt;
    TargetBetween(cfg, c.applied, raw);
  }

  lemma {:induction false} RunStaysOnSide(cfg: Config, raws: seq<real>, i: nat)
    requires Sensible(cfg) && TooTight(cfg) && i <= |raws|
    ensures SameSide(After(cfg, START, raws[..i]), After(cfg, START, raws))
    decreases |raws|
  {
    hide Updated;
    if i == |raws| {
      assert raws[..i] == raws;
    } else {
      var front := raws[..|raws| - 1];
      assert front[..i] == raws[..i];
      RunStaysOnSide(cfg, front, i);
      StaysOnSide(cfg, After(cfg, START, front), raws[|raws| - 1]);
    }
  }

  /**
   The applied correction never changes its sign in the course of any run if and only if the step is less than twice the
   deadband, or nothing can be corrected at all: a limit below the deadband, a step of zero or a limit of zero.
   */
  lemma SignKeptExactly(cfg: Config)
    requires Sensible(cfg)
    ensures SignKept(cfg) <==>
              || cfg.maxPpmStep < 2.0 * cfg.deadbandPpm
              || cfg.maxEstPpm < cfg.deadbandPpm || cfg.maxPpmStep == 0.0 || cfg.maxEstPpm == 0.0
  {
    hide Updated, After;
    if TooTight(cfg) {
      forall raws: seq<real>, i: nat, j: nat | i <= j <= |raws|
        ensures !OppositeSigns(After(cfg, START, raws[..i]).applied, After(cfg, START, raws[..j]).applied)
      {
        assert raws[..j][..i] == raws[..i];
        RunStaysOnSide(cfg, raws[..j], i);
      }
    } else {
      var e := if cfg.deadbandPpm > 0.0 then cfg.deadbandPpm else RMin(cfg.maxPpmStep, cfg.maxEstPpm) / 2.0;
      Swing(cfg, e);
    }
  }

  /** A wide step swings from one side of the deadband to the other in one update. */
  lemma Swing(cfg: Config, e: real)
    requires Sensible(cfg) && 0.0 < e && cfg.deadbandPpm <= e <= cfg.maxEstPpm && 2.0 * e <= cfg.maxPpmStep
    ensures After(cfg, START, [e, -e][..1]).applied == e && After(cfg, START, [e, -e][..2]).applied == -e
  {
    hide RatioAt;
    var raws := [e, -e];
    assert raws[..1][..0] == [] && raws[..2][..1] == raws[..1];
    assert Updated(cfg, START, e).applied == e;
  }

  // ---- The estimate ----

  /** The drift that a slope of `b` milliseconds per sample amounts to, in ppm of the nominal rate. */
  function RawPpm(nominalRate: u32, b: real): real {
    (nominalRate as real * b / 1000.0 - 1.0) * 1000000.0
  }

  /** Milliseconds per sample of a source that runs slow by `ppm`. */
  function SlopeAt(nominalRate: u32, ppm: real): real
    requires nominalRate > 0
  {
    1000.0 / nominalRate as real * (1.0 + ppm * 0.000001)
  }

  lemma SlopeInverse(nominalRate: u32, ppm: real)
    requires nominalRate > 0
    ensures RawPpm(nominalRate, SlopeAt(nominalRate, ppm)) == ppm
  {
    NominalSlope(nominalRate as real, 1.0 + ppm * 0.000001);
  }

  /**
   What the ratio does to a stream: a source that runs slow by `ppm`, resampled at the ratio for `ppm`, comes out at its
   nominal rate.
   */
  lemma RatioRestoresNominal(nominalRate: u32, ppm: real)
    requires nominalRate > 0 && ppm > -1000000.0
    ensures nominalRate as real * SlopeAt(nominalRate, ppm) * RatioAt(ppm) == 1000.0
  {
    var r, f := nominalRate as real, 1.0 + ppm * 0.000001;
    assert f > 0.0;
    NominalSlope(r, f);
    InverseFactor(f);
  }

  lemma NominalSlope(r: real, f: real)
    requires r > 0.0
    ensures r * (1000.0 / r * f) == 1000.0 * f
  {
    assert r * (1000.0 / r) == 1000.0;
    assert r * (1000.0 / r * f) == (r * (1000.0 / r)) * f;
  }

  lemma InverseFactor(f: real)
    requires f > 0.0
    ensures 1000.0 * f * (1.0 / f) == 1000.0
  {
    assert f * (1.0 / f) == 1.0;
    assert 1000.0 * f * (1.0 / f) == 1000.0 * (f * (1.0 / f));
  }

  /** None: too little to fit. */
  function Estimate(cfg: Config, xs: seq<real>, ys: seq<real>): Option<real>
    requires |xs| == |ys|
  {
    match Fit(xs, ys)
    case None => None
    case Some(b) => Some(RawPpm(cfg.nominalRate, b))
  }

  /** Arrivals of a steadily drifting source give back exactly the drift. */
  lemma DriftRecovered(cfg: Config, xs: seq<real>, ys: seq<real>, start: real, ppm: real)
    requires cfg.nominalRate > 0 && Integral(xs) && !AllEqual(xs)
    requires OnLine(xs, ys, start, SlopeAt(cfg.nominalRate, ppm))
    ensures Estimate(cfg, xs, ys) == Some(ppm)
  {
    hide Fit, SlopeAt, RawPpm;
    ExactOnLine(xs, ys, start, SlopeAt(cfg.nominalRate, ppm));
    SlopeInverse(cfg.nominalRate, ppm);
  }

  // ---- The estimator ----

  datatype Observation = Observation(frameTs: u64, nowMs: u64)

  datatype Estimator = Estimator(
    xs: seq<real>, ys: seq<real>, totalFrames: nat, lastUpdateMs: Option<u64>, control: Control)

  const FRESH := Estimator([], [], 0, None, START)

  predicate Consistent(cfg: Config, e: Estimator)
    requires Sensible(cfg)
  {
    |e.xs| == |e.ys| <= cfg.window && Bounded(cfg, e.control)
  }

  /** The interval has passed since the last update, or there was none; a clock that ran back counts as no time. */
  predicate Due(cfg: Config, last: Option<u64>, nowMs: u64) {
    match last
    case None => true
    case Some(t) => (if nowMs >= t then nowMs - t else 0) >= cfg.updateIntervalMs
  }

  /** An observation moves the controller when enough were seen and an update is due. */
  predicate Updates(cfg: Config, e: Estimator, o: Observation) {
    Due(cfg, e.lastUpdateMs, o.nowMs) && e.totalFrames + 1 >= cfg.prefillFrames
  }

  /** The window after one more observation: at most `window` of the latest ones. */
  function Slid(cfg: Config, v: seq<real>, r: real): (w: seq<real>)
    requires |v| <= cfg.window && cfg.window >= 1
    ensures |w| <= cfg.window
  {
    (if |v| >= cfg.window then v[1..] else v) + [r]
  }

  /** The controller's answer to what the window now holds. */
  function Controlled(cfg: Config, c: Control, xs: seq<real>, ys: seq<real>): (c': Control)
    requires |xs| == |ys| && Sensible(cfg) && Bounded(cfg, c)
    ensures Bounded(cfg, c')
  {
    match Estimate(cfg, xs, ys)
    case None => c
    case Some(raw) =>
      UpdateBounded(cfg, c, raw);
      Updated(cfg, c, raw)
  }

  function Sampled(cfg: Config, e: Estimator, o: Observation): (e': Estimator)
    requires Sensible(cfg) && Consistent(cfg, e)
    ensures Consistent(cfg, e')
  {
    var xs, ys := Slid(cfg, e.xs, o.frameTs as real), Slid(cfg, e.ys, o.nowMs as real);
    if Updates(cfg, e, o)
    then Estimator(xs, ys, e.totalFrames + 1, Some(o.nowMs), Controlled(cfg, e.control, xs, ys))
    else Estimator(xs, ys, e.totalFrames + 1, e.lastUpdateMs, e.control)
  }

  // ---- The estimator, updated in place ----

  class DriftEstimator {
    const cfg: Config
    const resampler: ResamplerI16
    var xs: seq<real>
    var ys: seq<real>
    var totalFrames: nat
    var lastUpdateMs: Option<u64>
    var appliedPpm: real
    var signal: Signal
    var corrected: bool

    ghost predicate Valid()
      reads this, resampler
    {
      && Sensible(cfg) && |xs| == |ys| <= cfg.window && Integral(xs) && Integral(ys)
      && resampler.Valid() && Bounded(cfg, State())
    }

    ghost function State(): Control
      reads this, resampler
    {
      Control(appliedPpm, resampler.step, signal, corrected)
    }

    ghost function View(): Estimator
      reads this, resampler
    {
      Estimator(xs, ys, totalFrames, lastUpdateMs, State())
    }

    constructor (cfg: Config, filter: Filter)
      requires Sensible(cfg) && Supported(filter)
      ensures Valid() && fresh(resampler) && this.cfg == cfg && View() == FRESH
    {
      hide RateRatio, ResamplerI16.Valid, ResamplerI16.Held;
      this.cfg := cfg;
      resampler := new ResamplerI16(filter, cfg.nominalRate, cfg.nominalRate);
      xs, ys, totalFrames, lastUpdateMs := [], [], 0, None;
      appliedPpm, signal, corrected := 0.0, Idle, false;
      new;
      RatesGiveRatio(cfg.nominalRate, cfg.nominalRate);
      assert resampler.step == 1.0 && resampler.Valid();
    }

    /** One observation; when enough were seen and the interval has passed, one controller update. */
    method SampleFrame(frameTs: u64, nowMs: u64)
      requires Valid()
      modifies this, resampler`step, resampler`widest
      ensures Valid() && View() == Sampled(cfg, old(View()), Observation(frameTs, nowMs))
    {
      Observe(frameTs as real, nowMs as real);
      totalFrames := totalFrames + 1;
      if Due(cfg, lastUpdateMs, nowMs) && totalFrames >= cfg.prefillFrames {
        lastUpdateMs := Some(nowMs);
        RunUpdate();
      }
    }

    method Observe(x: real, y: real)
      requires Valid() && x == x.Floor as real && y == y.Floor as real
      modifies this`xs, this`ys
      ensures Valid() && xs == Slid(cfg, old(xs), x) && ys == Slid(cfg, old(ys), y)
    {
      if |xs| >= cfg.window {
        xs, ys := xs[1..], ys[1..];
      }
      xs, ys := xs + [x], ys + [y];
    }

    method RunUpdate()
      requires Valid()
      modifies this`appliedPpm, this`signal, this`corrected, resampler`step, resampler`widest
      ensures Valid() && State() == Controlled(cfg, old(State()), xs, ys)
    {
      var fit := FitSlope(xs, ys);
      if fit == None {
        return;
      }
      var rawPpm := RawPpm(cfg.nominalRate, fit.value);
      Steer(rawPpm);
    }

    method Steer(rawPpm: real)
      requires Valid()
      modifies this`appliedPpm, this`signal, this`corrected, resampler`step, resampler`widest
      ensures Valid() && State() == Updated(cfg, old(State()), rawPpm)
    {
      hide RatioAt;
      UpdateBounded(cfg, State(), rawPpm);
      TargetBetween(cfg, appliedPpm, rawPpm);
      if Abs(rawPpm) > cfg.maxEstPpm {
        signal := ExcessiveDrift(rawPpm);
        return;
      }
      var step := cfg.maxPpmStep;
      var target := RMin(RMax(rawPpm, appliedPpm - step), appliedPpm + step);
      if Abs(target) < cfg.deadbandPpm {
        signal := Idle;
        if !corrected {
          appliedPpm := 0.0;
          resampler.SetRatio(1.0);
        }
        return;
      }
      Engage(target);
    }

    /** A correction outside the deadband takes effect in the resampler. */
    method Engage(target: real)
      requires Valid() && cfg.deadbandPpm <= Abs(target) <= cfg.maxEstPpm
      modifies this`appliedPpm, this`signal, this`corrected, resampler`step, resampler`widest
      ensures Valid() && State() == Control(target, RatioAt(target), Correcting(target), true)
    {
      hide RatioAt;
      RatioPositive(target);
      appliedPpm, signal, corrected := target, Correcting(target), true;
      resampler.SetRatio(RatioAt(target));
    }

    /** Forgets observations and correction; the time of the last update stays. */
    method Reset()
      requires Valid()
      modifies this`xs, this`ys, this`totalFrames, this`appliedPpm, this`corrected, this`signal
      modifies resampler`step, resampler`widest
      ensures Valid() && View() == FRESH.(lastUpdateMs := old(lastUpdateMs))
    {
      xs, ys, totalFrames, appliedPpm, corrected, signal := [], [], 0, 0.0, false, Idle;
      resampler.SetRatio(1.0);
    }
  }

  lemma RatioPositive(ppm: real)
    requires ppm > -1000000.0
    ensures RatioAt(ppm) > 0.0
  {
    QuotientPositive(1.0, 1.0 + ppm * 0.000001);
  }

  /** The signal tells which of the three cases an estimate was, and an idle controller keeps what it applied. */
  lemma SignalExactly(cfg: Config, c: Control, raw: real)
    requires Sensible(cfg) && Bounded(cfg, c)
    ensures var c' := Updated(cfg, c, raw);
            var target := Target(cfg, c.applied, raw);
            && (c'.signal == ExcessiveDrift(raw) <==> Abs(raw) > cfg.maxEstPpm)
            && (c'.signal == Idle <==> Abs(raw) <= cfg.maxEstPpm && Abs(target) < cfg.deadbandPpm)
            && (c'.signal == Correcting(target) <==> Abs(raw) <= cfg.maxEstPpm && Abs(target) >= cfg.deadbandPpm)
            && (!c'.signal.Correcting? ==> c'.applied == c.applied && c'.ratio == c.ratio && c'.corrected == c.corrected)
  {
    hide RatioAt;
    TargetBetween(cfg, c.applied, raw);
  }
}
