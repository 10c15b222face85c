/**
 Whole runs of the drift estimator: what its window holds, how far apart its updates are, and that a steady drift is
 corrected to the nominal rate.
 */
module DriftRuns {
  import opened Prelude
  import opened LineFit
  import opened Resampler
  import opened Drift

  /** The estimator after all observations, in order. */
  function AfterAll(cfg: Config, obs: seq<Observation>): (e: Estimator)
    requires Sensible(cfg)
    ensures Consistent(cfg, e)
  {
    if obs == [] then FRESH else Sampled(cfg, AfterAll(cfg, obs[..|obs| - 1]), obs[|obs| - 1])
  }

  // ---- The window ----

  /** The last `n` observations, or all of them. */
  function Latest(obs: seq<Observation>, n: nat): seq<Observation> {
    if |obs| <= n then obs else obs[|obs| - n..]
  }

  function Stamps(obs: seq<Observation>): (v: seq<real>)
    ensures |v| == |obs|
  {
    seq(|obs|, i requires 0 <= i < |obs| => obs[i].frameTs as real)
  }

  function Arrivals(obs: seq<Observation>): (v: seq<real>)
    ensures |v| == |obs|
  {
    seq(|obs|, i requires 0 <= i < |obs| => obs[i].nowMs as real)
  }

  /** In every run the window holds exactly the latest observations, in order, and all of them are counted. */
  lemma {:induction false} WindowIsLatest(cfg: Config, obs: seq<Observation>)
    requires Sensible(cfg)
    ensures var e := AfterAll(cfg, obs);
            && e.xs == Stamps(Latest(obs, cfg.window)) && e.ys == Arrivals(Latest(obs, cfg.window))
            && e.totalFrames == |obs|
  {
    hide Controlled, Updates, Consistent;
    if obs == [] {
      assert Latest(obs, cfg.window) == [];
    } else {
      var front, last := obs[..|obs| - 1], obs[|obs| - 1];
      WindowIsLatest(cfg, front);
      WindowSlides(cfg, front, last);
      assert obs == front + [last];
    }
  }

  lemma WindowSlides(cfg: Config, front: seq<Observation>, last: Observation)
    requires cfg.window >= 1
    ensures var before, now := Latest(front, cfg.window), Latest(front + [last], cfg.window);
            && |before| <= cfg.window
            && Stamps(now) == Slid(cfg, Stamps(before), last.frameTs as real)
            && Arrivals(now) == Slid(cfg, Arrivals(before), last.nowMs as real)
  {
    var before, now := Latest(front, cfg.window), Latest(front + [last], cfg.window);
    if |before| >= cfg.window {
      assert now == before[1..] + [last];
      assert Stamps(before)[1..] == Stamps(before[1..]) && Arrivals(before)[1..] == Arrivals(before[1..]);
    } else {
      assert now == before + [last];
    }
  }

  // ---- Updates ----

  /** The times of the updates of a run, in order. */
  function UpdateTimes(cfg: Config, obs: seq<Observation>): seq<u64>
    requires Sensible(cfg)
  {
    if obs == [] then []
    else
      var front, last := obs[..|obs| - 1], obs[|obs| - 1];
      if Updates(cfg, AfterAll(cfg, front), last) then UpdateTimes(cfg, front) + [last.nowMs]
      else UpdateTimes(cfg, front)
  }

  /** Neighbouring updates are an interval apart. */
  predicate Spaced(times: seq<u64>, interval: nat) {
    forall i | 0 < i < |times| :: times[i] >= times[i - 1] + interval || interval == 0
  }

  /** In every run, updates are at least the interval apart, and there is none before enough was seen. */
  lemma {:induction false} UpdatesAreSpaced(cfg: Config, obs: seq<Observation>)
    requires Sensible(cfg)
    ensures var times := UpdateTimes(cfg, obs);
            && Spaced(times, cfg.updateIntervalMs)
            && (|obs| < cfg.prefillFrames ==> times == [])
            && AfterAll(cfg, obs).lastUpdateMs == (if times == [] then None else Some(times[|times| - 1]))
  {
    hide Controlled, Slid, Consistent;
    if obs != [] {
      var front := obs[..|obs| - 1];
      UpdatesAreSpaced(cfg, front);
      WindowIsLatest(cfg, front);
    }
  }

  /** What is put off is made up for: with the first observation that is due an update happens. */
  lemma DueObservationUpdates(cfg: Config, obs: seq<Observation>, o: Observation)
    requires Sensible(cfg) && |obs| + 1 >= cfg.prefillFrames
    ensures var times := UpdateTimes(cfg, obs);
            UpdateTimes(cfg, obs + [o]) == times + [o.nowMs] <==>
              times == [] || cfg.updateIntervalMs == 0 || o.nowMs >= times[|times| - 1] + cfg.updateIntervalMs
  {
    hide Controlled, Slid, Consistent;
    UpdatesAreSpaced(cfg, obs);
    WindowIsLatest(cfg, obs);
    assert (obs + [o])[..|obs|] == obs;
  }

  // ---- A steady drift ----

  /** What the window holds at an update. */
  datatype Window = Window(xs: seq<real>, ys: seq<real>)

  /** Arrivals of a source that steadily drifts by `ppm`. */
  ghost predicate Drifting(cfg: Config, ppm: real, w: Window)
    requires cfg.nominalRate > 0
  {
    && Integral(w.xs) && !AllEqual(w.xs)
    && exists start: real :: OnLine(w.xs, w.ys, start, SlopeAt(cfg.nominalRate, ppm))
  }

  /** The controller after updates with these windows. */
  function Steered(cfg: Config, windows: seq<Window>): (c: Control)
    requires Sensible(cfg) && forall i | 0 <= i < |windows| :: |windows[i].xs| == |windows[i].ys|
    ensures Bounded(cfg, c)
  {
    if windows == [] then START
    else
      var last := windows[|windows| - 1];
      Controlled(cfg, Steered(cfg, windows[..|windows| - 1]), last.xs, last.ys)
  }

  lemma {:induction false} SteadyRun(cfg: Config, ppm: real, windows: seq<Window>)
    requires Sensible(cfg) && forall i | 0 <= i < |windows| :: Drifting(cfg, ppm, windows[i])
    ensures forall i | 0 <= i < |windows| :: |windows[i].xs| == |windows[i].ys|
    ensures Steered(cfg, windows) == After(cfg, START, Repeat(ppm, |windows|))
  {
    hide Estimate, Updated, SlopeAt;
    forall i | 0 <= i < |windows| ensures |windows[i].xs| == |windows[i].ys| { assert Drifting(cfg, ppm, windows[i]); }
    if windows != [] {
      var n := |windows| - 1;
      SteadyRun(cfg, ppm, windows[..n]);
      assert Repeat(ppm, n + 1)[..n] == Repeat(ppm, n);
      assert Drifting(cfg, ppm, windows[n]);
      SteadyEstimate(cfg, ppm, windows[n]);
    }
  }

  lemma SteadyEstimate(cfg: Config, ppm: real, w: Window)
    requires cfg.nominalRate > 0 && Drifting(cfg, ppm, w)
    ensures |w.xs| == |w.ys| && Estimate(cfg, w.xs, w.ys) == Some(ppm)
  {
    hide Estimate, SlopeAt;
    var start: real :| OnLine(w.xs, w.ys, start, SlopeAt(cfg.nominalRate, ppm));
    DriftRecovered(cfg, w.xs, w.ys, start, ppm);
  }

  /** How many milliseconds a second's worth of output frames of a source that drifts by `ppm` lasts. */
  function SecondLasts(nominalRate: u32, ppm: real, ratio: real): real
    requires nominalRate > 0
  {
    nominalRate as real * SlopeAt(nominalRate, ppm) * ratio
  }

  /**
   A steady drift within the limit and outside the deadband: after exactly ⌈|ppm| / step⌉ updates the resampler turns
   the source's cadence into the nominal one.
   */
  lemma SteadyDriftIsCorrected(cfg: Config, ppm: real, windows: seq<Window>)
    requires Sensible(cfg) && 0.0 < cfg.maxPpmStep && cfg.deadbandPpm <= cfg.maxPpmStep
    requires cfg.deadbandPpm <= Abs(ppm) <= cfg.maxEstPpm
    requires forall i | 0 <= i < |windows| :: Drifting(cfg, ppm, windows[i])
    ensures forall i | 0 <= i < |windows| :: |windows[i].xs| == |windows[i].ys|
    ensures SecondLasts(cfg.nominalRate, ppm, Steered(cfg, windows).ratio) == 1000.0
       <==> |windows| >= Ceil(Abs(ppm) / cfg.maxPpmStep)
  {
    SteadyRun(cfg, ppm, windows);
    ReachedExactly(cfg, ppm, |windows|);
    var c := After(cfg, START, Repeat(ppm, |windows|));
    assert ppm > -1000000.0 && c.applied > -1000000.0;
    hide SlopeAt, Ceil, After, SecondLasts, Drifting, Steered, Bounded, RatioAt;
    RatioTells(cfg.nominalRate, ppm, c.applied);
    AppliedRatio(cfg, c);
  }

  /** A corrected controller's ratio is that of its correction, and so is that of one that never corrected. */
  lemma AppliedRatio(cfg: Config, c: Control)
    requires Sensible(cfg) && Bounded(cfg, c)
    ensures c.ratio == RatioAt(c.applied)
  {
    if !c.corrected { assert 1.0 / (1.0 + 0.0 * 0.000001) == 1.0; }
  }

  /** Different corrections have different ratios. */
  lemma RatioTells(nominalRate: u32, p: real, q: real)
    requires nominalRate > 0 && p > -1000000.0 && q > -1000000.0
    ensures SecondLasts(nominalRate, p, RatioAt(q)) == 1000.0 <==> p == q
  {
    var r, f, g := nominalRate as real, 1.0 + p * 0.000001, 1.0 + q * 0.000001;
    assert f > 0.0 && g > 0.0;
    NominalSlope(r, f);
    FactorTells(f, g);
    assert f == g <==> p == q;
  }

  lemma FactorTells(f: real, g: real)
    requires f > 0.0 && g > 0.0
    ensures 1000.0 * f * (1.0 / g) == 1000.0 <==> f == g
  {
    var inverse := 1.0 / g;
    assert inverse * g == 1.0;
    InverseFactor(g);
    if 1000.0 * f * inverse == 1000.0 {
      assert f * inverse == 1.0;
      assert f == f * (inverse * g) == (f * inverse) * g == g;
    }
  }
}
