/**
 The streaming windowed-sinc resampler over reals. The coefficient table and the rounding to 16 bits are abstract. The
 outputs are specified from the whole signal fed so far, with no history and no trimming.
 */
module Resampler {
  import opened Prelude

  const TAPS: nat := 64
  const HALF: nat := 32
  const PHASES: nat := 4096

  /** One or two interleaved channels, the coefficient of a tap in a phase row, and the final rounding. */
  datatype Filter = Filter(channels: nat, coef: (nat, nat) -> real, quantize: real -> i16)

  predicate Supported(f: Filter) {
    f.channels == 1 || f.channels == 2
  }

  /** How many interleaved samples `frames` frames are, and how many frames `samples` samples are. */
  function Span(f: Filter, frames: nat): nat {
    if f.channels == 1 then frames else 2 * frames
  }

  function FramesIn(f: Filter, samples: nat): nat {
    if f.channels == 1 then samples else samples / 2
  }

  // ---- The outputs, from the whole signal ----

  /** The fractional position picks the nearest of the phase rows. */
  function Phase(pos: real): nat {
    Min(((pos - pos.Floor as real) * PHASES as real + 0.5).Floor, PHASES - 1)
  }

  /** Tap `k` around frame `n` on channel `c`; before the start of the signal there is silence. */
  function Tap(f: Filter, x: seq<i16>, phase: nat, n: nat, c: nat, k: nat): real
    requires Supported(f) && c < f.channels && k < TAPS && Span(f, n + HALF + 1) <= |x|
  {
    var j := n - HALF + 1 + k;
    if j < 0 then 0.0 else f.coef(phase, k) * x[Span(f, j) + c] as real
  }

  /** The first `k` taps together. */
  function Taps(f: Filter, x: seq<i16>, phase: nat, n: nat, c: nat, k: nat): real
    requires Supported(f) && c < f.channels && k <= TAPS && Span(f, n + HALF + 1) <= |x|
  {
    if k == 0 then 0.0 else Taps(f, x, phase, n, c, k - 1) + Tap(f, x, phase, n, c, k - 1)
  }

  /** The rightmost tap of the output centred at `pos` has been fed. */
  predicate Producible(f: Filter, x: seq<i16>, pos: real) {
    pos.Floor + HALF < FramesIn(f, |x|)
  }

  function FrameAt(f: Filter, x: seq<i16>, pos: real): (frame: seq<i16>)
    requires Supported(f) && pos >= 0.0 && Producible(f, x, pos)
    ensures |frame| == f.channels
  {
    seq(f.channels, c requires 0 <= c < f.channels => f.quantize(Taps(f, x, Phase(pos), pos.Floor, c, TAPS)))
  }

  /** How many steps fit between `pos` and the last frame. */
  function Room(x: seq<i16>, step: real, pos: real): real
    requires step > 0.0
  {
    (|x| as real - pos) / step
  }

  lemma RoomShrinks(x: seq<i16>, step: real, pos: real)
    requires step > 0.0
    ensures Room(x, step, pos + step) == Room(x, step, pos) - 1.0
    ensures pos < |x| as real ==> Room(x, step, pos) > 0.0
  {
    var a := |x| as real - pos;
    assert (a - step) / step == a / step - step / step;
    if a > 0.0 { QuotientPositive(a, step); }
  }

  lemma QuotientPositive(a: real, b: real)
    requires a > 0.0 && b > 0.0
    ensures a / b > 0.0
  {
  }

  /** Everything the signal `x` determines from position `pos` on, and the position it leaves behind. */
  function Outputs(f: Filter, x: seq<i16>, step: real, pos: real): seq<i16>
    requires Supported(f) && step > 0.0 && pos >= 0.0
    decreases Room(x, step, pos)
  {
    if Producible(f, x, pos) then
      RoomShrinks(x, step, pos);
      FrameAt(f, x, pos) + Outputs(f, x, step, pos + step)
    else []
  }

  function Reached(f: Filter, x: seq<i16>, step: real, pos: real): (end: real)
    requires Supported(f) && step > 0.0 && pos >= 0.0
    ensures end >= pos && !Producible(f, x, end)
    decreases Room(x, step, pos)
  {
    if Producible(f, x, pos) then
      RoomShrinks(x, step, pos);
      Reached(f, x, step, pos + step)
    else pos
  }

  // ---- Chunk independence ----

  /** An output does not depend on what is fed after its last tap. */
  lemma {:induction false} TapsStay(f: Filter, x: seq<i16>, y: seq<i16>, phase: nat, n: nat, c: nat, k: nat)
    requires Supported(f) && c < f.channels && k <= TAPS && Span(f, n + HALF + 1) <= |x|
    ensures Taps(f, x + y, phase, n, c, k) == Taps(f, x, phase, n, c, k)
  {
    if k > 0 {
      TapsStay(f, x, y, phase, n, c, k - 1);
      TapStays(f, x, y, phase, n, c, k - 1);
    }
  }

  lemma TapStays(f: Filter, x: seq<i16>, y: seq<i16>, phase: nat, n: nat, c: nat, k: nat)
    requires Supported(f) && c < f.channels && k < TAPS && Span(f, n + HALF + 1) <= |x|
    ensures Tap(f, x + y, phase, n, c, k) == Tap(f, x, phase, n, c, k)
  {
    var j := n - HALF + 1 + k;
    if j >= 0 { assert (x + y)[Span(f, j) + c] == x[Span(f, j) + c]; }
  }

  lemma FrameStays(f: Filter, x: seq<i16>, y: seq<i16>, pos: real)
    requires Supported(f) && pos >= 0.0 && Producible(f, x, pos)
    ensures Producible(f, x + y, pos) && FrameAt(f, x + y, pos) == FrameAt(f, x, pos)
  {
    forall c | 0 <= c < f.channels ensures FrameAt(f, x + y, pos)[c] == FrameAt(f, x, pos)[c] {
      TapsStay(f, x, y, Phase(pos), pos.Floor, c, TAPS);
    }
  }

  /** Feeding `x` and then `y` produces what feeding both at once does, and ends at the same position. */
  lemma {:induction false} FeedTwice(f: Filter, x: seq<i16>, y: seq<i16>, step: real, pos: real)
    requires Supported(f) && step > 0.0 && pos >= 0.0
    ensures var mid := Reached(f, x, step, pos);
            && Outputs(f, x + y, step, pos) == Outputs(f, x, step, pos) + Outputs(f, x + y, step, mid)
            && Reached(f, x + y, step, pos) == Reached(f, x + y, step, mid)
    decreases Room(x, step, pos)
  {
    if Producible(f, x, pos) {
      RoomShrinks(x, step, pos);
      FrameStays(f, x, y, pos);
      FeedTwice(f, x, y, step, pos + step);
      var mid := Reached(f, x, step, pos);
      var a, b, c := FrameAt(f, x, pos), Outputs(f, x, step, pos + step), Outputs(f, x + y, step, mid);
      assert a + (b + c) == (a + b) + c;
    } else {
      assert [] + Outputs(f, x + y, step, pos) == Outputs(f, x + y, step, pos);
    }
  }

  /** What is put out while the chunks are fed one after the other, from a new resampler. */
  function Fed(f: Filter, chunks: seq<seq<i16>>, step: real): (r: (seq<i16>, real))
    requires Supported(f) && step > 0.0
    ensures r.1 >= 0.0
  {
    if chunks == [] then ([], 0.0)
    else
      var (out, pos) := Fed(f, chunks[..|chunks| - 1], step);
      var x := Flatten(chunks);
      (out + Outputs(f, x, step, pos), Reached(f, x, step, pos))
  }

  lemma {:induction false} FedIsWhole(f: Filter, chunks: seq<seq<i16>>, step: real)
    requires Supported(f) && step > 0.0
    ensures var x := Flatten(chunks); Fed(f, chunks, step) == (Outputs(f, x, step, 0.0), Reached(f, x, step, 0.0))
  {
    if chunks != [] {
      var front, last := chunks[..|chunks| - 1], chunks[|chunks| - 1];
      FedIsWhole(f, front, step);
      assert chunks == front + [last];
      FlattenSnoc(front, last);
      FeedTwice(f, Flatten(front), last, step, 0.0);
    }
  }

  /** Any two ways of cutting one signal give the same outputs and the same position. */
  lemma ChunkIndependence(f: Filter, a: seq<seq<i16>>, b: seq<seq<i16>>, step: real)
    requires Supported(f) && step > 0.0 && Flatten(a) == Flatten(b)
    ensures Fed(f, a, step) == Fed(f, b, step)
  {
    FedIsWhole(f, a, step);
    FedIsWhole(f, b, step);
  }

  // ---- How much is produced ----

  function Ceil(r: real): int {
    -((-r).Floor)
  }

  /** From `pos`, one frame for every step that stays short of the last 32 frames of the signal. */
  lemma {:induction false} OutputCount(f: Filter, x: seq<i16>, step: real, pos: real)
    requires Supported(f) && step > 0.0 && pos >= 0.0
    ensures var behind := (FramesIn(f, |x|) - HALF) as real - pos;
            |Outputs(f, x, step, pos)| == Span(f, if behind > 0.0 then Ceil(behind / step) else 0)
    decreases Room(x, step, pos)
  {
    var behind := (FramesIn(f, |x|) - HALF) as real - pos;
    assert Producible(f, x, pos) <==> behind > 0.0;
    if behind > 0.0 {
      RoomShrinks(x, step, pos);
      OutputCount(f, x, step, pos + step);
      QuotientStep(behind, step);
    }
  }

  lemma QuotientStep(a: real, b: real)
    requires a > 0.0 && b > 0.0
    ensures Ceil(a / b) == 1 + (if a - b > 0.0 then Ceil((a - b) / b) else 0)
    ensures Ceil(a / b) >= 1
  {
    LessOneStep(a, b);
    CeilSteps(a / b);
  }

  lemma LessOneStep(a: real, b: real)
    requires a > 0.0 && b > 0.0
    ensures (a - b) / b == a / b - 1.0 && a / b > 0.0
    ensures a - b > 0.0 <==> a / b > 1.0
  {
    var q := a / b;
    assert q * b == a;
    assert (a - b) / b == a / b - b / b;
    QuotientPositive(a, b);
    if q > 1.0 { assert (q - 1.0) * b > 0.0; }
    if q <= 1.0 { assert (1.0 - q) * b >= 0.0; }
  }

  lemma CeilSteps(q: real)
    ensures Ceil(q) == 1 + Ceil(q - 1.0)
    ensures q > 0.0 ==> Ceil(q) >= 1
    ensures 0.0 < q <= 1.0 ==> Ceil(q) == 1
  {
    assert -(q - 1.0) == -q + 1.0;
  }

  /** After `T` frames exactly ⌈(T - 32) / step⌉ frames are out, none before the 33rd. */
  lemma ExactCount(f: Filter, chunks: seq<seq<i16>>, step: real)
    requires Supported(f) && step > 0.0
    ensures var fed := FramesIn(f, |Flatten(chunks)|);
            |Fed(f, chunks, step).0| == Span(f, if fed > HALF then Ceil((fed - HALF) as real / step) else 0)
  {
    FedIsWhole(f, chunks, step);
    OutputCount(f, Flatten(chunks), step, 0.0);
  }

  /** A history that starts 32 frames behind the centre or earlier has every tap, where the signal has it. */
  lemma InHistory(f: Filter, x: seq<i16>, first: nat, hist: seq<i16>, phase: nat, n: nat, c: nat, k: nat)
    requires Supported(f) && c < f.channels && k < TAPS && Span(f, n + HALF + 1) <= |x|
    requires Span(f, first) <= |x| && hist == x[Span(f, first)..] && first <= Max(0, n - HALF)
    requires n - HALF + 1 + k >= 0
    ensures var j := n - HALF + 1 + k;
            && j >= first && Span(f, j - first) + c < |hist|
            && f.coef(phase, k) * hist[Span(f, j - first) + c] as real == Tap(f, x, phase, n, c, k)
  {
    var j := n - HALF + 1 + k;
    assert hist[Span(f, j - first) + c] == x[Span(f, j) + c];
  }

  lemma OneMore(f: Filter, x: seq<i16>, step: real, pos: real, out: seq<i16>)
    requires Supported(f) && step > 0.0 && pos >= 0.0 && Producible(f, x, pos)
    ensures out + Outputs(f, x, step, pos) == (out + FrameAt(f, x, pos)) + Outputs(f, x, step, pos + step)
    ensures Reached(f, x, step, pos) == Reached(f, x, step, pos + step)
  {
    RoomShrinks(x, step, pos);
    var frame, rest := FrameAt(f, x, pos), Outputs(f, x, step, pos + step);
    assert out + (frame + rest) == (out + frame) + rest;
  }

  lemma NothingLeft(f: Filter, x: seq<i16>, step: real, pos: real)
    requires Supported(f) && step > 0.0 && pos >= 0.0 && !Producible(f, x, pos)
    ensures Outputs(f, x, step, pos) == [] && Reached(f, x, step, pos) == pos
  {
  }

  // ---- The resampler, updated in place ----

  /** Input frames per output frame. */
  function RateRatio(inputRate: u32, outputRate: u32): real
    requires outputRate > 0
  {
    inputRate as real / outputRate as real
  }

  lemma RatesGiveRatio(inputRate: u32, outputRate: u32)
    requires inputRate > 0 && outputRate > 0
    ensures RateRatio(inputRate, outputRate) > 0.0
    ensures inputRate == outputRate ==> RateRatio(inputRate, outputRate) == 1.0
  {
    QuotientPositive(inputRate as real, outputRate as real);
    SelfQuotient(outputRate as real);
  }

  lemma SelfQuotient(d: real)
    requires d > 0.0
    ensures d / d == 1.0
  {
  }

  lemma FloorMonotone(a: real, b: real)
    requires a <= b
    ensures a.Floor <= b.Floor
  {
  }

  /** Where the history starts after trimming for the centre `pos`, which follows a producible centre `before`. */
  lemma TrimmedStart(first: nat, total: nat, before: real, pos: real, widest: real)
    requires 0.0 <= before <= pos <= before + widest
    requires first <= total && first <= Max(0, before.Floor - HALF) && before.Floor + HALF < total
    ensures var keepFrom := Max(pos.Floor - HALF, 0);
            var start := if keepFrom > first then Min(keepFrom, total) else first;
            && first <= start <= total && start <= keepFrom
            && (start >= pos.Floor - HALF || start > (pos - widest).Floor + HALF)
  {
    FloorMonotone(before, pos);
    FloorMonotone(pos - widest, before);
  }

  datatype ResampleError = ZeroRateOrChannels

  class ResamplerI16 {
    var inputRate: u32
    var outputRate: u32
    const filter: Filter
    /** Input frames per output frame. */
    var step: real
    /** Centre of the next output, in input frames. */
    var pos: real
    /** Recent samples, interleaved; the originals are converted to reals without loss. */
    var hist: seq<i16>
    var totalFrames: nat
    /** Never holds anything between calls. */
    var pending: seq<i16>
    /** The whole signal fed so far, the frame `hist` starts at, and the widest step ever in force. */
    ghost var fed: seq<i16>
    ghost var first: nat
    ghost var widest: real

    /** The history is the end of the signal, and reaches back to every sample that an output may still read. */
    ghost predicate Held()
      reads this
    {
      && Supported(filter) && 0.0 < step <= widest && pos >= 0.0 && pending == []
      && first <= totalFrames && |fed| == Span(filter, totalFrames) && hist == fed[Span(filter, first)..]
      && first <= Max(0, pos.Floor - HALF)
      && (first >= pos.Floor - HALF || first > (pos - widest).Floor + HALF)
    }

    /** Between calls nothing more can be produced. */
    ghost predicate Valid()
      reads this
    {
      Held() && !Producible(filter, fed, pos)
    }

    constructor (filter: Filter, inputRate: u32, outputRate: u32)
      requires inputRate > 0 && outputRate > 0
      ensures Supported(filter) ==> Valid()
      ensures fed == [] && pos == 0.0 && step == widest == RateRatio(inputRate, outputRate)
      ensures this.filter == filter
    {
      RatesGiveRatio(inputRate, outputRate);
      this.filter := filter;
      this.inputRate, this.outputRate := inputRate, outputRate;
      step := RateRatio(inputRate, outputRate);
      pos, hist, totalFrames, pending := 0.0, [], 0, [];
      fed, first, widest := [], 0, RateRatio(inputRate, outputRate);
    }

    /** Zero rates and zero channels are refused. Any other number of channels is taken, but only one or two work. */
    static method New(filter: Filter, inputRate: u32, outputRate: u32) returns (r: Result<ResamplerI16, ResampleError>)
      ensures r.Ok? <==> inputRate > 0 && outputRate > 0 && filter.channels > 0
      ensures r.Ok? ==> fresh(r.value) && r.value.fed == [] && r.value.filter == filter
      ensures r.Ok? ==> r.value.step == RateRatio(inputRate, outputRate)
      ensures r.Ok? && Supported(filter) ==> r.value.Valid()
    {
      if inputRate == 0 || outputRate == 0 || filter.channels == 0 {
        return Err(ZeroRateOrChannels);
      }
      var resampler := new ResamplerI16(filter, inputRate, outputRate);
      return Ok(resampler);
    }

    /** Appends to `out` what the whole signal determines; the history left behind is bounded. */
    method Process(input: seq<i16>, out: seq<i16>) returns (grown: seq<i16>)
      requires Valid() && |input| % filter.channels == 0
      modifies this
      ensures Valid() && fed == old(fed) + input && step == old(step) && widest == old(widest)
      ensures grown == out + Outputs(filter, fed, step, old(pos)) && pos == Reached(filter, fed, step, old(pos))
      ensures |hist| <= Span(filter, Max(TAPS, widest.Floor))
    {
      if input == [] && pending == [] {
        assert fed + input == fed;
        HistoryBound();
        return out;
      }
      var buf := pending + input;
      var frames := |buf| / filter.channels;
      for i := 0 to frames
        invariant unchanged(this`pos, this`step, this`totalFrames, this`pending, this`fed, this`first, this`widest)
        invariant hist == old(hist) + input[..Span(filter, i)]
      {
        for c := 0 to filter.channels
          invariant unchanged(this`pos, this`step, this`totalFrames, this`pending, this`fed, this`first, this`widest)
          invariant hist == old(hist) + input[..Span(filter, i) + c]
        {
          hist := hist + [buf[Span(filter, i) + c]];
        }
      }
      totalFrames := totalFrames + frames;
      fed := fed + input;
      grown := ProduceAll(out);
      pending := [];
    }

    method ProduceAll(out: seq<i16>) returns (grown: seq<i16>)
      requires Held()
      modifies this`pos, this`hist, this`first
      ensures Valid()
      ensures grown == out + Outputs(filter, fed, step, old(pos)) && pos == Reached(filter, fed, step, old(pos))
      ensures |hist| <= Span(filter, Max(TAPS, widest.Floor))
    {
      hide Room, Taps, Phase, Outputs, Reached, FrameAt;
      grown := out;
      while CanProduce()
        invariant Held() && pos >= old(pos)
        invariant grown + Outputs(filter, fed, step, pos) == out + Outputs(filter, fed, step, old(pos))
        invariant Reached(filter, fed, step, pos) == Reached(filter, fed, step, old(pos))
        decreases Room(fed, step, pos)
      {
        RoomShrinks(fed, step, pos);
        OneMore(filter, fed, step, pos, grown);
        grown := ProduceOne(grown);
      }
      NothingLeft(filter, fed, step, pos);
      HistoryBound();
    }

    method ProduceOne(out: seq<i16>) returns (grown: seq<i16>)
      requires Held() && Producible(filter, fed, pos)
      modifies this`pos, this`hist, this`first
      ensures Held() && pos == old(pos) + step
      ensures grown == out + FrameAt(filter, fed, old(pos))
    {
      hide Phase, Taps;
      grown := EmitOne(out);
      pos := pos + step;
      TrimHistory(pos - step);
    }

    predicate CanProduce()
      requires Held()
      reads this
      ensures CanProduce() <==> Producible(filter, fed, pos)
    {
      pos.Floor + HALF < totalFrames
    }

    /** No sample that a later output reads is dropped: what goes lies 32 frames or more behind the next centre. */
    method TrimHistory(ghost before: real)
      requires Supported(filter) && 0.0 < step <= widest && 0.0 <= before && pos == before + step && pending == []
      requires first <= totalFrames && |fed| == Span(filter, totalFrames) && hist == fed[Span(filter, first)..]
      requires first <= Max(0, before.Floor - HALF) && Producible(filter, fed, before)
      modifies this`hist, this`first
      ensures Held()
    {
      TrimmedStart(first, totalFrames, before, pos, widest);
      var keepFrom := Max(pos.Floor - HALF, 0);
      var held := FramesIn(filter, |hist|);
      var start := if totalFrames >= held then totalFrames - held else 0;
      var drop := if keepFrom >= start then keepFrom - start else 0;
      if drop > 0 {
        var samples := Min(Span(filter, drop), |hist|);
        PopFront(samples);
        first := Min(keepFrom, totalFrames);
      }
    }

    method PopFront(samples: nat)
      requires samples <= |hist|
      modifies this`hist
      ensures hist == old(hist)[samples..]
    {
      for i := 0 to samples
        invariant hist == old(hist)[i..]
      {
        hist := hist[1..];
      }
    }

    method EmitOne(out: seq<i16>) returns (grown: seq<i16>)
      requires Held() && Producible(filter, fed, pos)
      ensures grown == out + FrameAt(filter, fed, pos)
    {
      var n := pos.Floor;
      var phi := pos - n as real;
      var phase := Min((phi * PHASES as real + 0.5).Floor, PHASES - 1);
      assert phase == Phase(pos);
      grown := out;
      for c := 0 to filter.channels
        invariant grown == out + FrameAt(filter, fed, pos)[..c]
      {
        var acc := Convolve(n, phase, c);
        grown := grown + [filter.quantize(acc)];
      }
    }

    method Convolve(n: nat, phase: nat, c: nat) returns (acc: real)
      requires Held() && n == pos.Floor && Producible(filter, fed, pos) && c < filter.channels
      ensures acc == Taps(filter, fed, phase, n, c, TAPS)
    {
      var start := totalFrames - FramesIn(filter, |hist|);
      assert start == first;
      assert Span(filter, n + HALF + 1) <= |fed|;
      acc := 0.0;
      for k := 0 to TAPS
        invariant acc == Taps(filter, fed, phase, n, c, k)
      {
        var j := n - HALF + 1 + k;
        if j >= 0 {
          InHistory(filter, fed, start, hist, phase, n, c, k);
          acc := acc + filter.coef(phase, k) * hist[Span(filter, j - start) + c] as real;
        }
      }
    }

    lemma HistoryBound()
      requires Valid()
      ensures |hist| <= Span(filter, Max(TAPS, widest.Floor))
    {
    }

    /** Nothing is left to produce at the end of the stream; the state starts over. */
    method Flush(out: seq<i16>) returns (grown: seq<i16>)
      requires Valid()
      modifies this
      ensures grown == out
      ensures Valid() && fed == [] && pos == 0.0 && step == old(step) && widest == old(widest)
    {
      hide Outputs, Reached;
      NothingLeft(filter, fed, step, pos);
      grown := ProduceAll(out);
      Clear();
    }

    method Clear()
      requires Supported(filter) && 0.0 < step <= widest
      modifies this`pos, this`hist, this`totalFrames, this`pending, this`fed, this`first
      ensures Valid() && fed == [] && pos == 0.0
    {
      pos, hist, totalFrames, pending := 0.0, [], 0, [];
      fed, first := [], 0;
      assert pos.Floor == 0;
    }

    /** A new ratio leaves the signal and the position where they are. */
    method SetRatio(ratio: real)
      requires Valid() && ratio > 0.0
      modifies this`step, this`widest
      ensures Valid() && step == ratio
    {
      step := ratio;
      if ratio > widest {
        widest := ratio;
      }
    }

    method Retune(inputRate: u32, outputRate: u32) returns (r: Result<(), ResampleError>)
      requires Valid()
      modifies this`step, this`widest, this`inputRate, this`outputRate
      ensures Valid()
      ensures r.Ok? <==> inputRate > 0 && outputRate > 0
      ensures if r.Ok?
              then && step == RateRatio(inputRate, outputRate)
                   && this.inputRate == inputRate && this.outputRate == outputRate
              else && step == old(step)
                   && this.inputRate == old(this.inputRate) && this.outputRate == old(this.outputRate)
    {
      if inputRate == 0 || outputRate == 0 {
        return Err(ZeroRateOrChannels);
      }
      RatesGiveRatio(inputRate, outputRate);
      this.inputRate, this.outputRate := inputRate, outputRate;
      SetRatio(RateRatio(inputRate, outputRate));
      return Ok(());
    }
  }
}
