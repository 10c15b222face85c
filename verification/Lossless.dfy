/** The end-to-end theorem for lanes that lose nothing: any lossless codec, raw 16-bit PCM, and raw 24-bit PCM. */
module Lossless {
  import opened Prelude
  import opened Frames
  import opened Pcm
  import opened Emitter
  import opened Sink
  import opened EndToEnd
  import J = Jitter

  // ---- Any lossless codec ----

  /** The codec gives back the samples of the block, within the payload cap. */
  ghost predicate LosslessOn(lane: Lane, block: seq<byte>)
    requires Built(lane.repr)
  {
    var pcm := SamplesOf(WireWidth(lane.repr), block);
    && lane.encode(pcm).Ok? && |lane.encode(pcm).value| <= MAX_FRAME_PAYLOAD
    && lane.decode(lane.encode(pcm).value) == Ok(pcm)
  }

  /** Then the render device gets exactly the bytes of the block. */
  lemma HeardExactly(lane: Lane, k: nat, block: seq<byte>)
    requires Driven(lane) && |block| == WholeBytes(lane) && LosslessOn(lane, block)
    ensures Playable(lane, k, block) && Heard(lane, k, block) == block
  {
    BytesRoundTrip(WireWidth(lane.repr), block, ValuesPerFrame(lane));
  }

  lemma AllHeardExactly(lane: Lane, blocks: seq<seq<byte>>)
    requires Driven(lane) && (forall b <- blocks :: |b| == WholeBytes(lane) && LosslessOn(lane, b))
    ensures AllPlayable(lane, blocks) && HeardAll(lane, blocks) == blocks
  {
    hide Playable, Heard, LosslessOn;
    forall k | 0 <= k < |blocks| ensures Playable(lane, k, blocks[k]) && Heard(lane, k, blocks[k]) == blocks[k] {
      assert blocks[k] in blocks;
      HeardExactly(lane, k, blocks[k]);
    }
  }

  lemma SizeGrows(m: nat, n: nat, size: nat)
    requires m < n && size > 0
    ensures SizeOf(m, size) < SizeOf(n, size)
    decreases n
  {
    if m < n - 1 { SizeGrows(m, n - 1, size); }
  }

  /** Blocks that all sound as long as they are: the rendered bytes are what the blocks sound like only without loss. */
  lemma HeardOnlyWithoutLoss(lane: Lane, profile: J.Profile, blocks: seq<seq<byte>>, order: seq<nat>, size: nat)
    requires Built(lane.repr) && AllPlayable(lane, blocks) && Covers(order, |blocks|) && |blocks| < U64_LIMIT
    requires size > 0 && forall b <- HeardAll(lane, blocks) :: |b| == size
    ensures var end := AtTheEnd(lane, profile, blocks, order);
            |end.rendered| == SizeOf(|blocks|, size) <==> WellOrdered(profile, order)
  {
    hide AtTheEnd, AllPlayable, HeardAll, WellOrdered;
    var packets := AtTheEnd(lane, profile, blocks, order).packetsRecv;
    DeliveryExact(lane, profile, blocks, order);
    DeliverySize(lane, profile, blocks, order, size);
    if packets < |blocks| { SizeGrows(packets, |blocks|, size); }
  }

  /**
   End-to-end losslessness: whatever blocks the capture is split into, with a codec that is lossless on every whole
   frame, a delivery of all N frames counts no loss, and renders the first N whole frames of the capture, if and only
   if it is well ordered.
   */
  lemma CaptureIsRendered(lane: Lane, profile: J.Profile, captured: seq<seq<byte>>, order: seq<nat>)
    requires Driven(lane)
    requires var blocks := Blocks(Flatten(captured), WholeBytes(lane));
             (forall b <- blocks :: LosslessOn(lane, b)) && |blocks| < U64_LIMIT && Covers(order, |blocks|)
    ensures var x := Flatten(captured);
            var whole := WholeBytes(lane);
            var blocks := Blocks(x, whole);
            var n := |blocks|;
            var end := AtTheEnd(lane, profile, blocks, order);
            && SizeOf(n, whole) <= |x| < SizeOf(n, whole) + whole && Packable(lane, blocks)
            && end.loss == n - end.packetsRecv
            && (end.loss == 0 <==> WellOrdered(profile, order))
            && (end.rendered == x[..SizeOf(n, whole)] <==> WellOrdered(profile, order))
  {
    hide LosslessOn, WellOrdered, AtTheEnd, WholeBytes, HeardAll, Playable;
    var x := Flatten(captured);
    var blocks := Blocks(x, WholeBytes(lane));
    AllHeardExactly(lane, blocks);
    DeliveryExact(lane, profile, blocks, order);
    HeardOnlyWithoutLoss(lane, profile, blocks, order, WholeBytes(lane));
    BlocksAndRest(x, WholeBytes(lane));
    FlattenSize(blocks, WholeBytes(lane));
    PlayableIsPackable(lane, blocks);
  }

  lemma PlayableIsPackable(lane: Lane, blocks: seq<seq<byte>>)
    requires Built(lane.repr) && AllPlayable(lane, blocks)
    ensures Packable(lane, blocks)
  {
    forall k | 0 <= k < |blocks| ensures PackedBlock(lane, k, blocks[k]).Ok? { assert Playable(lane, k, blocks[k]); }
  }

  // ---- Raw PCM ----

  /** The raw PCM lane that the sink plans for a captured rate. */
  function PcmLane(rate: u32, repr: SampleRepr): (lane: Lane)
    requires Built(repr) && WirePlan(Frames.Pcm, rate).Ok?
    ensures Driven(lane) && lane.repr == repr
  {
    var plan := WirePlan(Frames.Pcm, rate).value;
    Lane(Frames.Pcm, plan.wireRate, repr, plan.frameSamples,
         pcm => EncodePcm(SIM_CHANNELS, repr, pcm), bytes => DecodePcm(SIM_CHANNELS, repr, bytes))
  }

  /**
   Every plan of a lossless codec keeps the captured rate, does not resample, and has frames whose raw samples fit the
   payload cap in either format, sealing tag included.
   */
  lemma PlannedFrameFits(codec: Codec, rate: u32, repr: SampleRepr)
    requires codec != Opus && WirePlan(codec, rate).Ok? && Built(repr)
    ensures var plan := WirePlan(codec, rate).value;
            && plan.wireRate == rate && !plan.resampled
            && 0 < SizeOf(SIM_CHANNELS * plan.frameSamples, WireWidth(repr)) <= MAX_FRAME_PAYLOAD - 16
  {
    SizeOfLinear(1024);
  }

  /** What the lane takes from the plan. */
  lemma PlannedLane(rate: u32, repr: SampleRepr)
    requires Built(repr) && WirePlan(Frames.Pcm, rate).Ok?
    ensures var lane := PcmLane(rate, repr);
            && lane.codec == Frames.Pcm && lane.sampleRate == rate
            && ValuesPerFrame(lane) == 1024 && WholeBytes(lane) <= MAX_FRAME_PAYLOAD
  {
    PlannedFrameFits(Frames.Pcm, rate, repr);
  }

  lemma PcmCodes(rate: u32, repr: SampleRepr, pcm: seq<int>, bytes: seq<byte>)
    requires Built(repr) && WirePlan(Frames.Pcm, rate).Ok?
    ensures PcmLane(rate, repr).encode(pcm) == EncodePcm(SIM_CHANNELS, repr, pcm)
    ensures PcmLane(rate, repr).decode(bytes) == DecodePcm(SIM_CHANNELS, repr, bytes)
  {
    hide EncodePcm, DecodePcm;
  }

  /** A payload within the cap packs. */
  lemma SmallPayloadPacks(lane: Lane, k: nat, block: seq<byte>)
    requires Built(lane.repr)
    requires var r := lane.encode(SamplesOf(WireWidth(lane.repr), block)); r.Ok? && |r.value| <= MAX_FRAME_PAYLOAD
    ensures PackedBlock(lane, k, block).Ok?
  {
    hide SamplesOf;
  }

  /** Every block can be sent over raw PCM, and what is heard differs exactly if a sample had to be clamped. */
  lemma PcmHeard(rate: u32, repr: SampleRepr, k: nat, block: seq<byte>)
    requires Built(repr) && WirePlan(Frames.Pcm, rate).Ok? && |block| == WholeBytes(PcmLane(rate, repr))
    ensures var lane := PcmLane(rate, repr);
            && Playable(lane, k, block) && |Heard(lane, k, block)| == |block|
            && (Heard(lane, k, block) == block <==> Unclamped(repr, SamplesOf(WireWidth(repr), block)))
  {
    hide EncodePcm, DecodePcm, SamplesOf, BytesOf, ClampAll, InRange, Unclamped, PackedBlock, SizeOf, PcmLane;
    var lane, w := PcmLane(rate, repr), WireWidth(repr);
    var pcm := SamplesOf(w, block);
    PlannedLane(rate, repr);
    BytesRoundTrip(w, block, 1024);
    SamplesInRange(w, block);
    AdapterRoundTrip(SIM_CHANNELS, repr, pcm);
    var encoded := EncodePcm(SIM_CHANNELS, repr, pcm).value;
    PcmCodes(rate, repr, pcm, encoded);
    SmallPayloadPacks(lane, k, block);
    ClampKeeps(repr, pcm);
    ClampHeard(w, pcm, ClampAll(repr, pcm));
  }

  /** The raw lane is lossless on a block exactly when no sample of it has to be clamped. */
  lemma PcmLosslessExactly(rate: u32, repr: SampleRepr, block: seq<byte>)
    requires Built(repr) && WirePlan(Frames.Pcm, rate).Ok? && |block| == WholeBytes(PcmLane(rate, repr))
    ensures LosslessOn(PcmLane(rate, repr), block) <==> Unclamped(repr, SamplesOf(WireWidth(repr), block))
  {
    hide EncodePcm, DecodePcm, SamplesOf, ClampAll, InRange, Unclamped, SizeOf, PcmLane;
    var w := WireWidth(repr);
    var pcm := SamplesOf(w, block);
    PlannedLane(rate, repr);
    BytesRoundTrip(w, block, 1024);
    SamplesInRange(w, block);
    AdapterRoundTrip(SIM_CHANNELS, repr, pcm);
    PcmCodes(rate, repr, pcm, EncodePcm(SIM_CHANNELS, repr, pcm).value);
  }

  /** Samples in range are told apart by their bytes. */
  lemma ClampHeard(w: nat, pcm: seq<int>, clamped: seq<int>)
    requires w > 0 && |pcm| == |clamped| && InRange(w, pcm) && InRange(w, clamped)
    ensures |BytesOf(w, clamped)| == |BytesOf(w, pcm)|
    ensures BytesOf(w, clamped) == BytesOf(w, pcm) <==> clamped == pcm
  {
    SamplesRoundTrip(w, pcm);
    SamplesRoundTrip(w, clamped);
    BytesSize(w, pcm);
    BytesSize(w, clamped);
  }

  lemma PcmPlayable(rate: u32, repr: SampleRepr, blocks: seq<seq<byte>>)
    requires Built(repr) && WirePlan(Frames.Pcm, rate).Ok?
    requires forall b <- blocks :: |b| == WholeBytes(PcmLane(rate, repr))
    ensures var lane := PcmLane(rate, repr);
            AllPlayable(lane, blocks) && forall b <- HeardAll(lane, blocks) :: |b| == WholeBytes(lane)
  {
    hide Playable, PcmLane, Heard;
    var lane := PcmLane(rate, repr);
    forall k | 0 <= k < |blocks| ensures Playable(lane, k, blocks[k]) && |Heard(lane, k, blocks[k])| == |blocks[k]| {
      assert blocks[k] in blocks;
      PcmHeard(rate, repr, k, blocks[k]);
    }
  }

  /** No sample of any block is the lowest 24-bit value, or the samples have 16 bits. */
  ghost predicate Faithful(repr: SampleRepr, blocks: seq<seq<byte>>)
    requires Built(repr)
  {
    forall b <- blocks :: Unclamped(repr, SamplesOf(WireWidth(repr), b))
  }

  lemma SameBlocks(a: seq<seq<byte>>, b: seq<seq<byte>>, size: nat)
    requires size > 0 && |a| == |b| && forall k | 0 <= k < |a| :: |a[k]| == size == |b[k]|
    ensures Flatten(a) == Flatten(b) <==> forall k | 0 <= k < |a| :: a[k] == b[k]
  {
    if Flatten(a) == Flatten(b) {
      BlocksPrefix(a, b, size);
    } else {
      assert a != b;
    }
  }

  lemma HeardFaithfully(rate: u32, repr: SampleRepr, blocks: seq<seq<byte>>)
    requires Built(repr) && WirePlan(Frames.Pcm, rate).Ok?
    requires forall b <- blocks :: |b| == WholeBytes(PcmLane(rate, repr))
    requires AllPlayable(PcmLane(rate, repr), blocks)
    ensures Flatten(HeardAll(PcmLane(rate, repr), blocks)) == Flatten(blocks) <==> Faithful(repr, blocks)
  {
    hide Playable, PcmLane, Heard, WholeBytes, Unclamped, SamplesOf;
    var lane := PcmLane(rate, repr);
    var heard := HeardAll(lane, blocks);
    forall k | 0 <= k < |blocks|
      ensures |heard[k]| == WholeBytes(lane) == |blocks[k]|
      ensures heard[k] == blocks[k] <==> Unclamped(repr, SamplesOf(WireWidth(repr), blocks[k]))
    {
      assert blocks[k] in blocks;
      PcmHeard(rate, repr, k, blocks[k]);
    }
    SameBlocks(heard, blocks, WholeBytes(lane));
    if Faithful(repr, blocks) {
      assert forall k | 0 <= k < |blocks| :: blocks[k] in blocks;
    }
  }

  /**
   Raw PCM end to end, over every planned rate, every capture and every delivery of all frames: no loss if and only if
   the delivery is well ordered; and the render device gets the captured bytes if and only if, moreover, no captured
   sample is the lowest 24-bit value.
   */
  lemma PcmEndToEnd(rate: u32, repr: SampleRepr, profile: J.Profile, captured: seq<seq<byte>>, order: seq<nat>)
    requires Built(repr) && WirePlan(Frames.Pcm, rate).Ok?
    requires var blocks := Blocks(Flatten(captured), WholeBytes(PcmLane(rate, repr)));
             |blocks| < U64_LIMIT && Covers(order, |blocks|)
    ensures var lane := PcmLane(rate, repr);
            var blocks := Blocks(Flatten(captured), WholeBytes(lane));
            var end := AtTheEnd(lane, profile, blocks, order);
            && lane.sampleRate == rate && Packable(lane, blocks)
            && end.loss == |blocks| - end.packetsRecv
            && (end.loss == 0 <==> WellOrdered(profile, order))
            && (end.rendered == Flatten(blocks) <==> WellOrdered(profile, order) && Faithful(repr, blocks))
            && (repr == I16 ==> Faithful(repr, blocks))
  {
    hide PcmLane, WellOrdered, AtTheEnd, WholeBytes, AllPlayable, HeardAll, Packable;
    var lane := PcmLane(rate, repr);
    var whole := WholeBytes(lane);
    var blocks := Blocks(Flatten(captured), whole);
    PlannedLane(rate, repr);
    PcmPlayable(rate, repr, blocks);
    PlayableIsPackable(lane, blocks);
    DeliveryExact(lane, profile, blocks, order);
    HeardOnlyWithoutLoss(lane, profile, blocks, order, whole);
    HeardFaithfully(rate, repr, blocks);
    FlattenSize(blocks, whole);
  }
}
