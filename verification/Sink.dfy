/** The capture sink: blocks of any size are re-cut into whole frames, which are numbered and sent in order. */
module Sink {
  import opened Prelude
  import opened Crc32
  import opened Frames
  import opened Framing
  import opened Pcm
  import opened Emitter

  datatype SinkError = BadFormat | Emitting(error: EmitterError)

  datatype Plan = Plan(wireRate: u32, frameSamples: u32, resampled: bool)

  /** The wire rate and frame size for a captured rate. */
  function WirePlan(codec: Codec, rate: u32): Result<Plan, SinkError> {
    if codec == Opus then
      if rate == 48000 then Ok(Plan(48000, 960, false))
      else if rate == 44100 then Ok(Plan(44100, 882, false))
      else if rate > 48000 then Err(BadFormat)
      else Ok(Plan(48000, 960, true))
    else if 8000 <= rate <= 192000 then Ok(Plan(rate, 512, false))
    else Err(BadFormat)
  }

  /**
   A plan exists for Opus up to 48 kHz and for lossless lanes from 8 to 192 kHz. Opus frames always last 20 ms and
   their rate is 44.1 or 48 kHz; a lossless lane keeps its rate in frames of 512 samples. A change of rate is what
   resampling is.
   */
  lemma WirePlanExactly(codec: Codec, rate: u32)
    ensures WirePlan(codec, rate).Ok? <==> if codec == Opus then rate <= 48000 else 8000 <= rate <= 192000
    ensures WirePlan(codec, rate).Ok? ==>
              var plan := WirePlan(codec, rate).value;
              && (plan.resampled <==> plan.wireRate != rate)
              && (if codec == Opus
                  then 50 * plan.frameSamples == plan.wireRate && (plan.wireRate == 44100 <==> rate == 44100)
                       && (plan.wireRate == 48000 <==> rate != 44100)
                  else plan.wireRate == rate && plan.frameSamples == 512)
  {
  }

  // ---- Re-cutting ----

  /** The whole blocks at the front of `x`. */
  function Blocks(x: seq<byte>, whole: nat): (blocks: seq<seq<byte>>)
    requires whole > 0
    ensures forall b <- blocks :: |b| == whole
    decreases |x|
  {
    if |x| < whole then [] else [x[..whole]] + Blocks(x[whole..], whole)
  }

  /** What is left behind them. */
  function Rest(x: seq<byte>, whole: nat): (rest: seq<byte>)
    requires whole > 0
    ensures |rest| < whole
    decreases |x|
  {
    if |x| < whole then x else Rest(x[whole..], whole)
  }

  /** Nothing is lost and nothing is moved: the blocks and the rest are the input. */
  lemma {:induction false} BlocksAndRest(x: seq<byte>, whole: nat)
    requires whole > 0
    ensures x == Flatten(Blocks(x, whole)) + Rest(x, whole)
    decreases |x|
  {
    if |x| >= whole {
      BlocksAndRest(x[whole..], whole);
      var blocks := Blocks(x, whole);
      assert blocks[0] == x[..whole] && blocks[1..] == Blocks(x[whole..], whole);
      assert x == x[..whole] + x[whole..];
    }
  }

  /** Cutting a longer input continues where cutting its front stopped. */
  lemma {:induction false} CutResumes(x: seq<byte>, y: seq<byte>, whole: nat)
    requires whole > 0
    ensures Blocks(x + y, whole) == Blocks(x, whole) + Blocks(Rest(x, whole) + y, whole)
    ensures Rest(x + y, whole) == Rest(Rest(x, whole) + y, whole)
    decreases |x|
  {
    hide Blocks, Rest;
    if |x| >= whole {
      var head, tail := x[..whole], x[whole..];
      CutResumes(tail, y, whole);
      assert (x + y)[..whole] == head && (x + y)[whole..] == tail + y;
      CutFirst(x, whole);
      CutFirst(x + y, whole);
      var front, back := Blocks(tail, whole), Blocks(Rest(tail, whole) + y, whole);
      assert [head] + (front + back) == ([head] + front) + back;
    } else {
      NothingToCut(x, whole);
      assert [] + Blocks(x + y, whole) == Blocks(x + y, whole);
    }
  }

  lemma CutFirst(x: seq<byte>, whole: nat)
    requires 0 < whole <= |x|
    ensures Blocks(x, whole) == [x[..whole]] + Blocks(x[whole..], whole)
    ensures Rest(x, whole) == Rest(x[whole..], whole)
  {
  }

  lemma NothingToCut(x: seq<byte>, whole: nat)
    requires |x| < whole
    ensures Blocks(x, whole) == [] && Rest(x, whole) == x
  {
  }

  lemma {:induction false} FlattenSize(blocks: seq<seq<byte>>, whole: nat)
    requires forall b <- blocks :: |b| == whole
    ensures |Flatten(blocks)| == SizeOf(|blocks|, whole)
  {
    if blocks != [] { FlattenSize(blocks[1..], whole); }
  }

  // ---- What goes on the wire ----

  predicate Driven(lane: Lane) {
    Built(lane.repr) && lane.frameSamples > 0
  }

  /** The bytes of one whole frame. */
  function WholeBytes(lane: Lane): (n: nat)
    requires Driven(lane)
    ensures n > 0
  {
    SizeOf(ValuesPerFrame(lane), WireWidth(lane.repr))
  }

  /** One block as the packed frame number `k`, with numbers wrapping at 64 bits. */
  function PackedBlock(lane: Lane, k: nat, block: seq<byte>): Result<seq<byte>, EmitterError>
    requires Built(lane.repr)
  {
    FramePayload(lane, k % U64_LIMIT, SamplesOf(WireWidth(lane.repr), block))
  }

  /** The lane can encode every block within the payload cap. */
  ghost predicate Packable(lane: Lane, blocks: seq<seq<byte>>)
    requires Built(lane.repr)
  {
    forall k | 0 <= k < |blocks| :: PackedBlock(lane, k, blocks[k]).Ok?
  }

  /** The packed frames of packable blocks. */
  function WireOf(lane: Lane, blocks: seq<seq<byte>>): (wire: seq<seq<byte>>)
    requires Built(lane.repr)
    ensures |wire| == |blocks|
  {
    seq(|blocks|, k requires 0 <= k < |blocks| =>
      var packed := PackedBlock(lane, k, blocks[k]); if packed.Ok? then packed.value else [])
  }

  // ---- What a receiver finds on the wire ----

  /** A frame of the lane, number `k` of its stream, that starts `k` frames of samples into it. */
  predicate Describes(lane: Lane, k: nat, payload: seq<byte>, f: Frame) {
    && f.version == 1 && f.streamId == 7 && f.seqNo == k
    && (k * lane.frameSamples < U64_LIMIT ==> f.mediaTs == k * lane.frameSamples)
    && f.codec == lane.codec && f.sampleRate == lane.sampleRate && f.sampleRepr == lane.repr
    && f.channelLayout == Stereo && f.frameSampleCount == lane.frameSamples
    && f.flags == FrameFlags(false, false, 0) && f.payload == payload
    && (if lane.codec == Opus then f.integrity == NoIntegrity && f.frameIntegrity == NoCheck
        else && f.integrity == Crc32Integrity && f.frameIntegrity.CrcCheck?
             && f.frameIntegrity.crc == Checksum(payload))
  }

  /** Item `k` of the wire parses to the frame of block `k`, with its place in the stream and the format of the lane. */
  lemma WireDescribes(lane: Lane, blocks: seq<seq<byte>>, k: nat)
    requires Built(lane.repr) && Packable(lane, blocks) && k < |blocks| < U64_LIMIT
    ensures var item := Parse(WireOf(lane, blocks)[k]);
            var payload := lane.encode(SamplesOf(WireWidth(lane.repr), blocks[k]));
            item.Ok? && item.value.Audio? && payload.Ok? && Describes(lane, k, payload.value, item.value.frame)
  {
    hide SamplesOf;
    var pcm := SamplesOf(WireWidth(lane.repr), blocks[k]);
    assert PackedBlock(lane, k, blocks[k]).Ok?;
    assert k % U64_LIMIT == k;
    SentFrameParses(lane, k, pcm);
    TsOfFrame(lane, k);
  }

  lemma TsOfFrame(lane: Lane, k: u64)
    ensures k * lane.frameSamples < U64_LIMIT ==> MediaTs(lane, k) == k * lane.frameSamples
  {
    assert 0 <= k * lane.frameSamples;
  }

  /** Neighbours on the wire are one number and one frame of samples apart, until 64 bits are used up. */
  lemma WireAdvances(lane: Lane, blocks: seq<seq<byte>>, k: nat)
    requires Built(lane.repr) && Packable(lane, blocks) && k + 1 < |blocks| < U64_LIMIT
    requires (k + 1) * lane.frameSamples < U64_LIMIT
    ensures var item, next := Parse(WireOf(lane, blocks)[k]), Parse(WireOf(lane, blocks)[k + 1]);
            && item.Ok? && item.value.Audio? && next.Ok? && next.value.Audio?
            && next.value.frame.seqNo == item.value.frame.seqNo + 1
            && next.value.frame.mediaTs == item.value.frame.mediaTs + item.value.frame.frameSampleCount
  {
    hide WireOf, Packable, Parse;
    WireDescribes(lane, blocks, k);
    WireDescribes(lane, blocks, k + 1);
    NextProduct(k, lane.frameSamples);
  }

  lemma NextProduct(k: nat, n: nat)
    ensures (k + 1) * n == k * n + n && 0 <= k * n
  {
  }

  class QuicAudioSink {
    const lane: Lane
    const emitter: Emitter
    /** Bytes that do not make up a whole frame yet. */
    var acc: seq<byte>
    /** All bytes ever captured. */
    ghost var fed: seq<byte>

    ghost predicate Valid() {
      Driven(lane) && emitter.lane == lane
    }

    /** Exactly these blocks are on the wire, in order, under the numbers 0, 1, 2 and so on. */
    ghost predicate OnWire(blocks: seq<seq<byte>>)
      requires Valid()
      reads emitter
    {
      && Packable(lane, blocks) && emitter.wire == WireOf(lane, blocks) && emitter.seqNo == |blocks| % U64_LIMIT
    }

    /** Every whole block captured so far is on the wire, and the rest is waiting. */
    ghost predicate InStep()
      requires Valid()
      reads this, emitter
    {
      acc == Rest(fed, WholeBytes(lane)) && OnWire(Blocks(fed, WholeBytes(lane)))
    }

    constructor (lane: Lane)
      requires Driven(lane)
      ensures Valid() && fresh(emitter) && this.lane == lane && fed == [] && InStep()
    {
      this.lane := lane;
      emitter := new Emitter(lane);
      acc, fed := [], [];
    }

    /**
     Sending block `n` failed, because it cannot be encoded or packed or because the transport refused it: all blocks
     before it are on the wire, it is gone, and everything behind it is still waiting.
     */
    ghost predicate StoppedAt(n: nat, e: SinkError)
      requires Valid()
      reads this, emitter
    {
      var whole := WholeBytes(lane);
      var blocks := Blocks(fed, whole);
      && n < |blocks| && OnWire(blocks[..n])
      && Blocks(acc, whole) == blocks[n + 1..] && Rest(acc, whole) == Rest(fed, whole)
      && e.Emitting? && (e.error == SendFailed || PackedBlock(lane, n, blocks[n]) == Err(e.error))
    }

    /**
     As long as nothing fails, every block of bytes keeps the wire in step with the capture. A block whose sending
     fails is gone from the accumulator; what follows it stays there.
     */
    method OnBlock(bytes: seq<byte>) returns (r: Result<(), SinkError>)
      requires Valid()
      modifies this, emitter
      ensures Valid() && fed == old(fed) + bytes
      ensures r.Ok? && old(InStep()) ==> InStep()
      ensures r.Err? && old(InStep()) ==> exists n: nat :: StoppedAt(n, r.error)
      ensures r.Ok? ==> |acc| < WholeBytes(lane)
      ensures var all := old(acc) + bytes; |acc| <= |all| && acc == all[|all| - |acc|..]
    {
      hide OnWire, WholeBytes, SamplesOf, PackedBlock, Blocks, Rest, WireOf, Packable;
      var whole := WholeBytes(lane);
      CutResumes(fed, bytes, whole);
      ghost var inStep, all := InStep(), acc + bytes;
      ghost var sent := Blocks(fed, whole);
      acc := acc + bytes;
      fed := fed + bytes;
      while |acc| >= whole
        invariant fed == old(fed) + bytes && |acc| <= |all| && acc == all[|all| - |acc|..]
        invariant inStep ==>
                    && Blocks(fed, whole) == sent + Blocks(acc, whole) && Rest(fed, whole) == Rest(acc, whole)
                    && OnWire(sent)
        decreases |acc|
      {
        var block := acc[..whole];
        CutOne(sent, acc, whole);
        acc := acc[whole..];
        r := EmitBlock(sent, block);
        if r.Err? {
          Parts(sent, block, Blocks(acc, whole));
          assert inStep ==> StoppedAt(|sent|, r.error);
          return;
        }
        sent := sent + [block];
      }
      NothingToCut(acc, whole);
      assert sent + [] == sent;
      return Ok(());
    }

    /** The next block on the wire. */
    method EmitBlock(ghost sent: seq<seq<byte>>, block: seq<byte>) returns (r: Result<(), SinkError>)
      requires Valid()
      modifies emitter
      ensures r.Ok? && old(OnWire(sent)) ==> OnWire(sent + [block])
      ensures r.Err? && old(OnWire(sent)) ==>
                && OnWire(sent) && r.error.Emitting?
                && (r.error.error == SendFailed || PackedBlock(lane, |sent|, block) == Err(r.error.error))
    {
      var emitted := emitter.EmitPcmFrame(SamplesOf(WireWidth(lane.repr), block));
      if emitted.Err? {
        return Err(Emitting(emitted.error));
      }
      NumberAdvances(|sent|);
      if old(OnWire(sent)) {
        PackableSnoc(lane, sent, block);
      }
      return Ok(());
    }

    /** The end marker follows; a partial frame is dropped. */
    method Finish() returns (r: Result<(), SinkError>)
      requires Valid()
      modifies emitter
      ensures emitter.wire == if r.Ok? then old(emitter.wire) + [PackEnd(emitter.seqNo)] else old(emitter.wire)
      ensures r.Err? ==> r == Err(Emitting(SendFailed))
      ensures var blocks := Blocks(fed, WholeBytes(lane));
              r.Ok? && old(InStep()) ==>
                Packable(lane, blocks) && emitter.wire == WireOf(lane, blocks) + [PackEnd(|blocks| % U64_LIMIT)]
    {
      var ended := emitter.EmitEndMarker();
      return if ended.Ok? then Ok(()) else Err(Emitting(ended.error));
    }
  }

  lemma CutOne(sent: seq<seq<byte>>, acc: seq<byte>, whole: nat)
    requires 0 < whole <= |acc|
    ensures sent + Blocks(acc, whole) == (sent + [acc[..whole]]) + Blocks(acc[whole..], whole)
    ensures Rest(acc, whole) == Rest(acc[whole..], whole)
  {
  }

  lemma Parts<T>(front: seq<T>, x: T, rest: seq<T>)
    ensures var all := (front + [x]) + rest;
            all[..|front|] == front && all[|front|] == x && all[|front| + 1..] == rest
  {
  }

  lemma NumberAdvances(n: nat)
    ensures (n % U64_LIMIT + 1) % U64_LIMIT == (n + 1) % U64_LIMIT
  {
  }

  lemma PackableSnoc(lane: Lane, sent: seq<seq<byte>>, block: seq<byte>)
    requires Built(lane.repr) && Packable(lane, sent) && PackedBlock(lane, |sent|, block).Ok?
    ensures Packable(lane, sent + [block])
    ensures WireOf(lane, sent + [block]) == WireOf(lane, sent) + [PackedBlock(lane, |sent|, block).value]
  {
    hide PackedBlock;
    forall k | 0 <= k < |sent + [block]|
      ensures PackedBlock(lane, k, (sent + [block])[k]).Ok?
    {
      if k < |sent| { assert PackedBlock(lane, k, sent[k]).Ok?; }
    }
  }
}
