/** The sending half: what a lane carries, how a block of samples becomes a packed frame, how frames are numbered. */
module Emitter {
  import opened Prelude
  import opened Frames
  import opened Framing
  import opened Pcm

  const SIM_CHANNELS: nat := 2
  const STREAM_ID: u32 := 7
  const NO_FLAGS := FrameFlags(false, false, 0)

  /** A codec with its wire metadata; encoder and decoder are functions of one frame's samples or bytes. */
  datatype Lane = Lane(
    codec: Codec, sampleRate: u32, repr: SampleRepr, frameSamples: u32,
    encode: seq<int> -> Result<seq<byte>, CodecError>, decode: seq<byte> -> Result<seq<int>, CodecError>)

  datatype EmitterError = EncodeFailed(error: CodecError) | SendFailed | PackFailed

  /** The number of sample values in one frame. */
  function ValuesPerFrame(lane: Lane): nat {
    SIM_CHANNELS * lane.frameSamples
  }

  function MediaTs(lane: Lane, seqNo: u64): u64 {
    seqNo * lane.frameSamples % U64_LIMIT
  }

  /** Until they wrap, media timestamps advance by one frame of samples per sequence number. */
  lemma MediaTsAdvances(lane: Lane, seqNo: u64)
    requires (seqNo + 1) * lane.frameSamples < U64_LIMIT
    ensures MediaTs(lane, seqNo) == seqNo * lane.frameSamples
    ensures seqNo + 1 < U64_LIMIT ==> MediaTs(lane, seqNo + 1) == MediaTs(lane, seqNo) + lane.frameSamples
  {
    var n := lane.frameSamples;
    assert (seqNo + 1) * n == seqNo * n + n;
    assert 0 <= seqNo * n;
  }

  function MakeFrame(lane: Lane, seqNo: u64, payload: seq<byte>): Frame {
    if lane.codec == Opus then
      NewLossy(STREAM_ID, seqNo, MediaTs(lane, seqNo), lane.codec, lane.sampleRate, lane.repr, Stereo,
               lane.frameSamples, NO_FLAGS, payload)
    else
      NewLossless(STREAM_ID, seqNo, MediaTs(lane, seqNo), lane.codec, lane.sampleRate, lane.repr, Stereo,
                  lane.frameSamples, NO_FLAGS, payload)
  }

  /** One frame of samples, encoded and packed under a sequence number. */
  function FramePayload(lane: Lane, seqNo: u64, pcm: seq<int>): Result<seq<byte>, EmitterError> {
    match lane.encode(pcm)
    case Err(e) => Err(EncodeFailed(e))
    case Ok(payload) =>
      match Pack(MakeFrame(lane, seqNo, payload))
      case Err(_) => Err(PackFailed)
      case Ok(packed) => Ok(packed)
  }

  class Emitter {
    const lane: Lane
    var seqNo: u64
    var packetsSent: nat
    var bytesSent: nat
    /** Every item the transport took, in order. */
    var wire: seq<seq<byte>>

    constructor (lane: Lane)
      ensures this.lane == lane && seqNo == 0 && packetsSent == 0 && bytesSent == 0 && wire == []
    {
      this.lane := lane;
      seqNo, packetsSent, bytesSent := 0, 0, 0;
      wire := [];
    }

    /** The transport takes an item or fails; which of the two is up to the network. */
    method Send(item: seq<byte>) returns (taken: bool)
      modifies this`wire
      ensures wire == if taken then old(wire) + [item] else old(wire)
    {
      taken := *;
      if taken {
        wire := wire + [item];
      }
    }

    /** Only a frame that was sent counts and advances the sequence number. */
    method EmitPcmFrame(pcm: seq<int>) returns (r: Result<(), EmitterError>)
      modifies this
      ensures r.Ok? ==>
                && FramePayload(lane, old(seqNo), pcm).Ok?
                && wire == old(wire) + [FramePayload(lane, old(seqNo), pcm).value]
                && seqNo == (old(seqNo) + 1) % U64_LIMIT && packetsSent == old(packetsSent) + 1
                && bytesSent == old(bytesSent) + |FramePayload(lane, old(seqNo), pcm).value|
      ensures r.Err? ==> unchanged(this)
      ensures r.Err? && r.error != SendFailed ==> FramePayload(lane, seqNo, pcm) == Err(r.error)
    {
      var packed := FramePayload(lane, seqNo, pcm);
      if packed.Err? {
        return Err(packed.error);
      }
      var taken := Send(packed.value);
      if !taken {
        return Err(SendFailed);
      }
      packetsSent := packetsSent + 1;
      bytesSent := bytesSent + |packed.value|;
      seqNo := (seqNo + 1) % U64_LIMIT;
      return Ok(());
    }

    /** The marker announces how many frames were numbered. */
    method EmitEndMarker() returns (r: Result<(), EmitterError>)
      modifies this`wire
      ensures wire == if r.Ok? then old(wire) + [PackEnd(seqNo)] else old(wire)
      ensures r.Err? ==> r.error == SendFailed
    {
      var taken := Send(PackEnd(seqNo));
      return if taken then Ok(()) else Err(SendFailed);
    }
  }

  // ---- What a packed frame is on the other side ----

  /** The frame that a block of samples becomes, when it can be sent at all. */
  function FrameOf(lane: Lane, seqNo: u64, pcm: seq<int>): Frame
    requires lane.encode(pcm).Ok?
  {
    MakeFrame(lane, seqNo, lane.encode(pcm).value)
  }

  /** A sent frame parses back to itself and carries its number, its stream and its payload. */
  lemma SentFrameParses(lane: Lane, seqNo: u64, pcm: seq<int>)
    requires FramePayload(lane, seqNo, pcm).Ok?
    ensures lane.encode(pcm).Ok?
    ensures var bytes := FramePayload(lane, seqNo, pcm).value;
            var f := FrameOf(lane, seqNo, pcm);
            && Parse(bytes) == Ok(Audio(f)) && !IsEnd(bytes) && bytes == ItemBytes(Audio(f)) && ValidItem(Audio(f))
            && f.seqNo == seqNo && f.streamId == STREAM_ID && f.payload == lane.encode(pcm).value
  {
    var f := FrameOf(lane, seqNo, pcm);
    ItemRoundTrip(Audio(f));
  }
}
