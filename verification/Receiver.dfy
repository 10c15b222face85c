/** The receiving half: guards, the jitter buffer, decoding, rendering, and the accounting at the end of the stream. */
module Receiver {
  import opened Prelude
  import opened Crc32
  import opened Frames
  import opened Deframing
  import opened Framing
  import opened Pcm
  import opened Emitter
  import J = Jitter

  datatype GuardError =
    | UnsupportedVersion(version: u16) | UnsupportedRepr(repr: SampleRepr) | MissingIntegrity | MissingChecksum
    | CrcMismatch(seqNo: u64, got: u32, expected: u32)

  datatype ReceiverError = BadItem(framing: FramingError) | BadFrame(guard: GuardError) | EndFirst

  function IsLossless(f: Frame): bool {
    f.codec == Flac || f.codec == Frames.Pcm
  }

  /** What a frame must satisfy before it enters the pipeline. */
  function GuardFrame(f: Frame): Result<(), GuardError> {
    ChecksumFits(f.payload);
    if f.version != FRAME_VERSION then Err(UnsupportedVersion(f.version))
    else if !Built(f.sampleRepr) then Err(UnsupportedRepr(f.sampleRepr))
    else if !IsLossless(f) then Ok(())
    else if f.integrity != Crc32Integrity then Err(MissingIntegrity)
    else if !f.frameIntegrity.CrcCheck? then Err(MissingChecksum)
    else if Checksum(f.payload) != f.frameIntegrity.crc
    then Err(CrcMismatch(f.seqNo, Checksum(f.payload), f.frameIntegrity.crc))
    else Ok(())
  }

  /** The same frame with a payload damaged within any 32 consecutive bits never passes. */
  lemma DamageRejected(f: Frame, damaged: seq<byte>, from: nat)
    requires GuardFrame(f).Ok? && IsLossless(f) && damaged != f.payload && DifferInBurst(f.payload, damaged, from)
    ensures var e := GuardFrame(f.(payload := damaged));
            e.Err? && e.error.CrcMismatch? && e.error.seqNo == f.seqNo && e.error.expected == Checksum(f.payload)
  {
    BurstDetected(f.payload, damaged, from);
  }

  /** A frame built by the emitter passes. */
  lemma MadeFramePasses(lane: Lane, seqNo: u64, payload: seq<byte>)
    requires Built(lane.repr)
    ensures GuardFrame(MakeFrame(lane, seqNo, payload)).Ok?
  {
  }

  // ---- What each operation does ----

  datatype State = State(
    jitter: J.State, rendered: seq<byte>, packetsRecv: nat, malformed: nat, duplicate: nat, lateDiscard: nat,
    reorder: nat, loss: nat, expectedTotal: Option<u64>, ended: bool, streamId: Option<u32>)

  function Fresh(profile: J.Profile): State {
    State(J.Empty(profile.ReorderWindow(), profile.QueueCap()), [], 0, 0, 0, 0, 0, 0, None, false, None)
  }

  /** Decoded and put out in canonical bytes; a frame that does not decode is counted and skipped. */
  function RenderedOne(lane: Lane, s: State, f: Frame): State {
    match lane.decode(f.payload)
    case Err(_) => s.(malformed := s.malformed + 1)
    case Ok(pcm) =>
      s.(rendered := s.rendered + BytesOf(WireWidth(lane.repr), pcm), packetsRecv := s.packetsRecv + 1)
  }

  function RenderedAll(lane: Lane, s: State, frames: seq<Frame>): State {
    if frames == [] then s else RenderedOne(lane, RenderedAll(lane, s, frames[..|frames| - 1]), frames[|frames| - 1])
  }

  function Counted(s: State): State {
    s.(duplicate := s.jitter.duplicate, lateDiscard := s.jitter.late, reorder := s.jitter.reorder)
  }

  function Accepted(lane: Lane, s: State, f: Frame): State {
    if s.streamId.Some? && s.streamId.value != f.streamId then s.(lateDiscard := s.lateDiscard + 1)
    else
      var (jitter, ready) := J.Pushed(s.jitter, f);
      Counted(RenderedAll(lane, s.(jitter := jitter, streamId := Some(f.streamId)), ready))
  }

  function FrameIngested(lane: Lane, s: State, f: Frame): (State, Result<(), ReceiverError>) {
    match GuardFrame(f)
    case Err(e) => (s, Err(BadFrame(e)))
    case Ok(_) => (Accepted(lane, s, f), Ok(()))
  }

  function Finished(lane: Lane, s: State, total: u64): State {
    var (jitter, frames) := J.Drained(s.jitter);
    var r := RenderedAll(lane, s.(ended := true, expectedTotal := Some(total), jitter := jitter), frames);
    r.(loss := if total >= r.packetsRecv then total - r.packetsRecv else 0)
  }

  /** A datagram or one item of a reliable stream. */
  function BytesIngested(lane: Lane, s: State, bytes: seq<byte>): (State, Result<(), ReceiverError>) {
    match Parse(bytes)
    case Err(e) => (s.(malformed := s.malformed + 1), Err(BadItem(e)))
    case Ok(End(total)) => (Finished(lane, s, total), Ok(()))
    case Ok(Audio(f)) =>
      if s.ended then (s.(duplicate := s.duplicate + 1), Ok(())) else FrameIngested(lane, s, f)
  }

  /** An item already cut out of a reliable stream; here nothing looks whether the stream has ended before a frame. */
  function ItemPushed(lane: Lane, s: State, item: FramedItem): State {
    match item
    case Audio(f) => FrameIngested(lane, s, f).0
    case End(total) => if s.ended then s else Finished(lane, s, total)
  }

  // ---- The receiver, updated in place ----

  class Receiver {
    const lane: Lane
    const buffer: J.JitterBuffer
    /** All bytes the render device took. */
    var rendered: seq<byte>
    var packetsRecv: nat
    var malformed: nat
    var duplicate: nat
    var lateDiscard: nat
    var reorder: nat
    var loss: nat
    var expectedTotal: Option<u64>
    var ended: bool
    var streamId: Option<u32>

    function View(): State
      reads this, buffer
    {
      State(buffer.View(), rendered, packetsRecv, malformed, duplicate, lateDiscard, reorder, loss, expectedTotal,
            ended, streamId)
    }

    constructor ForStream(lane: Lane, profile: J.Profile)
      ensures View() == Fresh(profile) && fresh(buffer) && this.lane == lane
    {
      this.lane := lane;
      buffer := new J.JitterBuffer(profile.ReorderWindow(), profile.QueueCap());
      rendered, packetsRecv, malformed, duplicate, lateDiscard, reorder, loss := [], 0, 0, 0, 0, 0, 0;
      expectedTotal, ended, streamId := None, false, None;
    }

    method IngestBytes(bytes: seq<byte>) returns (r: Result<(), ReceiverError>)
      modifies this, buffer
      ensures (View(), r) == BytesIngested(lane, old(View()), bytes)
    {
      hide Parse, FrameIngested, Finished;
      if IsEnd(bytes) {
        r := HandleEndMarker(bytes);
        return;
      }
      match Parse(bytes) {
        case Err(e) =>
          malformed := malformed + 1;
          return Err(BadItem(e));
        case Ok(Audio(f)) =>
          if ended {
            duplicate := duplicate + 1;
            return Ok(());
          }
          r := IngestFrame(f);
        case Ok(End(total)) =>
          FinishAfterEnd(total);
          return Ok(());
      }
    }

    method HandleEndMarker(bytes: seq<byte>) returns (r: Result<(), ReceiverError>)
      requires IsEnd(bytes)
      modifies this, buffer
      ensures (View(), r) == BytesIngested(lane, old(View()), bytes)
    {
      hide Finished;
      var item := Parse(bytes);
      FinishAfterEnd(item.value.totalFrames);
      return Ok(());
    }

    method IngestFrame(f: Frame) returns (r: Result<(), ReceiverError>)
      modifies this, buffer
      ensures (View(), r) == FrameIngested(lane, old(View()), f)
    {
      var guard := GuardFrame(f);
      if guard.Err? {
        return Err(BadFrame(guard.error));
      }
      IngestFramePostGuard(f);
      return Ok(());
    }

    method IngestFramePostGuard(f: Frame)
      modifies this, buffer
      ensures View() == Accepted(lane, old(View()), f)
    {
      if streamId.Some? {
        if streamId.value != f.streamId {
          lateDiscard := lateDiscard + 1;
          return;
        }
      } else {
        streamId := Some(f.streamId);
      }
      var ready := buffer.Push(f);
      RenderFrames(ready);
      duplicate := buffer.duplicate;
      lateDiscard := buffer.late;
      reorder := buffer.reorder;
    }

    method RenderFrames(frames: seq<Frame>)
      modifies this
      ensures View() == RenderedAll(lane, old(View()), frames)
    {
      for i := 0 to |frames|
        invariant View() == RenderedAll(lane, old(View()), frames[..i])
      {
        assert frames[..i + 1][..i] == frames[..i];
        match lane.decode(frames[i].payload) {
          case Err(_) =>
            malformed := malformed + 1;
          case Ok(pcm) =>
            rendered := rendered + BytesOf(WireWidth(lane.repr), pcm);
            packetsRecv := packetsRecv + 1;
        }
      }
      assert frames[..|frames|] == frames;
    }

    method FinishAfterEnd(total: u64)
      modifies this, buffer
      ensures View() == Finished(lane, old(View()), total)
    {
      ended := true;
      expectedTotal := Some(total);
      var frames := buffer.DrainAll();
      RenderFrames(frames);
      loss := if total >= packetsRecv then total - packetsRecv else 0;
    }

    /** A stream item that could not be cut out. */
    method CountMalformed()
      modifies this
      ensures View() == old(View()).(malformed := old(malformed) + 1)
    {
      malformed := malformed + 1;
    }

    method PushItem(item: FramedItem)
      modifies this, buffer
      ensures View() == ItemPushed(lane, old(View()), item)
    {
      match item {
        case Audio(f) =>
          var r := IngestFrame(f);
        case End(total) =>
          if !ended {
            FinishAfterEnd(total);
          }
      }
    }
  }
}
