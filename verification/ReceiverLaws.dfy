/**
 What the receiver lets in and what it keeps out: the guard field by field, frames of foreign streams, and whatever
 still arrives behind the end of the stream.
 */
module ReceiverLaws {
  import opened Prelude
  import opened Crc32
  import opened Frames
  import opened Framing
  import opened Pcm
  import opened Emitter
  import opened Receiver
  import opened EndToEnd
  import J = Jitter

  // ---- The guard ----

  /** What may enter: this version, a built representation, and for lossless codecs a checksum that is right. */
  predicate Sane(f: Frame) {
    && f.version == 1 && (f.sampleRepr == I16 || f.sampleRepr == I24Packed)
    && (f.codec != Opus ==>
          && f.integrity == Crc32Integrity
          && f.frameIntegrity.CrcCheck? && f.frameIntegrity.crc == Checksum(f.payload))
  }

  /** Exactly such frames pass, and a refusal names the first thing that is wrong. */
  lemma GuardExactly(f: Frame)
    ensures GuardFrame(f).Ok? <==> Sane(f)
    ensures f.version != 1 <==> GuardFrame(f) == Err(UnsupportedVersion(f.version))
    ensures f.version == 1 && f.sampleRepr != I16 && f.sampleRepr != I24Packed
       <==> GuardFrame(f) == Err(UnsupportedRepr(f.sampleRepr))
    ensures GuardFrame(f).Err? && GuardFrame(f).error.CrcMismatch? ==>
              && f.codec != Opus && f.integrity == Crc32Integrity && f.frameIntegrity.CrcCheck?
              && GuardFrame(f).error.seqNo == f.seqNo && GuardFrame(f).error.got == Checksum(f.payload)
              && GuardFrame(f).error.expected == f.frameIntegrity.crc != Checksum(f.payload)
    ensures f.integrity != Crc32Integrity && GuardFrame(f).Err? ==>
              GuardFrame(f) == Err(MissingIntegrity) || f.version != 1 || !Built(f.sampleRepr)
  {
    ChecksumFits(f.payload);
  }

  // ---- Foreign streams ----

  /** The frames of one stream. */
  function Own(id: u32, fs: seq<Frame>): seq<Frame> {
    if fs == [] then []
    else
      var front, last := Own(id, fs[..|fs| - 1]), fs[|fs| - 1];
      if last.streamId == id then front + [last] else front
  }

  /** The same state, except perhaps for the late counter that a foreign frame bumps. */
  predicate SameButLate(s: State, t: State) {
    s.(lateDiscard := 0) == t.(lateDiscard := 0)
  }

  lemma {:induction false} RenderSameButLate(lane: Lane, s: State, t: State, frames: seq<Frame>)
    requires SameButLate(s, t)
    ensures SameButLate(RenderedAll(lane, s, frames), RenderedAll(lane, t, frames))
  {
    if frames != [] { RenderSameButLate(lane, s, t, frames[..|frames| - 1]); }
  }

  lemma AcceptSameButLate(lane: Lane, s: State, t: State, f: Frame)
    requires SameButLate(s, t)
    ensures SameButLate(Accepted(lane, s, f), Accepted(lane, t, f))
  {
    hide RenderedAll, J.Pushed;
    var (jitter, ready) := J.Pushed(s.jitter, f);
    RenderSameButLate(lane, s.(jitter := jitter, streamId := Some(f.streamId)),
                      t.(jitter := jitter, streamId := Some(f.streamId)), ready);
  }

  lemma {:induction false} RenderKeepsStream(lane: Lane, s: State, frames: seq<Frame>)
    ensures RenderedAll(lane, s, frames).streamId == s.streamId
  {
    if frames != [] { RenderKeepsStream(lane, s, frames[..|frames| - 1]); }
  }

  lemma AcceptKeepsStream(lane: Lane, s: State, f: Frame)
    ensures Accepted(lane, s, f).streamId == if s.streamId.Some? then s.streamId else Some(f.streamId)
  {
    hide RenderedAll, J.Pushed;
    var (jitter, ready) := J.Pushed(s.jitter, f);
    RenderKeepsStream(lane, s.(jitter := jitter, streamId := Some(f.streamId)), ready);
  }

  /**
   Once a stream is chosen, frames of other streams change nothing but the late counter, wherever they come in:
   everything else is as if only the frames of the stream had arrived.
   */
  lemma {:induction false} ForeignFramesIgnored(lane: Lane, s: State, fs: seq<Frame>, id: u32)
    requires s.streamId == Some(id)
    ensures SameButLate(AcceptedAll(lane, s, fs), AcceptedAll(lane, s, Own(id, fs)))
    ensures AcceptedAll(lane, s, fs).streamId == Some(id)
  {
    hide RenderedAll, J.Pushed;
    if fs != [] {
      var front, last := fs[..|fs| - 1], fs[|fs| - 1];
      ForeignFramesIgnored(lane, s, front, id);
      var now, own := AcceptedAll(lane, s, front), AcceptedAll(lane, s, Own(id, front));
      AcceptKeepsStream(lane, now, last);
      if last.streamId == id {
        AcceptSameButLate(lane, now, own, last);
        assert Own(id, fs)[..|Own(id, fs)| - 1] == Own(id, front);
      } else {
        assert Accepted(lane, now, last) == now.(lateDiscard := now.lateDiscard + 1);
      }
    }
  }

  /** The stream is that of the first frame. */
  lemma FirstFrameChooses(lane: Lane, profile: J.Profile, fs: seq<Frame>)
    requires fs != []
    ensures var id := fs[0].streamId;
            SameButLate(AcceptedAll(lane, Fresh(profile), fs), AcceptedAll(lane, Fresh(profile), Own(id, fs)))
  {
    hide Accepted;
    var id, start := fs[0].streamId, Fresh(profile);
    var s := Accepted(lane, start, fs[0]);
    AcceptKeepsStream(lane, start, fs[0]);
    assert fs == [fs[0]] + fs[1..];
    OwnFirst(id, fs[0], fs[1..]);
    AcceptedFirst(lane, start, fs[0], fs[1..]);
    AcceptedFirst(lane, start, fs[0], Own(id, fs[1..]));
    ForeignFramesIgnored(lane, s, fs[1..], id);
  }

  lemma {:induction false} OwnFirst(id: u32, f: Frame, fs: seq<Frame>)
    requires f.streamId == id
    ensures Own(id, [f] + fs) == [f] + Own(id, fs)
  {
    if fs == [] {
      assert [f] + fs == [f] && [f][..0] == [];
    } else {
      OwnFirst(id, f, fs[..|fs| - 1]);
      assert ([f] + fs)[..|fs|] == [f] + fs[..|fs| - 1];
    }
  }

  lemma {:induction false} AcceptedFirst(lane: Lane, s: State, f: Frame, fs: seq<Frame>)
    ensures AcceptedAll(lane, s, [f] + fs) == AcceptedAll(lane, Accepted(lane, s, f), fs)
  {
    hide Accepted;
    if fs == [] {
      assert [f] + fs == [f] && [f][..0] == [];
    } else {
      AcceptedFirst(lane, s, f, fs[..|fs| - 1]);
      assert ([f] + fs)[..|fs|] == [f] + fs[..|fs| - 1];
    }
  }

  // ---- Behind the end ----

  /** The stream has ended and the buffer is drained. */
  predicate Over(s: State) {
    s.ended && s.jitter.queue == map[]
  }

  lemma {:induction false} RenderKeepsBuffer(lane: Lane, s: State, frames: seq<Frame>)
    ensures var t := RenderedAll(lane, s, frames); t.jitter == s.jitter && t.ended == s.ended
  {
    if frames != [] { RenderKeepsBuffer(lane, s, frames[..|frames| - 1]); }
  }

  lemma FinishingIsOver(lane: Lane, s: State, total: u64)
    ensures Over(Finished(lane, s, total)) && Finished(lane, s, total).expectedTotal == Some(total)
  {
    hide RenderedAll;
    var (jitter, frames) := J.Drained(s.jitter);
    var r := s.(ended := true, expectedTotal := Some(total), jitter := jitter);
    RenderKeepsBuffer(lane, r, frames);
    RenderKeepsTotal(lane, r, frames);
  }

  lemma {:induction false} RenderKeepsTotal(lane: Lane, s: State, frames: seq<Frame>)
    ensures RenderedAll(lane, s, frames).expectedTotal == s.expectedTotal
  {
    if frames != [] { RenderKeepsTotal(lane, s, frames[..|frames| - 1]); }
  }

  /** Behind the end an item is only counted: a frame as a duplicate, garbage as malformed; a marker renews the loss. */
  lemma BehindTheEnd(lane: Lane, s: State, bytes: seq<byte>)
    requires Over(s)
    ensures BytesIngested(lane, s, bytes).0 ==
              match Parse(bytes)
              case Err(_) => s.(malformed := s.malformed + 1)
              case Ok(Audio(_)) => s.(duplicate := s.duplicate + 1)
              case Ok(End(total)) =>
                s.(expectedTotal := Some(total), loss := if total >= s.packetsRecv then total - s.packetsRecv else 0)
  {
    hide Parse;
    assert J.Sorted(s.jitter.queue) == [];
  }

  /** So whatever follows the end, nothing more is rendered. */
  lemma {:induction false} NothingBehindTheEnd(lane: Lane, s: State, items: seq<seq<byte>>)
    requires Over(s)
    ensures var t := Received(lane, s, items);
            Over(t) && t.rendered == s.rendered && t.packetsRecv == s.packetsRecv && t.jitter == s.jitter
  {
    hide BytesIngested;
    if items != [] {
      NothingBehindTheEnd(lane, s, items[..|items| - 1]);
      BehindTheEnd(lane, Received(lane, s, items[..|items| - 1]), items[|items| - 1]);
    }
  }

  /**
   On a reliable stream nothing looks whether the stream has ended: a frame that follows the marker in the same chunk,
   under the next number, is still rendered, and the loss is not corrected.
   */
  lemma StreamRendersBehindTheEnd(lane: Lane, s: State, f: Frame)
    requires Over(s) && Sane(f) && Decodes(lane, f) && s.streamId == Some(f.streamId)
    requires s.jitter.nextOut == Some(f.seqNo)
    ensures var t := ItemPushed(lane, s, Audio(f));
            t.rendered == s.rendered + Sound(lane, f) && t.packetsRecv == s.packetsRecv + 1 && t.loss == s.loss
  {
    hide GuardFrame;
    GuardExactly(f);
    var q: J.Queue := map[f.seqNo := f];
    J.RunEndUnique(q, f.seqNo, f.seqNo + 1);
    assert J.Slice(q, f.seqNo, f.seqNo + 1) == [f];
    assert J.Pushed(s.jitter, f).1 == [f];
    RendersOne(lane, s.(jitter := J.Pushed(s.jitter, f).0, streamId := Some(f.streamId)), f);
  }

  lemma RendersOne(lane: Lane, s: State, f: Frame)
    requires Decodes(lane, f)
    ensures RenderedAll(lane, s, [f]) ==
              s.(rendered := s.rendered + Sound(lane, f), packetsRecv := s.packetsRecv + 1)
  {
    assert [f][..0] == [];
  }

  /** There a second marker is ignored. */
  lemma StreamIgnoresSecondMarker(lane: Lane, s: State, total: u64)
    requires s.ended
    ensures ItemPushed(lane, s, End(total)) == s
  {
  }

  // ---- Rendering ----

  /** Every frame handed to the renderer is a packet or malformed, and nothing else about the receiver changes. */
  lemma {:induction false} RenderedOrMalformed(lane: Lane, s: State, frames: seq<Frame>)
    ensures var t := RenderedAll(lane, s, frames);
            && t.packetsRecv + t.malformed == s.packetsRecv + s.malformed + |frames|
            && t.packetsRecv == s.packetsRecv + |Decodable(lane, frames)|
            && t == s.(rendered := t.rendered, packetsRecv := t.packetsRecv, malformed := t.malformed)
  {
    if frames != [] { RenderedOrMalformed(lane, s, frames[..|frames| - 1]); }
  }

  function Decodable(lane: Lane, frames: seq<Frame>): seq<Frame> {
    if frames == [] then []
    else
      var front, last := Decodable(lane, frames[..|frames| - 1]), frames[|frames| - 1];
      if Decodes(lane, last) then front + [last] else front
  }

  /** The frames that do not decode might as well not be there, but for the malformed count. */
  lemma {:induction false} DecodableIsRendered(lane: Lane, s: State, frames: seq<Frame>)
    ensures AllDecode(lane, Decodable(lane, frames))
    ensures RenderedAll(lane, s, frames).rendered == s.rendered + SoundOf(lane, Decodable(lane, frames))
  {
    if frames == [] {
      assert s.rendered + [] == s.rendered;
    } else {
      var front, last := frames[..|frames| - 1], frames[|frames| - 1];
      DecodableIsRendered(lane, s, front);
      var before := Decodable(lane, front);
      if Decodes(lane, last) {
        assert (before + [last])[..|before|] == before;
        assert s.rendered + (SoundOf(lane, before) + Sound(lane, last))
            == (s.rendered + SoundOf(lane, before)) + Sound(lane, last);
      }
    }
  }
}
