/**
 From capture to render: blocks go in at the sink in any sizes, frames cross the network reordered and duplicated, and
 the render device gets the captured bytes.
 */
module EndToEnd {
  import opened Prelude
  import opened Frames
  import opened Framing
  import opened Pcm
  import opened Emitter
  import opened Sink
  import opened Receiver
  import opened JitterRuns
  import opened ArrivalOrder
  import opened JitterOrder
  import J = Jitter

  // ---- Rendering frames that decode ----

  predicate Decodes(lane: Lane, f: Frame) {
    lane.decode(f.payload).Ok?
  }

  function Sound(lane: Lane, f: Frame): seq<byte>
    requires Decodes(lane, f)
  {
    BytesOf(WireWidth(lane.repr), lane.decode(f.payload).value)
  }

  predicate AllDecode(lane: Lane, frames: seq<Frame>) {
    forall i | 0 <= i < |frames| :: Decodes(lane, frames[i])
  }

  function SoundOf(lane: Lane, frames: seq<Frame>): seq<byte>
    requires AllDecode(lane, frames)
  {
    if frames == [] then [] else SoundOf(lane, frames[..|frames| - 1]) + Sound(lane, frames[|frames| - 1])
  }

  lemma {:induction false} SoundAppend(lane: Lane, a: seq<Frame>, b: seq<Frame>)
    requires AllDecode(lane, a) && AllDecode(lane, b)
    ensures AllDecode(lane, a + b) && SoundOf(lane, a + b) == SoundOf(lane, a) + SoundOf(lane, b)
  {
    if b == [] {
      assert a + b == a;
    } else {
      SoundAppend(lane, a, b[..|b| - 1]);
      assert (a + b)[..|a + b| - 1] == a + b[..|b| - 1];
      assert AllDecode(lane, a + b);
    }
  }

  lemma {:induction false} RendersAll(lane: Lane, s: State, frames: seq<Frame>)
    requires AllDecode(lane, frames)
    ensures RenderedAll(lane, s, frames) ==
            s.(rendered := s.rendered + SoundOf(lane, frames), packetsRecv := s.packetsRecv + |frames|)
  {
    if frames == [] {
      assert s.rendered + SoundOf(lane, frames) == s.rendered;
    } else {
      RendersAll(lane, s, frames[..|frames| - 1]);
    }
  }

  // ---- The receiver over a run of good frames ----

  /** The receiver after all frames have entered the pipeline, in order. */
  function AcceptedAll(lane: Lane, s: State, fs: seq<Frame>): State {
    if fs == [] then s else Accepted(lane, AcceptedAll(lane, s, fs[..|fs| - 1]), fs[|fs| - 1])
  }

  /** A frame of the stream whose payload decodes. */
  predicate Good(lane: Lane, f: Frame) {
    f.streamId == STREAM_ID && Decodes(lane, f)
  }

  predicate AllGood(lane: Lane, fs: seq<Frame>) {
    forall i | 0 <= i < |fs| :: Good(lane, fs[i])
  }

  /** So far the buffer saw exactly `fs`, and what it gave out was rendered. */
  ghost predicate Following(lane: Lane, profile: J.Profile, fs: seq<Frame>, s: State) {
    var start := J.Empty(profile.ReorderWindow(), profile.QueueCap());
    var out := Out(start, fs);
    && !s.ended && s.malformed == 0 && s.expectedTotal == None
    && s.streamId == (if fs == [] then None else Some(STREAM_ID))
    && s.jitter == After(start, fs) && s == Counted(s)
    && AllDecode(lane, out) && s.rendered == SoundOf(lane, out) && s.packetsRecv == |out|
    && AllDecode(lane, J.Sorted(s.jitter.queue))
  }

  lemma {:induction false} RunFollows(lane: Lane, profile: J.Profile, fs: seq<Frame>)
    requires AllGood(lane, fs)
    ensures Following(lane, profile, fs, AcceptedAll(lane, Fresh(profile), fs))
  {
    hide Following, Accepted, Good, AllDecode, Fresh;
    if fs == [] {
      FollowsStart(lane, profile, fs);
    } else {
      var front, last := fs[..|fs| - 1], fs[|fs| - 1];
      RunFollows(lane, profile, front);
      assert fs == front + [last];
      GoodDecodes(lane, fs);
      RunDecodes(lane, profile, fs);
      StepFollows(lane, profile, front, last, AcceptedAll(lane, Fresh(profile), front));
    }
  }

  lemma FollowsStart(lane: Lane, profile: J.Profile, fs: seq<Frame>)
    requires fs == []
    ensures Following(lane, profile, fs, Fresh(profile))
  {
  }

  lemma GoodDecodes(lane: Lane, fs: seq<Frame>)
    requires AllGood(lane, fs)
    ensures AllDecode(lane, fs)
  {
    forall i | 0 <= i < |fs| ensures Decodes(lane, fs[i]) { assert Good(lane, fs[i]); }
  }

  /** Everything the buffer gives out or still holds arrived, so it decodes. */
  lemma RunDecodes(lane: Lane, profile: J.Profile, fs: seq<Frame>)
    requires AllDecode(lane, fs)
    ensures var start := J.Empty(profile.ReorderWindow(), profile.QueueCap());
            AllDecode(lane, Out(start, fs)) && AllDecode(lane, J.Sorted(After(start, fs).queue))
  {
    var window, cap := profile.ReorderWindow(), profile.QueueCap();
    RenderedOnce(window, cap, fs);
    var start := J.Empty(window, cap);
    var out, held := Out(start, fs), J.Sorted(After(start, fs).queue);
    var all := Rendered(window, cap, fs);
    assert all == out + held;
    forall i | 0 <= i < |all| ensures Decodes(lane, all[i]) {
      var j :| 0 <= j < |fs| && fs[j] == all[i];
    }
    forall i | 0 <= i < |out| ensures Decodes(lane, out[i]) { assert out[i] == all[i]; }
    forall i | 0 <= i < |held| ensures Decodes(lane, held[i]) { assert held[i] == all[|out| + i]; }
  }

  lemma StepFollows(lane: Lane, profile: J.Profile, front: seq<Frame>, f: Frame, s: State)
    requires Following(lane, profile, front, s) && Good(lane, f)
    requires var start := J.Empty(profile.ReorderWindow(), profile.QueueCap());
             && AllDecode(lane, Out(start, front + [f])) && AllDecode(lane, J.Sorted(After(start, front + [f]).queue))
    ensures Following(lane, profile, front + [f], Accepted(lane, s, f))
  {
    var start := J.Empty(profile.ReorderWindow(), profile.QueueCap());
    var ready := J.Pushed(s.jitter, f).1;
    RunSteps(start, front, f);
    ReadyDecodes(lane, Out(start, front), ready);
    SoundAppend(lane, Out(start, front), ready);
    RendersAll(lane, s.(jitter := J.Pushed(s.jitter, f).0, streamId := Some(f.streamId)), ready);
  }

  lemma RunSteps(start: J.State, front: seq<Frame>, f: Frame)
    ensures After(start, front + [f]) == J.Pushed(After(start, front), f).0
    ensures Out(start, front + [f]) == Out(start, front) + J.Pushed(After(start, front), f).1
  {
    assert (front + [f])[..|front|] == front;
  }

  lemma ReadyDecodes(lane: Lane, out: seq<Frame>, ready: seq<Frame>)
    requires AllDecode(lane, out + ready)
    ensures AllDecode(lane, ready)
  {
    forall i | 0 <= i < |ready| ensures Decodes(lane, ready[i]) {
      assert (out + ready)[|out| + i] == ready[i];
    }
  }

  /** At the end of the stream the render device has got everything the buffer renders. */
  lemma FinishRenders(lane: Lane, profile: J.Profile, fs: seq<Frame>, total: u64)
    requires AllGood(lane, fs)
    ensures var all := Rendered(profile.ReorderWindow(), profile.QueueCap(), fs);
            var end := Finished(lane, AcceptedAll(lane, Fresh(profile), fs), total);
            && AllDecode(lane, all) && end.rendered == SoundOf(lane, all) && end.packetsRecv == |all|
            && end.loss == Loss(total, |all|) && end.ended && end.malformed == 0
            && |fs| == end.packetsRecv + end.duplicate + end.lateDiscard && end.reorder == Overtaken(fs)
            && end.duplicate == After(J.Empty(profile.ReorderWindow(), profile.QueueCap()), fs).duplicate
            && end.lateDiscard == After(J.Empty(profile.ReorderWindow(), profile.QueueCap()), fs).late
  {
    var start := J.Empty(profile.ReorderWindow(), profile.QueueCap());
    var s := AcceptedAll(lane, Fresh(profile), fs);
    RunFollows(lane, profile, fs);
    RenderedOnce(profile.ReorderWindow(), profile.QueueCap(), fs);
    ReorderIsExact(profile.ReorderWindow(), profile.QueueCap(), fs);
    SoundAppend(lane, Out(start, fs), J.Sorted(s.jitter.queue));
    RendersAll(lane, s.(ended := true, expectedTotal := Some(total), jitter := J.Drained(s.jitter).0),
               J.Sorted(s.jitter.queue));
  }

  // ---- The same over packed items ----

  /** The receiver after all items, in order. */
  function Received(lane: Lane, s: State, items: seq<seq<byte>>): State {
    if items == [] then s else BytesIngested(lane, Received(lane, s, items[..|items| - 1]), items[|items| - 1]).0
  }

  /** The bytes of an item that parses to a good frame which passes the guard. */
  ghost predicate Carries(lane: Lane, bytes: seq<byte>, f: Frame) {
    Parse(bytes) == Ok(Audio(f)) && GuardFrame(f).Ok? && Good(lane, f)
  }

  ghost predicate AllCarry(lane: Lane, items: seq<seq<byte>>, fs: seq<Frame>) {
    |items| == |fs| && forall i | 0 <= i < |fs| :: Carries(lane, items[i], fs[i])
  }

  lemma {:induction false} ReceivedIsAccepted(lane: Lane, s: State, items: seq<seq<byte>>, fs: seq<Frame>)
    requires AllCarry(lane, items, fs) && !s.ended
    ensures AllGood(lane, fs)
    ensures Received(lane, s, items) == AcceptedAll(lane, s, fs) && !AcceptedAll(lane, s, fs).ended
  {
    hide Parse, GuardFrame, Good, Accepted;
    forall i | 0 <= i < |fs| ensures Good(lane, fs[i]) { assert Carries(lane, items[i], fs[i]); }
    if items != [] {
      var n := |items| - 1;
      forall i | 0 <= i < n ensures Carries(lane, items[..n][i], fs[..n][i]) { assert Carries(lane, items[i], fs[i]); }
      ReceivedIsAccepted(lane, s, items[..n], fs[..n]);
      assert Carries(lane, items[n], fs[n]);
      StaysOpen(lane, AcceptedAll(lane, s, fs[..n]), fs[n]);
    }
  }

  lemma StaysOpen(lane: Lane, s: State, f: Frame)
    ensures Accepted(lane, s, f).ended == s.ended
  {
    var (jitter, ready) := J.Pushed(s.jitter, f);
    RenderingKeepsEnded(lane, s.(jitter := jitter, streamId := Some(f.streamId)), ready);
  }

  lemma {:induction false} RenderingKeepsEnded(lane: Lane, s: State, frames: seq<Frame>)
    ensures RenderedAll(lane, s, frames).ended == s.ended
  {
    if frames != [] { RenderingKeepsEnded(lane, s, frames[..|frames| - 1]); }
  }

  lemma MarkerFinishes(lane: Lane, profile: J.Profile, items: seq<seq<byte>>, fs: seq<Frame>, total: u64)
    requires AllCarry(lane, items, fs)
    ensures Received(lane, Fresh(profile), items + [PackEnd(total)])
         == Finished(lane, AcceptedAll(lane, Fresh(profile), fs), total)
  {
    hide Finished, AllCarry;
    ReceivedIsAccepted(lane, Fresh(profile), items, fs);
    ItemRoundTrip(End(total));
    assert (items + [PackEnd(total)])[..|items|] == items;
  }

  /**
   With the end marker last, the render device has got everything the buffer renders, the loss is what is missing, and
   every item is accounted for.
   */
  lemma EndRenders(lane: Lane, profile: J.Profile, items: seq<seq<byte>>, fs: seq<Frame>, total: u64)
    requires AllCarry(lane, items, fs)
    ensures var all := Rendered(profile.ReorderWindow(), profile.QueueCap(), fs);
            var end := Received(lane, Fresh(profile), items + [PackEnd(total)]);
            && AllDecode(lane, all) && end.rendered == SoundOf(lane, all) && end.packetsRecv == |all|
            && end.loss == Loss(total, |all|) && end.ended && end.malformed == 0
            && |items| == end.packetsRecv + end.duplicate + end.lateDiscard && end.reorder == Overtaken(fs)
  {
    ReceivedIsAccepted(lane, Fresh(profile), items, fs);
    MarkerFinishes(lane, profile, items, fs, total);
    FinishRenders(lane, profile, fs, total);
  }

  // ---- What the network must do ----

  /**
   Frame 0 arrives first, nothing arrives further ahead than the reorder window, and every new frame finds room in the
   queue.
   */
  ghost predicate WellOrdered(profile: J.Profile, order: seq<nat>) {
    && (order == [] || order[0] == 0)
    && BoundedReorder(profile.ReorderWindow(), order) && Roomy(profile.QueueCap(), order)
  }

  /**
   For two of the profiles the window is all there is to it. For `Resilient`, moreover, no missing frame may come last,
   when a whole window of frames behind it waits already.
   */
  lemma WellOrderedProfiles(profile: J.Profile, order: seq<nat>)
    ensures profile != J.Resilient ==>
      (WellOrdered(profile, order) <==>
       (order == [] || order[0] == 0) && BoundedReorder(profile.ReorderWindow(), order))
    ensures profile == J.Resilient ==>
      (WellOrdered(profile, order) <==>
       && (order == [] || order[0] == 0) && BoundedReorder(profile.ReorderWindow(), order)
       && forall i | 0 < i < |order| :: !ComesLast(profile.ReorderWindow(), order, i))
  {
    var window, cap := profile.ReorderWindow(), profile.QueueCap();
    if BoundedReorder(window, order) {
      if window < cap {
        WindowIsRoom(window, cap, order);
      } else {
        forall i | 0 < i < |order| ensures HasRoom(cap, order, i) <==> !ComesLast(window, order, i) {
          FullWindowLacksRoom(window, order, i);
        }
        assert order != [] ==> HasRoom(cap, order, 0);
      }
    }
  }

  /** Every number below the total arrives at least once, and nothing else does. */
  ghost predicate Covers(order: seq<nat>, total: nat) {
    (forall i :: 0 <= i < |order| ==> order[i] < total) && (forall k :: 0 <= k < total ==> k in order)
  }

  /** A network that neither loses nor reorders nor repeats anything is well ordered for every profile. */
  lemma InSequenceIsWellOrdered(profile: J.Profile, n: nat)
    ensures Covers(InSequence(n), n) && WellOrdered(profile, InSequence(n))
  {
    InSequenceIsOrderly(profile.ReorderWindow(), profile.QueueCap(), n);
    forall k: nat | k < n ensures k in InSequence(n) { assert InSequence(n)[k] == k; }
  }

  lemma CoversAll(fs: seq<Frame>, total: nat)
    requires Covers(Order(fs), total)
    ensures Complete(fs, total)
  {
    OrderNumbers(fs);
    assert forall k :: k in Order(fs) ==> k < total;
    assert forall k :: k in Numbers(fs) <==> k in Range(0, total);
  }

  // ---- Delivery ----

  /** Over a well-ordered delivery just the repeated arrivals are counted, each as late or as a duplicate. */
  predicate CountsRepeats(profile: J.Profile, order: seq<nat>, end: State) {
    && end.lateDiscard == StaleRepeats(profile.ReorderWindow(), order)
    && end.duplicate == NearRepeats(profile.ReorderWindow(), order)
  }

  /** Good frames, each of them sounding as the list says under its number. */
  ghost predicate Sounding(lane: Lane, heard: seq<seq<byte>>, fs: seq<Frame>) {
    && AllGood(lane, fs)
    && forall i | 0 <= i < |fs| :: fs[i].seqNo < |heard| && SoundsAs(lane, fs[i], heard[fs[i].seqNo])
  }

  ghost predicate SoundsAs(lane: Lane, f: Frame, bytes: seq<byte>) {
    Decodes(lane, f) && Sound(lane, f) == bytes
  }

  /**
   Frames that cover everything, in any order and with duplicates, are rendered without loss if and only if they are
   well ordered; then everything is heard once, in order.
   */
  lemma FramesDelivered(lane: Lane, profile: J.Profile, heard: seq<seq<byte>>, fs: seq<Frame>)
    requires Sounding(lane, heard, fs) && Covers(Order(fs), |heard|) && |heard| < U64_LIMIT
    ensures var end := Finished(lane, AcceptedAll(lane, Fresh(profile), fs), |heard|);
            && end.packetsRecv <= |heard| && end.loss == |heard| - end.packetsRecv
            && (end.loss == 0 <==> WellOrdered(profile, Order(fs)))
            && (WellOrdered(profile, Order(fs)) ==>
                  end.rendered == Flatten(heard) && CountsRepeats(profile, Order(fs), end))
  {
    hide Finished, Sounding, Order, AcceptedAll;
    var window, cap := profile.ReorderWindow(), profile.QueueCap();
    SoundingIsGood(lane, heard, fs);
    FinishRenders(lane, profile, fs, |heard|);
    CoversAll(fs, |heard|);
    CompleteDelivery(window, cap, fs, |heard|);
    BelowTotal(lane, heard, fs);
    LossIsExact(window, cap, fs, |heard|);
    FirstNumber(fs);
    if WellOrdered(profile, Order(fs)) {
      OrderlySound(lane, profile, heard, fs);
      OrderlyCounters(window, cap, fs);
    }
  }

  lemma SoundingIsGood(lane: Lane, heard: seq<seq<byte>>, fs: seq<Frame>)
    requires Sounding(lane, heard, fs)
    ensures AllGood(lane, fs)
  {
  }

  lemma BelowTotal(lane: Lane, heard: seq<seq<byte>>, fs: seq<Frame>)
    requires Sounding(lane, heard, fs)
    ensures forall i :: 0 <= i < |fs| ==> fs[i].seqNo < |heard|
  {
  }

  lemma FirstNumber(fs: seq<Frame>)
    ensures (Order(fs) == [] <==> fs == []) && (fs != [] ==> fs[0].seqNo == Order(fs)[0])
  {
  }

  lemma OrderlySound(lane: Lane, profile: J.Profile, heard: seq<seq<byte>>, fs: seq<Frame>)
    requires Sounding(lane, heard, fs) && Covers(Order(fs), |heard|) && WellOrdered(profile, Order(fs))
    ensures var all := Rendered(profile.ReorderWindow(), profile.QueueCap(), fs);
            AllDecode(lane, all) && SoundOf(lane, all) == Flatten(heard)
  {
    hide Rendered, FirstOf, BoundedReorder, Roomy, SoundOf, SoundsAs;
    var window, cap := profile.ReorderWindow(), profile.QueueCap();
    var all := Rendered(window, cap, fs);
    CoversAll(fs, |heard|);
    FirstNumber(fs);
    OrderlyComplete(window, cap, fs, |heard|);
    FirstOfShape(fs);
    forall k | 0 <= k < |heard| ensures SoundsAs(lane, all[k], heard[k]) {
      assert FirstOf(fs)[k] in fs && FirstOf(fs)[k].seqNo == k;
    }
    SoundInOrder(lane, heard, all, |heard|);
    assert all[..|heard|] == all && heard[..|heard|] == heard;
  }

  lemma {:induction false} SoundInOrder(lane: Lane, heard: seq<seq<byte>>, frames: seq<Frame>, n: nat)
    requires n <= |heard| == |frames| && forall k | 0 <= k < |frames| :: SoundsAs(lane, frames[k], heard[k])
    ensures AllDecode(lane, frames[..n]) && SoundOf(lane, frames[..n]) == Flatten(heard[..n])
  {
    hide Sound, Decodes;
    if n > 0 {
      SoundInOrder(lane, heard, frames, n - 1);
      assert SoundsAs(lane, frames[n - 1], heard[n - 1]);
      assert frames[..n][..n - 1] == frames[..n - 1];
      assert heard[..n] == heard[..n - 1] + [heard[n - 1]];
      FlattenSnoc(heard[..n - 1], heard[n - 1]);
    }
  }

  /** When everything sounds equally long, the rendered bytes count the rendered frames. */
  lemma RenderedSize(lane: Lane, profile: J.Profile, heard: seq<seq<byte>>, fs: seq<Frame>, size: nat)
    requires Sounding(lane, heard, fs) && (forall b <- heard :: |b| == size) && |heard| < U64_LIMIT
    ensures var end := Finished(lane, AcceptedAll(lane, Fresh(profile), fs), |heard|);
            |end.rendered| == SizeOf(end.packetsRecv, size)
  {
    hide Finished, AcceptedAll, Sound;
    SoundingIsGood(lane, heard, fs);
    FinishRenders(lane, profile, fs, |heard|);
    var all := Rendered(profile.ReorderWindow(), profile.QueueCap(), fs);
    RenderedOnce(profile.ReorderWindow(), profile.QueueCap(), fs);
    forall i | 0 <= i < |all| ensures |Sound(lane, all[i])| == size {
      var j :| 0 <= j < |fs| && fs[j] == all[i];
      assert SoundsAs(lane, fs[j], heard[fs[j].seqNo]);
    }
    SoundSize(lane, all, size);
  }

  lemma {:induction false} SoundSize(lane: Lane, frames: seq<Frame>, size: nat)
    requires AllDecode(lane, frames) && forall i | 0 <= i < |frames| :: |Sound(lane, frames[i])| == size
    ensures |SoundOf(lane, frames)| == SizeOf(|frames|, size)
  {
    hide Sound, Decodes;
    if frames != [] { SoundSize(lane, frames[..|frames| - 1], size); }
  }

  // ---- The frames of a capture, in the order of their arrival ----

  /** A block that can be sent, and whose frame decodes. */
  ghost predicate Playable(lane: Lane, k: nat, block: seq<byte>)
    requires Built(lane.repr)
  {
    && PackedBlock(lane, k, block).Ok? && lane.encode(SamplesOf(WireWidth(lane.repr), block)).Ok?
    && lane.decode(lane.encode(SamplesOf(WireWidth(lane.repr), block)).value).Ok?
  }

  ghost predicate AllPlayable(lane: Lane, blocks: seq<seq<byte>>)
    requires Built(lane.repr)
  {
    forall k | 0 <= k < |blocks| :: Playable(lane, k, blocks[k])
  }

  /** What the render device gets for a block. */
  ghost function Heard(lane: Lane, k: nat, block: seq<byte>): seq<byte>
    requires Built(lane.repr) && Playable(lane, k, block)
  {
    var w := WireWidth(lane.repr);
    BytesOf(w, lane.decode(lane.encode(SamplesOf(w, block)).value).value)
  }

  ghost function BlockFrame(lane: Lane, blocks: seq<seq<byte>>, k: nat): Frame
    requires Built(lane.repr) && AllPlayable(lane, blocks) && k < |blocks|
  {
    assert Playable(lane, k, blocks[k]);
    FrameOf(lane, k % U64_LIMIT, SamplesOf(WireWidth(lane.repr), blocks[k]))
  }

  ghost function FramesIn(lane: Lane, blocks: seq<seq<byte>>, order: seq<nat>): (fs: seq<Frame>)
    requires Built(lane.repr) && AllPlayable(lane, blocks) && Covers(order, |blocks|)
    ensures |fs| == |order|
  {
    seq(|order|, i requires 0 <= i < |order| => BlockFrame(lane, blocks, order[i]))
  }

  /** The items of the wire that arrive, in the order of their arrival. */
  function ItemsIn(lane: Lane, blocks: seq<seq<byte>>, order: seq<nat>): (items: seq<seq<byte>>)
    requires Built(lane.repr) && forall i :: 0 <= i < |order| ==> order[i] < |blocks|
    ensures |items| == |order|
  {
    seq(|order|, i requires 0 <= i < |order| => WireOf(lane, blocks)[order[i]])
  }

  lemma BlockCarried(lane: Lane, blocks: seq<seq<byte>>, k: nat)
    requires Built(lane.repr) && AllPlayable(lane, blocks) && k < |blocks| < U64_LIMIT
    ensures var f := BlockFrame(lane, blocks, k);
            && Carries(lane, WireOf(lane, blocks)[k], f) && f.seqNo == k
            && Sound(lane, f) == Heard(lane, k, blocks[k])
            && WireOf(lane, blocks)[k] == ItemBytes(Audio(f)) && ValidItem(Audio(f))
  {
    assert Playable(lane, k, blocks[k]);
    var pcm := SamplesOf(WireWidth(lane.repr), blocks[k]);
    assert k % U64_LIMIT == k;
    SentFrameParses(lane, k, pcm);
    MadeFramePasses(lane, k, lane.encode(pcm).value);
  }

  lemma ItemsCarry(lane: Lane, blocks: seq<seq<byte>>, order: seq<nat>)
    requires Built(lane.repr) && AllPlayable(lane, blocks)
    requires Covers(order, |blocks|) && |blocks| < U64_LIMIT
    ensures AllCarry(lane, ItemsIn(lane, blocks, order), FramesIn(lane, blocks, order))
    ensures Order(FramesIn(lane, blocks, order)) == order
  {
    hide Carries, BlockFrame, WireOf, AllPlayable, Sound, Heard;
    var items, fs := ItemsIn(lane, blocks, order), FramesIn(lane, blocks, order);
    forall i | 0 <= i < |order|
      ensures Carries(lane, items[i], fs[i]) && fs[i].seqNo == order[i]
    {
      BlockCarried(lane, blocks, order[i]);
    }
  }

  // ---- The theorems ----

  /** What the render device gets for all blocks, in order. */
  ghost function HeardAll(lane: Lane, blocks: seq<seq<byte>>): (heard: seq<seq<byte>>)
    requires Built(lane.repr) && AllPlayable(lane, blocks)
    ensures |heard| == |blocks|
  {
    seq(|blocks|, k requires 0 <= k < |blocks| => Heard(lane, k, blocks[k]))
  }

  /** The receiver after all that arrives of a stream, and the end marker. */
  function AtTheEnd(lane: Lane, profile: J.Profile, blocks: seq<seq<byte>>, order: seq<nat>): State
    requires Built(lane.repr) && |blocks| < U64_LIMIT && forall i :: 0 <= i < |order| ==> order[i] < |blocks|
  {
    Received(lane, Fresh(profile), ItemsIn(lane, blocks, order) + [PackEnd(|blocks|)])
  }

  /** That is what the receiver makes of the frames that arrive. */
  lemma AtTheEndFinishes(lane: Lane, profile: J.Profile, blocks: seq<seq<byte>>, order: seq<nat>)
    requires Built(lane.repr) && AllPlayable(lane, blocks) && Covers(order, |blocks|) && |blocks| < U64_LIMIT
    ensures var fs := FramesIn(lane, blocks, order);
            && Order(fs) == order && Sounding(lane, HeardAll(lane, blocks), fs)
            && AtTheEnd(lane, profile, blocks, order)
            == Finished(lane, AcceptedAll(lane, Fresh(profile), fs), |blocks|)
  {
    hide Carries, BlockFrame, WireOf, AllPlayable, Sound, Heard, Finished, AcceptedAll, Received;
    var fs := FramesIn(lane, blocks, order);
    var items := ItemsIn(lane, blocks, order);
    ItemsCarry(lane, blocks, order);
    MarkerFinishes(lane, profile, items, fs, |blocks|);
    ReceivedIsAccepted(lane, Fresh(profile), items, fs);
    forall i | 0 <= i < |fs|
      ensures fs[i].seqNo == order[i] && SoundsAs(lane, fs[i], HeardAll(lane, blocks)[order[i]])
    {
      BlockCarried(lane, blocks, order[i]);
    }
  }

  /**
   A delivery of everything, in any order and with duplicates, is rendered without loss if and only if it is well
   ordered; then every block is heard once, in order.
   */
  lemma DeliveryExact(lane: Lane, profile: J.Profile, blocks: seq<seq<byte>>, order: seq<nat>)
    requires Built(lane.repr) && AllPlayable(lane, blocks) && Covers(order, |blocks|) && |blocks| < U64_LIMIT
    ensures var end := AtTheEnd(lane, profile, blocks, order);
            && end.packetsRecv <= |blocks| && end.loss == |blocks| - end.packetsRecv && end.malformed == 0
            && (end.loss == 0 <==> WellOrdered(profile, order))
            && (WellOrdered(profile, order) ==>
                  end.rendered == Flatten(HeardAll(lane, blocks)) && CountsRepeats(profile, order, end))
  {
    hide Finished, AcceptedAll, AtTheEnd, AllPlayable, FramesIn, HeardAll, WellOrdered, Sounding;
    var fs := FramesIn(lane, blocks, order);
    AtTheEndFinishes(lane, profile, blocks, order);
    FramesDelivered(lane, profile, HeardAll(lane, blocks), fs);
    SoundingIsGood(lane, HeardAll(lane, blocks), fs);
    FinishRenders(lane, profile, fs, |blocks|);
  }

  /** When all blocks sound equally long, the rendered bytes count the rendered frames. */
  lemma DeliverySize(lane: Lane, profile: J.Profile, blocks: seq<seq<byte>>, order: seq<nat>, size: nat)
    requires Built(lane.repr) && AllPlayable(lane, blocks) && Covers(order, |blocks|) && |blocks| < U64_LIMIT
    requires forall b <- HeardAll(lane, blocks) :: |b| == size
    ensures var end := AtTheEnd(lane, profile, blocks, order);
            |end.rendered| == SizeOf(end.packetsRecv, size)
  {
    hide Finished, AcceptedAll, AtTheEnd, AllPlayable, FramesIn, HeardAll, Sounding;
    AtTheEndFinishes(lane, profile, blocks, order);
    RenderedSize(lane, profile, HeardAll(lane, blocks), FramesIn(lane, blocks, order), size);
  }
}
