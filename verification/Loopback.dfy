/**
 The sink and the receiver run against each other: a capture goes into the sink in whatever blocks it comes, what the
 transport took is handed to the receiver in whatever order the network likes, over datagrams or over reliable streams.
 */
module Loopback {
  import opened Prelude
  import opened Frames
  import opened Deframing
  import opened Framing
  import opened Pcm
  import opened Emitter
  import opened Sink
  import opened Receiver
  import opened EndToEnd
  import opened Lossless
  import opened ReceiverServer
  import J = Jitter

  datatype LoopbackError = Sending(sink: SinkError) | Receiving(receiver: ReceiverError)

  /** The whole capture and the end of the stream; if every block can be packed, only the transport can fail. */
  method Capture(sink: QuicAudioSink, captured: seq<seq<byte>>) returns (r: Result<(), SinkError>)
    requires sink.Valid() && sink.InStep()
    modifies sink, sink.emitter
    ensures sink.Valid()
    ensures var blocks := Blocks(old(sink.fed) + Flatten(captured), WholeBytes(sink.lane));
            if r.Ok?
            then Packable(sink.lane, blocks)
                 && sink.emitter.wire == WireOf(sink.lane, blocks) + [PackEnd(|blocks| % U64_LIMIT)]
            else r == Err(Emitting(SendFailed)) || !Packable(sink.lane, blocks)
  {
    hide QuicAudioSink.InStep, WholeBytes, Blocks, WireOf, Packable, QuicAudioSink.StoppedAt;
    ghost var whole := WholeBytes(sink.lane);
    for i := 0 to |captured|
      invariant sink.Valid() && sink.InStep() && sink.fed == old(sink.fed) + Flatten(captured[..i])
    {
      assert captured[..i + 1] == captured[..i] + [captured[i]];
      FlattenSnoc(captured[..i], captured[i]);
      r := sink.OnBlock(captured[i]);
      if r.Err? {
        ghost var rest := Flatten(captured[i + 1..]);
        assert captured == captured[..i + 1] + captured[i + 1..];
        FlattenAppend(captured[..i + 1], captured[i + 1..]);
        assert old(sink.fed) + Flatten(captured) == sink.fed + rest;
        StoppedUnpackable(sink, r.error, rest);
        return;
      }
    }
    assert captured[..|captured|] == captured;
    r := sink.Finish();
  }

  /** A sink that stopped before a block met a transport failure, or a block that cannot be packed. */
  lemma StoppedUnpackable(sink: QuicAudioSink, e: SinkError, rest: seq<byte>)
    requires sink.Valid() && exists n: nat :: sink.StoppedAt(n, e)
    ensures e == Emitting(SendFailed) || !Packable(sink.lane, Blocks(sink.fed + rest, WholeBytes(sink.lane)))
  {
    hide WholeBytes, Blocks, PackedBlock, QuicAudioSink.OnWire;
    var n: nat :| sink.StoppedAt(n, e);
    var whole := WholeBytes(sink.lane);
    CutResumes(sink.fed, rest, whole);
    assert Blocks(sink.fed + rest, whole)[n] == Blocks(sink.fed, whole)[n];
  }

  /** The codec is lossless on every whole frame of the capture, and the network delivers all frames. */
  ghost predicate Deliverable(lane: Lane, captured: seq<seq<byte>>, order: seq<nat>)
    requires Driven(lane)
  {
    var blocks := Blocks(Flatten(captured), WholeBytes(lane));
    && (forall b <- blocks :: LosslessOn(lane, b)) && 0 < |blocks| < U64_LIMIT && Covers(order, |blocks|)
  }

  /** No loss, and the first N whole frames of the capture come out, if and only if the delivery is well ordered. */
  ghost predicate Exact(lane: Lane, profile: J.Profile, captured: seq<seq<byte>>, order: seq<nat>, end: State)
    requires Driven(lane)
  {
    var x, whole := Flatten(captured), WholeBytes(lane);
    var n := |Blocks(x, whole)|;
    && end.packetsRecv <= n && end.loss == n - end.packetsRecv
    && SizeOf(n, whole) <= |x| < SizeOf(n, whole) + whole
    && (end.loss == 0 <==> WellOrdered(profile, order))
    && (end.rendered == x[..SizeOf(n, whole)] <==> WellOrdered(profile, order))
  }

  lemma DeliverableIsPlayable(lane: Lane, profile: J.Profile, captured: seq<seq<byte>>, order: seq<nat>)
    requires Driven(lane) && Deliverable(lane, captured, order)
    ensures var blocks := Blocks(Flatten(captured), WholeBytes(lane));
            && order != [] && AllPlayable(lane, blocks) && Packable(lane, blocks)
            && Exact(lane, profile, captured, order, AtTheEnd(lane, profile, blocks, order))
  {
    hide AllPlayable, Packable, AtTheEnd, WholeBytes, LosslessOn, WellOrdered;
    var blocks := Blocks(Flatten(captured), WholeBytes(lane));
    assert 0 in order;
    AllHeardExactly(lane, blocks);
    CaptureIsRendered(lane, profile, captured, order);
    DeliveryExact(lane, profile, blocks, order);
  }

  /** What the transport took of the capture, the end marker last. */
  method Sent(lane: Lane, captured: seq<seq<byte>>) returns (r: Result<seq<seq<byte>>, LoopbackError>)
    requires Driven(lane)
    ensures var blocks := Blocks(Flatten(captured), WholeBytes(lane));
            && (r.Ok? ==> r.value == WireOf(lane, blocks) + [PackEnd(|blocks| % U64_LIMIT)])
            && (r.Err? && Packable(lane, blocks) ==> r.error == Sending(Emitting(SendFailed)))
  {
    hide QuicAudioSink.InStep, WholeBytes, Blocks, WireOf, Packable;
    var sink := new QuicAudioSink(lane);
    assert [] + Flatten(captured) == Flatten(captured);
    var sent := Capture(sink, captured);
    return if sent.Ok? then Ok(sink.emitter.wire) else Err(Sending(sent.error));
  }

  /** The items of the wire in the order of their arrival, and the end marker behind them. */
  method Arriving(wire: seq<seq<byte>>, order: seq<nat>) returns (items: seq<seq<byte>>)
    requires wire != [] && forall i :: 0 <= i < |order| ==> order[i] < |wire| - 1
    ensures |items| == |order| + 1 && items[|order|] == wire[|wire| - 1]
    ensures forall i :: 0 <= i < |order| ==> items[i] == wire[order[i]]
  {
    items := [];
    for i := 0 to |order|
      invariant |items| == i && forall j :: 0 <= j < i ==> items[j] == wire[order[j]]
    {
      items := items + [wire[order[i]]];
    }
    items := items + [wire[|wire| - 1]];
  }

  /** What arrives when the transport took the whole capture. */
  lemma ArrivesAs(lane: Lane, captured: seq<seq<byte>>, order: seq<nat>, wire: seq<seq<byte>>, items: seq<seq<byte>>)
    requires Driven(lane) && Deliverable(lane, captured, order)
    requires var blocks := Blocks(Flatten(captured), WholeBytes(lane));
             wire == WireOf(lane, blocks) + [PackEnd(|blocks| % U64_LIMIT)]
    requires |items| == |order| + 1 && items[|order|] == wire[|wire| - 1]
    requires forall i :: 0 <= i < |order| ==> order[i] < |wire| && items[i] == wire[order[i]]
    ensures var blocks := Blocks(Flatten(captured), WholeBytes(lane));
            && order != [] && items[0] == ItemsIn(lane, blocks, order)[0]
            && items[1..] == ItemsIn(lane, blocks, order)[1..] + [PackEnd(|blocks|)]
  {
    hide Packable, LosslessOn, WholeBytes, Blocks, WireOf, PackEnd;
    var blocks := Blocks(Flatten(captured), WholeBytes(lane));
    assert 0 in order;
    Picked(WireOf(lane, blocks), PackEnd(|blocks|), order, ItemsIn(lane, blocks, order), wire, items);
  }

  lemma Picked<T>(frames: seq<T>, marker: T, order: seq<nat>, picks: seq<T>, wire: seq<T>, items: seq<T>)
    requires wire == frames + [marker] && 0 < |order| == |picks|
    requires forall i :: 0 <= i < |order| ==> order[i] < |frames| && picks[i] == frames[order[i]]
    requires |items| == |order| + 1 && items[|order|] == marker
    requires forall i :: 0 <= i < |order| ==> items[i] == wire[order[i]]
    ensures items[0] == picks[0] && items[1..] == picks[1..] + [marker]
  {
    assert items == picks + [marker];
  }

  /** Sink to receiver over datagrams. */
  method OverDatagrams(lane: Lane, profile: J.Profile, captured: seq<seq<byte>>, order: seq<nat>)
    returns (r: Result<Receiver, LoopbackError>)
    requires Driven(lane) && Deliverable(lane, captured, order)
    ensures r.Ok? ==> Exact(lane, profile, captured, order, r.value.View())
    ensures r.Err? ==> r.error == Sending(Emitting(SendFailed))
  {
    hide Exact, AtTheEnd, AllPlayable, Packable, WireOf, WholeBytes, LosslessOn, ItemsIn, DatagramLaneRun, PackEnd;
    ghost var blocks := Blocks(Flatten(captured), WholeBytes(lane));
    DeliverableIsPlayable(lane, profile, captured, order);
    var sent := Sent(lane, captured);
    if sent.Err? {
      return Err(sent.error);
    }
    var items := Arriving(sent.value, order);
    ArrivesAs(lane, captured, order, sent.value, items);
    DatagramLane(lane, profile, blocks, order);
    var received := RunDatagramLane(lane, profile, items[0], items[1..]);
    return Ok(received.value);
  }

  // ---- Over streams ----

  /** The streams on which the given items travel, one each. */
  ghost predicate Carried(streams: seq<seq<seq<byte>>>, items: seq<seq<byte>>) {
    |streams| == |items| && forall i | 0 <= i < |items| :: HoldsItem(items[i], streams[i])
  }

  lemma {:induction false} CarriedDelivers(streams: seq<seq<seq<byte>>>, items: seq<seq<byte>>)
    requires Carried(streams, items)
    ensures Delivers(streams, items)
    decreases |items|
  {
    hide HoldsItem;
    if items != [] {
      assert HoldsItem(items[0], streams[0]);
      forall i | 0 <= i < |items[1..]| ensures HoldsItem(items[1..][i], streams[1..][i]) {
        assert HoldsItem(items[i + 1], streams[i + 1]);
      }
      CarriedDelivers(streams[1..], items[1..]);
    }
  }

  /** The network cuts a stream's bytes into chunks. */
  ghost predicate Cuts(cut: seq<byte> -> seq<seq<byte>>) {
    forall bytes: seq<byte> :: Flatten(cut(bytes)) == bytes
  }

  /** Every item wrapped onto a stream of its own. */
  method Streams(items: seq<seq<byte>>, cut: seq<byte> -> seq<seq<byte>>) returns (streams: seq<seq<seq<byte>>>)
    requires Cuts(cut) && forall i | 0 <= i < |items| :: |items[i]| <= MAX_ITEM
    ensures Carried(streams, items)
  {
    streams := [];
    for i := 0 to |items|
      invariant |streams| == i && forall j | 0 <= j < i :: HoldsItem(items[j], streams[j])
    {
      assert |items[i]| <= MAX_ITEM;
      streams := streams + [cut(WrapItem(items[i]))];
    }
  }

  /** No item that arrives exceeds the bound. */
  lemma ItemsFitStreams(lane: Lane, blocks: seq<seq<byte>>, order: seq<nat>)
    requires Built(lane.repr) && AllPlayable(lane, blocks) && Covers(order, |blocks|) && |blocks| < U64_LIMIT
    ensures forall b <- ItemsIn(lane, blocks, order) + [PackEnd(|blocks|)] :: |b| <= MAX_ITEM
  {
    hide AllPlayable, WireOf, BlockFrame, Carries, Sound, Heard;
    forall i | 0 <= i < |order| ensures |ItemsIn(lane, blocks, order)[i]| <= MAX_ITEM {
      BlockCarried(lane, blocks, order[i]);
      ItemRoundTrip(Audio(BlockFrame(lane, blocks, order[i])));
    }
  }

  /** Sink to receiver over reliable streams. */
  method OverStreams(lane: Lane, profile: J.Profile, captured: seq<seq<byte>>, order: seq<nat>,
                     cut: seq<byte> -> seq<seq<byte>>) returns (r: Result<Receiver, LoopbackError>)
    requires Driven(lane) && Deliverable(lane, captured, order) && Cuts(cut)
    ensures r.Ok? ==> Exact(lane, profile, captured, order, r.value.View())
    ensures r.Err? ==> r.error == Sending(Emitting(SendFailed))
  {
    hide AtTheEnd, AllPlayable, Packable, WireOf, WholeBytes, LosslessOn, ItemsIn, StreamLaneRun, PackEnd, Cuts,
         HoldsItem, WellOrdered, Delivers;
    ghost var blocks := Blocks(Flatten(captured), WholeBytes(lane));
    DeliverableIsPlayable(lane, profile, captured, order);
    var sent := Sent(lane, captured);
    if sent.Err? {
      return Err(sent.error);
    }
    var items := Arriving(sent.value, order);
    ArrivesAs(lane, captured, order, sent.value, items);
    ItemsFitStreams(lane, blocks, order);
    assert forall b <- items[1..] :: |b| <= MAX_ITEM;
    var streams := Streams(items[1..], cut);
    CarriedDelivers(streams, items[1..]);
    StreamLane(lane, profile, blocks, order, streams);
    var received := RunStreamLane(lane, profile, items[0], streams);
    return Ok(received.value);
  }
}
