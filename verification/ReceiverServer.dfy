/**
 The receive loops behind the first item: datagrams until the end marker, or reliable streams, each with its own buffer
 and read in chunks. A malformed item is counted and reading goes on.
 */
module ReceiverServer {
  import opened Prelude
  import opened Frames
  import opened Deframing
  import opened Framing
  import opened Pcm
  import opened Emitter
  import opened Receiver
  import opened EndToEnd
  import opened ReceiverLaws
  import J = Jitter

  // ---- Datagrams ----

  /** Datagrams are read until the stream has ended. */
  function DatagramsRead(lane: Lane, s: State, datagrams: seq<seq<byte>>): State
    decreases |datagrams|
  {
    if datagrams == [] || s.ended then s
    else DatagramsRead(lane, BytesIngested(lane, s, datagrams[0]).0, datagrams[1..])
  }

  // ---- Reliable streams ----

  /** All items of one take, in order. */
  function PushedAll(lane: Lane, s: State, items: seq<FramedItem>): State {
    if items == [] then s else ItemPushed(lane, PushedAll(lane, s, items[..|items| - 1]), items[|items| - 1])
  }

  function Miscounted(s: State, error: Option<FramingError>): State {
    if error.Some? then s.(malformed := s.malformed + 1) else s
  }

  /** One stream, chunk by chunk; whether the receiver has ended is looked at after each chunk. */
  function StreamRead(lane: Lane, s: State, buf: seq<byte>, chunks: seq<seq<byte>>): State
    decreases |chunks|
  {
    if chunks == [] then s
    else
      var taken := Take(Parse, buf + chunks[0]);
      var s' := PushedAll(lane, Miscounted(s, taken.error), taken.items);
      if s'.ended then s' else StreamRead(lane, s', taken.rest, chunks[1..])
  }

  function StreamsRead(lane: Lane, s: State, streams: seq<seq<seq<byte>>>): State
    decreases |streams|
  {
    if streams == [] || s.ended then s
    else StreamsRead(lane, StreamRead(lane, s, [], streams[0]), streams[1..])
  }

  // ---- Lanes ----

  /** The item that was read first, in order to learn the format, must be a frame that passes the guard. */
  function FirstFrame(first: seq<byte>): Result<Frame, ReceiverError> {
    match Parse(first)
    case Err(e) => Err(BadItem(e))
    case Ok(End(_)) => Err(EndFirst)
    case Ok(Audio(f)) =>
      var guard := GuardFrame(f);
      if guard.Err? then Err(BadFrame(guard.error)) else Ok(f)
  }

  function StreamLaneRun(lane: Lane, profile: J.Profile, first: seq<byte>, streams: seq<seq<seq<byte>>>)
    : Result<State, ReceiverError>
  {
    var f :- FirstFrame(first);
    Ok(StreamsRead(lane, ItemPushed(lane, Fresh(profile), Audio(f)), streams))
  }

  /** On this lane the first item goes through the same path as the rest. */
  function DatagramLaneRun(lane: Lane, profile: J.Profile, first: seq<byte>, datagrams: seq<seq<byte>>)
    : Result<State, ReceiverError>
  {
    var _ :- FirstFrame(first);
    Ok(DatagramsRead(lane, Fresh(profile), [first] + datagrams))
  }

  /** An end marker is no first item, so a stream without frames never starts. */
  lemma EndIsNoFirst(total: u64)
    ensures FirstFrame(PackEnd(total)) == Err(EndFirst)
  {
    ItemRoundTrip(End(total));
  }

  /** One stream until it closes or the receiver has ended. */
  method ReadStream(receiver: Receiver, chunks: seq<seq<byte>>)
    modifies receiver, receiver.buffer
    ensures receiver.View() == StreamRead(receiver.lane, old(receiver.View()), [], chunks)
  {
    hide Parse, ItemPushed;
    var buffer := new StreamBuffer(Parse);
    for i := 0 to |chunks|
      invariant fresh(buffer) && buffer.parse == Parse
      invariant StreamRead(receiver.lane, old(receiver.View()), [], chunks)
             == StreamRead(receiver.lane, receiver.View(), buffer.buf, chunks[i..])
    {
      assert chunks[i..][0] == chunks[i] && chunks[i..][1..] == chunks[i + 1..];
      ghost var before := receiver.View();
      buffer.Extend(chunks[i]);
      var items, error := buffer.TakeStreamItems();
      if error.Some? {
        receiver.CountMalformed();
      }
      assert receiver.View() == Miscounted(before, error);
      PushItems(receiver, items);
      if receiver.ended {
        return;
      }
    }
  }

  method PushItems(receiver: Receiver, items: seq<FramedItem>)
    modifies receiver, receiver.buffer
    ensures receiver.View() == PushedAll(receiver.lane, old(receiver.View()), items)
  {
    hide ItemPushed;
    for i := 0 to |items|
      invariant receiver.View() == PushedAll(receiver.lane, old(receiver.View()), items[..i])
    {
      assert items[..i + 1][..i] == items[..i];
      receiver.PushItem(items[i]);
    }
    assert items[..|items|] == items;
  }

  /** The lane over reliable streams, in the order in which they are accepted. */
  method RunStreamLane(lane: Lane, profile: J.Profile, first: seq<byte>, streams: seq<seq<seq<byte>>>)
    returns (r: Result<Receiver, ReceiverError>)
    ensures r.Ok? ==> fresh(r.value) && fresh(r.value.buffer)
    ensures (if r.Ok? then Ok(r.value.View()) else Err(r.error)) == StreamLaneRun(lane, profile, first, streams)
  {
    hide StreamRead, FirstFrame, ItemPushed;
    var f := FirstFrame(first);
    if f.Err? {
      return Err(f.error);
    }
    var receiver := new Receiver.ForStream(lane, profile);
    receiver.PushItem(Audio(f.value));
    ghost var start := receiver.View();
    for i := 0 to |streams|
      invariant fresh(receiver) && fresh(receiver.buffer) && receiver.lane == lane
      invariant StreamsRead(lane, start, streams) == StreamsRead(lane, receiver.View(), streams[i..])
    {
      if receiver.ended {
        return Ok(receiver);
      }
      assert streams[i..][0] == streams[i] && streams[i..][1..] == streams[i + 1..];
      ReadStream(receiver, streams[i]);
    }
    return Ok(receiver);
  }

  /** The lane over datagrams. */
  method RunDatagramLane(lane: Lane, profile: J.Profile, first: seq<byte>, datagrams: seq<seq<byte>>)
    returns (r: Result<Receiver, ReceiverError>)
    ensures r.Ok? ==> fresh(r.value) && fresh(r.value.buffer)
    ensures (if r.Ok? then Ok(r.value.View()) else Err(r.error)) == DatagramLaneRun(lane, profile, first, datagrams)
  {
    hide FirstFrame, BytesIngested;
    var f := FirstFrame(first);
    if f.Err? {
      return Err(f.error);
    }
    var receiver := new Receiver.ForStream(lane, profile);
    var all := [first] + datagrams;
    for i := 0 to |all|
      invariant fresh(receiver) && fresh(receiver.buffer) && receiver.lane == lane
      invariant DatagramsRead(lane, Fresh(profile), all) == DatagramsRead(lane, receiver.View(), all[i..])
    {
      if receiver.ended {
        return Ok(receiver);
      }
      assert all[i..][0] == all[i] && all[i..][1..] == all[i + 1..];
      var _ := receiver.IngestBytes(all[i]);
    }
    return Ok(receiver);
  }

  // ---- Datagrams: nothing after the first item is read differently ----

  /** As long as the stream has not ended, everything is read. */
  lemma {:induction false} ReadsOn(lane: Lane, s: State, items: seq<seq<byte>>, fs: seq<Frame>, tail: seq<seq<byte>>)
    requires AllCarry(lane, items, fs) && !s.ended
    ensures DatagramsRead(lane, s, items + tail) == DatagramsRead(lane, Received(lane, s, items), tail)
    decreases |items|
  {
    hide Carries, BytesIngested;
    if items == [] {
      assert items + tail == tail;
    } else {
      var n := |items| - 1;
      forall i | 0 <= i < n ensures Carries(lane, items[..n][i], fs[..n][i]) { assert Carries(lane, items[i], fs[i]); }
      assert items + tail == items[..n] + ([items[n]] + tail);
      ReadsOn(lane, s, items[..n], fs[..n], [items[n]] + tail);
      ReceivedIsAccepted(lane, s, items[..n], fs[..n]);
      assert ([items[n]] + tail)[1..] == tail;
    }
  }

  /** A delivery over datagrams, the end marker last, leaves the receiver where the delivery theorems say. */
  lemma DatagramLane(lane: Lane, profile: J.Profile, blocks: seq<seq<byte>>, order: seq<nat>)
    requires Built(lane.repr) && AllPlayable(lane, blocks) && Covers(order, |blocks|) && |blocks| < U64_LIMIT
    requires order != []
    ensures var items := ItemsIn(lane, blocks, order);
            DatagramLaneRun(lane, profile, items[0], items[1..] + [PackEnd(|blocks|)]) ==
              Ok(AtTheEnd(lane, profile, blocks, order))
  {
    hide AllPlayable, Carries, Parse, Received, BytesIngested;
    var items, fs, marker := ItemsIn(lane, blocks, order), FramesIn(lane, blocks, order), PackEnd(|blocks|);
    ItemsCarry(lane, blocks, order);
    assert Carries(lane, items[0], fs[0]);
    CarriedParses(lane, items[0], fs[0]);
    ReadsOn(lane, Fresh(profile), items, fs, [marker]);
    ReceivedIsAccepted(lane, Fresh(profile), items, fs);
    assert [items[0]] + (items[1..] + [marker]) == items + [marker];
    OneDatagram(lane, Received(lane, Fresh(profile), items), marker);
    ReceivedSnoc(lane, Fresh(profile), items, marker);
  }

  lemma OneDatagram(lane: Lane, s: State, item: seq<byte>)
    requires !s.ended
    ensures DatagramsRead(lane, s, [item]) == BytesIngested(lane, s, item).0
  {
    hide BytesIngested;
    assert [item][1..] == [];
  }

  lemma ReceivedSnoc(lane: Lane, s: State, items: seq<seq<byte>>, item: seq<byte>)
    ensures Received(lane, s, items + [item]) == BytesIngested(lane, Received(lane, s, items), item).0
  {
    hide BytesIngested;
    assert (items + [item])[..|items|] == items;
  }

  // ---- Reliable streams ----

  /** The stream holds one item and nothing else, in chunks of any size. */
  ghost predicate HoldsItem(item: seq<byte>, chunks: seq<seq<byte>>) {
    |item| <= MAX_ITEM && Flatten(chunks) == WrapItem(item)
  }

  /** No item ever comes out of the stream: its items are malformed or never become complete. */
  ghost predicate Silent(buf: seq<byte>, chunks: seq<seq<byte>>)
    decreases |chunks|
  {
    chunks == [] ||
    var taken := Take(Parse, buf + chunks[0]);
    taken.items == [] && Silent(taken.rest, chunks[1..])
  }

  /** The streams hold these items, one each and in this order; silent streams may come in between and behind. */
  ghost predicate Delivers(streams: seq<seq<seq<byte>>>, items: seq<seq<byte>>)
    decreases |streams|
  {
    items == [] ||
    (streams != [] &&
     ((HoldsItem(items[0], streams[0]) && Delivers(streams[1..], items[1..]))
      || (Silent([], streams[0]) && Delivers(streams[1..], items))))
  }

  /** The same state, except perhaps for how many malformed items were counted. */
  predicate Alike(s: State, t: State) {
    s.(malformed := 0) == t.(malformed := 0)
  }

  lemma {:induction false} AlikeRendered(lane: Lane, s: State, t: State, frames: seq<Frame>)
    requires Alike(s, t)
    ensures Alike(RenderedAll(lane, s, frames), RenderedAll(lane, t, frames))
  {
    if frames != [] { AlikeRendered(lane, s, t, frames[..|frames| - 1]); }
  }

  lemma AlikePushed(lane: Lane, s: State, t: State, item: FramedItem)
    requires Alike(s, t)
    ensures Alike(ItemPushed(lane, s, item), ItemPushed(lane, t, item))
  {
    hide GuardFrame, RenderedAll, J.Pushed, J.Drained;
    match item
    case Audio(f) =>
      var (jitter, ready) := J.Pushed(s.jitter, f);
      AlikeRendered(lane, s.(jitter := jitter, streamId := Some(f.streamId)),
                    t.(jitter := jitter, streamId := Some(f.streamId)), ready);
    case End(total) =>
      var (jitter, frames) := J.Drained(s.jitter);
      AlikeRendered(lane, s.(ended := true, expectedTotal := Some(total), jitter := jitter),
                    t.(ended := true, expectedTotal := Some(total), jitter := jitter), frames);
  }

  lemma {:induction false} SilentStreamRead(lane: Lane, s: State, buf: seq<byte>, chunks: seq<seq<byte>>)
    requires Silent(buf, chunks)
    ensures Alike(StreamRead(lane, s, buf, chunks), s)
    decreases |chunks|
  {
    if chunks != [] {
      var taken := Take(Parse, buf + chunks[0]);
      SilentStreamRead(lane, Miscounted(s, taken.error), taken.rest, chunks[1..]);
    }
  }

  lemma {:induction false} NothingMoreRead(lane: Lane, s: State, chunks: seq<seq<byte>>)
    requires Flatten(chunks) == []
    ensures StreamRead(lane, s, [], chunks) == s
    decreases |chunks|
  {
    if chunks != [] {
      NothingMoreRead(lane, s, chunks[1..]);
      assert [] + chunks[0] == [];
    }
  }

  lemma OneItemPushed(lane: Lane, s: State, item: FramedItem)
    ensures PushedAll(lane, s, [item]) == ItemPushed(lane, s, item)
  {
    assert [item][..0] == [];
  }

  /** A stream with one item hands it over, however it is cut into chunks, and miscounts nothing. */
  lemma {:induction false} ItemStreamRead(lane: Lane, s: State, body: seq<byte>, buf: seq<byte>,
                                          chunks: seq<seq<byte>>)
    requires Parse(body).Ok? && |body| <= MAX_ITEM
    requires buf < WrapItem(body) && buf + Flatten(chunks) == WrapItem(body) && !s.ended
    ensures StreamRead(lane, s, buf, chunks) == ItemPushed(lane, s, Parse(body).value)
    decreases |chunks|
  {
    hide Parse, ItemPushed;
    var all := buf + chunks[0];
    assert buf + Flatten(chunks) == all + Flatten(chunks[1..]);
    if |all| < |WrapItem(body)| {
      assert all == WrapItem(body)[..|all|];
      PartialTake(Parse, body, all);
      ItemStreamRead(lane, s, body, all, chunks[1..]);
    } else {
      assert all == WrapItem(body) && Flatten(chunks[1..]) == [];
      WholeTake(Parse, body, []);
      assert WrapItem(body) + [] == WrapItem(body);
      assert [Parse(body).value] + [] == [Parse(body).value];
      OneItemPushed(lane, s, Parse(body).value);
      NothingMoreRead(lane, ItemPushed(lane, s, Parse(body).value), chunks[1..]);
    }
  }

  /** Every item parses, and none but the last ends the stream. */
  ghost predicate Runs(lane: Lane, start: State, all: seq<seq<byte>>) {
    && (forall k | 0 <= k < |all| :: Parse(all[k]).Ok? && !Received(lane, start, all[..k]).ended)
    && Received(lane, start, all).ended
  }

  lemma ReceivedNext(lane: Lane, start: State, all: seq<seq<byte>>, k: nat)
    requires k < |all| && Parse(all[k]).Ok? && !Received(lane, start, all[..k]).ended
    ensures Received(lane, start, all[..k + 1])
         == ItemPushed(lane, Received(lane, start, all[..k]), Parse(all[k]).value)
  {
    hide Parse, FrameIngested, Finished;
    assert all[..k + 1][..k] == all[..k];
  }

  /** Reading the streams is receiving their items, whatever silent streams come in between. */
  lemma {:induction false} StreamsDeliver(lane: Lane, start: State, all: seq<seq<byte>>, k: nat, s: State,
                                          streams: seq<seq<seq<byte>>>)
    requires Runs(lane, start, all) && k <= |all| && Delivers(streams, all[k..])
    requires Alike(s, Received(lane, start, all[..k]))
    ensures Alike(StreamsRead(lane, s, streams), Received(lane, start, all))
    decreases |streams|
  {
    hide Parse, ItemPushed, Received, StreamRead, Silent, HoldsItem;
    if k == |all| {
      assert all[..k] == all;
    } else {
      var now := Received(lane, start, all[..k]);
      assert !now.ended && all[k..][0] == all[k] && all[k..][1..] == all[k + 1..];
      if HoldsItem(all[k], streams[0]) && Delivers(streams[1..], all[k + 1..]) {
        HeldItemRead(lane, s, all[k], streams[0]);
        AlikePushed(lane, s, now, Parse(all[k]).value);
        ReceivedNext(lane, start, all, k);
        StreamsDeliver(lane, start, all, k + 1, StreamRead(lane, s, [], streams[0]), streams[1..]);
      } else {
        SilentStreamRead(lane, s, [], streams[0]);
        StreamsDeliver(lane, start, all, k, StreamRead(lane, s, [], streams[0]), streams[1..]);
      }
    }
  }

  lemma HeldItemRead(lane: Lane, s: State, item: seq<byte>, chunks: seq<seq<byte>>)
    requires HoldsItem(item, chunks) && Parse(item).Ok? && !s.ended
    ensures StreamRead(lane, s, [], chunks) == ItemPushed(lane, s, Parse(item).value)
  {
    hide Parse, ItemPushed, StreamRead;
    assert [] + Flatten(chunks) == Flatten(chunks);
    ItemStreamRead(lane, s, item, [], chunks);
  }

  lemma {:induction false} ItemsRun(lane: Lane, profile: J.Profile, items: seq<seq<byte>>, fs: seq<Frame>, total: u64)
    requires AllCarry(lane, items, fs)
    ensures Runs(lane, Fresh(profile), items + [PackEnd(total)])
  {
    hide Parse, Carries, Finished;
    var all := items + [PackEnd(total)];
    forall k | 0 <= k < |all| ensures Parse(all[k]).Ok? && !Received(lane, Fresh(profile), all[..k]).ended {
      assert all[..k] == items[..k];
      if k < |items| {
        assert Carries(lane, items[k], fs[k]);
        CarriedParses(lane, items[k], fs[k]);
      } else {
        ItemRoundTrip(End(total));
      }
      forall i | 0 <= i < k ensures Carries(lane, items[..k][i], fs[..k][i]) { assert Carries(lane, items[i], fs[i]); }
      ReceivedIsAccepted(lane, Fresh(profile), items[..k], fs[..k]);
    }
    MarkerFinishes(lane, profile, items, fs, total);
    FinishEnds(lane, AcceptedAll(lane, Fresh(profile), fs), total);
  }

  lemma CarriedParses(lane: Lane, item: seq<byte>, f: Frame)
    requires Carries(lane, item, f)
    ensures Parse(item) == Ok(Audio(f)) && FirstFrame(item) == Ok(f)
  {
    hide Parse, GuardFrame, Good;
  }

  lemma FinishEnds(lane: Lane, s: State, total: u64)
    ensures Finished(lane, s, total).ended
  {
    var (jitter, frames) := J.Drained(s.jitter);
    RenderingKeepsEnded(lane, s.(ended := true, expectedTotal := Some(total), jitter := jitter), frames);
  }

  /**
   The reliable lane: every item that arrives comes on a stream of its own, cut into chunks in any way, and in between
   come streams out of which no item can be cut. Then the receiver ends exactly where the delivery theorems say, and
   nothing but its count of malformed items tells the difference.
   */
  lemma StreamLane(lane: Lane, profile: J.Profile, blocks: seq<seq<byte>>, order: seq<nat>,
                   streams: seq<seq<seq<byte>>>)
    requires Built(lane.repr) && AllPlayable(lane, blocks) && Covers(order, |blocks|) && |blocks| < U64_LIMIT
    requires order != [] && Delivers(streams, ItemsIn(lane, blocks, order)[1..] + [PackEnd(|blocks|)])
    ensures var end := StreamLaneRun(lane, profile, ItemsIn(lane, blocks, order)[0], streams);
            end.Ok? && Alike(end.value, AtTheEnd(lane, profile, blocks, order))
  {
    hide AllPlayable, Carries, Parse, Received, ItemPushed, StreamsRead, Delivers, Runs, FirstFrame;
    var items, fs := ItemsIn(lane, blocks, order), FramesIn(lane, blocks, order);
    var all := items + [PackEnd(|blocks|)];
    ItemsCarry(lane, blocks, order);
    ItemsRun(lane, profile, items, fs, |blocks|);
    assert Carries(lane, items[0], fs[0]);
    CarriedParses(lane, items[0], fs[0]);
    NothingReceived(lane, Fresh(profile), all);
    ReceivedNext(lane, Fresh(profile), all, 0);
    assert all[1..] == items[1..] + [PackEnd(|blocks|)];
    StreamsDeliver(lane, Fresh(profile), all, 1, ItemPushed(lane, Fresh(profile), Audio(fs[0])), streams);
  }

  lemma NothingReceived(lane: Lane, start: State, all: seq<seq<byte>>)
    ensures Received(lane, start, all[..0]) == start
  {
  }

  /** An item that does not parse, alone on its stream, is silent and is counted once. */
  lemma MalformedIsSilent(lane: Lane, s: State, body: seq<byte>)
    requires |body| <= MAX_ITEM && Parse(body).Err? && !s.ended
    ensures Silent([], [WrapItem(body)])
    ensures StreamRead(lane, s, [], [WrapItem(body)]) == s.(malformed := s.malformed + 1)
  {
    hide Parse;
    var wrapped := WrapItem(body);
    WrapPrefix(body, []);
    var chunks := [wrapped];
    assert wrapped + [] == wrapped && [] + wrapped == wrapped && chunks[1..] == [];
  }

  /** Behind a length over the bound nothing more comes out of the stream, and every further chunk counts once. */
  lemma {:induction false} OversizeStream(lane: Lane, s: State, buf: seq<byte>, chunks: seq<seq<byte>>)
    requires |buf| >= 2 && PrefixLength(buf) > MAX_ITEM && !s.ended
    ensures Silent(buf, chunks)
    ensures StreamRead(lane, s, buf, chunks) == s.(malformed := s.malformed + |chunks|)
    decreases |chunks|
  {
    if chunks != [] {
      assert PrefixLength(buf + chunks[0]) == PrefixLength(buf);
      assert Take(Parse, buf + chunks[0]) == Taken([], Some(Bounds), buf + chunks[0]);
      OversizeStream(lane, s.(malformed := s.malformed + 1), buf + chunks[0], chunks[1..]);
    }
  }

  // ---- What stops the loops ----

  /** The first item must be a frame that passes the guard; it is refused for what is wrong with it. */
  lemma FirstFrameExactly(first: seq<byte>)
    ensures FirstFrame(first).Ok? <==>
              Parse(first).Ok? && Parse(first).value.Audio? && Sane(Parse(first).value.frame)
    ensures FirstFrame(first).Ok? ==> Parse(first) == Ok(Audio(FirstFrame(first).value))
    ensures FirstFrame(first) == Err(EndFirst) <==> Parse(first).Ok? && Parse(first).value.End?
    ensures Parse(first).Err? ==> FirstFrame(first) == Err(BadItem(Parse(first).error))
  {
    hide Parse, GuardFrame, Sane;
    if Parse(first).Ok? && Parse(first).value.Audio? { GuardExactly(Parse(first).value.frame); }
  }

  /** Behind the end marker no chunk of the stream is read, no other stream and no datagram. */
  lemma MarkerStopsReading(lane: Lane, s: State, total: u64, chunks: seq<seq<byte>>, streams: seq<seq<seq<byte>>>,
                           datagrams: seq<seq<byte>>)
    requires !s.ended
    ensures StreamRead(lane, s, [], [WrapItem(PackEnd(total))] + chunks) == Finished(lane, s, total)
    ensures StreamsRead(lane, Finished(lane, s, total), streams) == Finished(lane, s, total)
    ensures DatagramsRead(lane, s, [PackEnd(total)] + datagrams) == Finished(lane, s, total)
  {
    hide Finished, Parse, StreamRead, DatagramsRead, BytesIngested, PackEnd;
    FinishEnds(lane, s, total);
    MarkerStopsStream(lane, s, total, chunks);
    MarkerStopsDatagrams(lane, s, total, datagrams);
  }

  lemma MarkerStopsStream(lane: Lane, s: State, total: u64, chunks: seq<seq<byte>>)
    requires !s.ended
    ensures StreamRead(lane, s, [], [WrapItem(PackEnd(total))] + chunks) == Finished(lane, s, total)
  {
    hide Finished, Parse, PackEnd, Take, PushedAll;
    ItemRoundTrip(End(total));
    FinishEnds(lane, s, total);
    var wrapped := WrapItem(PackEnd(total));
    MarkerTaken(total);
    OneItemPushed(lane, s, End(total));
    assert [] + wrapped == wrapped && ([wrapped] + chunks)[0] == wrapped;
  }

  lemma MarkerTaken(total: u64)
    ensures Take(Parse, WrapItem(PackEnd(total))) == Taken([End(total)], None, [])
  {
    hide Parse, PackEnd;
    ItemRoundTrip(End(total));
    var wrapped := WrapItem(PackEnd(total));
    WholeTake(Parse, PackEnd(total), []);
    assert wrapped + [] == wrapped && [End(total)] + [] == [End(total)];
  }

  lemma MarkerStopsDatagrams(lane: Lane, s: State, total: u64, datagrams: seq<seq<byte>>)
    requires !s.ended
    ensures DatagramsRead(lane, s, [PackEnd(total)] + datagrams) == Finished(lane, s, total)
  {
    hide Finished, Parse, PackEnd;
    ItemRoundTrip(End(total));
    FinishEnds(lane, s, total);
    var all := [PackEnd(total)] + datagrams;
    assert all[0] == PackEnd(total) && all[1..] == datagrams;
  }
}
