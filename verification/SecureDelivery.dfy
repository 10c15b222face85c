/**
 The secure lane from end to end: encode, seal, checksum the ciphertext, pack; and on the other side parse, guard, open,
 put in order, decode and render. The replay window refuses what comes again and what comes too late.
 */
module SecureDelivery {
  import opened Prelude
  import opened Crc32
  import opened Frames
  import opened Framing
  import opened Machines
  import opened Pcm
  import opened Emitter
  import opened Sink
  import opened Receiver
  import opened Replay
  import DC = DataCipher
  import S = Secure
  import opened JitterRuns
  import opened ArrivalOrder
  import opened JitterOrder
  import opened JitterCapacity
  import opened EndToEnd
  import opened Lossless
  import J = Jitter

  // ---- The receiving side of the lane ----

  datatype SecureState = SecureState(receiver: State, rx: DC.Cipher, secRejected: nat)

  /** The guard sees the ciphertext; only what it passes and the cipher opens enters the pipeline. */
  function SecureIngested(lane: Lane, s: SecureState, f: Frame): SecureState {
    if GuardFrame(f).Err? then s.(receiver := s.receiver.(malformed := s.receiver.malformed + 1))
    else
      var (rx, unsealed) := S.Open(s.rx, f.seqNo, f.payload);
      match unsealed
      case Ok(p) => s.(rx := rx, receiver := Accepted(lane, s.receiver, f.(payload := p)))
      case Err(_) => s.(rx := rx, secRejected := s.secRejected + 1)
  }

  function SecurePushed(lane: Lane, s: SecureState, item: FramedItem): SecureState {
    match item
    case Audio(f) => SecureIngested(lane, s, f)
    case End(total) => if s.receiver.ended then s else s.(receiver := Finished(lane, s.receiver, total))
  }

  /** Items cut out of the lane's streams, in order; one that does not parse is counted. */
  function SecureReceived(lane: Lane, s: SecureState, items: seq<seq<byte>>): SecureState {
    if items == [] then s
    else
      var before := SecureReceived(lane, s, items[..|items| - 1]);
      match Parse(items[|items| - 1])
      case Err(_) => before.(receiver := before.receiver.(malformed := before.receiver.malformed + 1))
      case Ok(item) => SecurePushed(lane, before, item)
  }

  function SecureFresh(profile: J.Profile, aead: DC.Aead): SecureState {
    SecureState(Fresh(profile), DC.Fresh(aead, DC.Confirmed), 0)
  }

  class SecureReceiver {
    const receiver: Receiver
    const session: S.SecureSession
    var secRejected: nat

    ghost predicate Valid()
      reads this, session, session.tx, session.rx, session.tx.inbound, session.rx.inbound,
            session.tx.inbound.bitset, session.rx.inbound.bitset
    {
      session.Valid()
    }

    ghost function View(): SecureState
      reads this, receiver, receiver.buffer, session, session.rx, session.rx.inbound
    {
      SecureState(receiver.View(), session.rx.State(), secRejected)
    }

    constructor (lane: Lane, profile: J.Profile, aead: DC.Aead)
      ensures Valid() && fresh(receiver) && fresh(receiver.buffer) && fresh(session) && fresh(session.rx)
      ensures receiver.lane == lane && View() == SecureFresh(profile, aead)
    {
      receiver := new Receiver.ForStream(lane, profile);
      session := new S.SecureSession.FinishSession(aead);
      secRejected := 0;
    }

    method IngestSecure(f: Frame)
      requires Valid()
      modifies this, receiver, receiver.buffer, session.rx.inbound, session.rx.inbound.bitset
      ensures Valid() && View() == SecureIngested(receiver.lane, old(View()), f)
    {
      var guard := GuardFrame(f);
      if guard.Err? {
        receiver.CountMalformed();
        return;
      }
      var unsealed := session.OpenFrame(f.seqNo, f.payload);
      match unsealed {
        case Ok(p) => receiver.IngestFramePostGuard(f.(payload := p));
        case Err(_) => secRejected := secRejected + 1;
      }
    }
  }

  // ---- Damage and forgery ----

  /**
   A sealed frame damaged within any 32 consecutive bits of its ciphertext is stopped by the guard, before the replay
   window: nothing changes but a counter, and the frame itself can still be opened when it comes again.
   */
  lemma DamageSpendsNothing(lane: Lane, s: SecureState, f: Frame, damaged: seq<byte>, from: nat)
    requires GuardFrame(f).Ok? && IsLossless(f) && damaged != f.payload && DifferInBurst(f.payload, damaged, from)
    ensures var s' := SecureIngested(lane, s, f.(payload := damaged));
            && s' == s.(receiver := s.receiver.(malformed := s.receiver.malformed + 1))
            && S.Open(s'.rx, f.seqNo, f.payload) == S.Open(s.rx, f.seqNo, f.payload)
  {
    hide GuardFrame;
    DamageRejected(f, damaged, from);
  }

  /** A frame with a right checksum and a forged payload passes the guard, is rejected, and spends its number. */
  lemma ForgerySpendsNumber(lane: Lane, s: SecureState, forged: Frame, f: Frame)
    requires GuardFrame(forged).Ok? && s.rx.status.Confirmed? && s.rx.aead.open(forged.seqNo, forged.payload).None?
    requires GuardFrame(f).Ok? && f.seqNo == forged.seqNo
    ensures var s' := SecureIngested(lane, s, forged);
            && s'.receiver == s.receiver && s'.secRejected == s.secRejected + 1
            && SecureIngested(lane, s', f) == s'.(secRejected := s.secRejected + 2)
  {
    hide GuardFrame;
  }

  // ---- What the replay window lets through ----

  /** No number arrives for the first time when one that is a replay window or more ahead has arrived before. */
  ghost predicate InReplayWindow(order: seq<nat>) {
    forall i | 0 <= i < |order| :: InTime(order, i)
  }

  predicate InTime(order: seq<nat>, i: nat)
    requires i < |order|
  {
    order[i] in order[..i] || forall c <- order[..i] :: c < order[i] + WINDOW_SIZE
  }

  /** The arrivals that are opened. */
  function Admitted(order: seq<u64>): (admitted: seq<u64>) {
    if order == [] then []
    else
      var front, last := order[..|order| - 1], order[|order| - 1];
      if Admissible(AcceptedBy(front), last) then Admitted(front) + [last] else Admitted(front)
  }

  lemma {:induction false} AdmittedAreFirsts(order: seq<u64>)
    requires InReplayWindow(order)
    ensures Admitted(order) == Firsts(order)
  {
    if order != [] {
      var front, last := order[..|order| - 1], order[|order| - 1];
      forall i | 0 <= i < |front| ensures InTime(front, i) {
        assert InTime(order, i) && front[..i] == order[..i];
      }
      AdmittedAreFirsts(front);
      assert InTime(order, |front|);
      DC.AdmissibleMeans(front, last);
    }
  }

  lemma {:induction false} AdmittedArrived(order: seq<u64>)
    ensures forall x <- Admitted(order) :: x in order
  {
    if order != [] {
      AdmittedArrived(order[..|order| - 1]);
      assert order == order[..|order| - 1] + [order[|order| - 1]];
    }
  }

  /** What is admitted was in time when it first arrived. */
  lemma {:induction false} AdmittedInTime(order: seq<u64>, i: nat)
    requires i < |order| && order[i] !in order[..i]
    ensures order[i] in Admitted(order) ==> InTime(order, i)
  {
    var front, last := order[..|order| - 1], order[|order| - 1];
    DC.AdmissibleMeans(front, last);
    if i < |front| {
      assert front[..i] == order[..i] && front[i] in front;
      AdmittedInTime(front, i);
    } else {
      AdmittedArrived(front);
    }
  }

  /** What first arrives too late is never admitted. */
  lemma LateIsMissing(order: seq<u64>, i: nat)
    requires i < |order| && !InTime(order, i)
    ensures order[i] !in Admitted(order)
  {
    AdmittedInTime(order, i);
  }

  /** A reorder window below the replay window keeps everything in time. */
  lemma WindowKeepsInTime(window: nat, order: seq<nat>)
    requires BoundedReorder(window, order) && window < WINDOW_SIZE
    ensures InReplayWindow(order)
  {
    forall i | 0 <= i < |order| ensures InTime(order, i) {
      forall c | c in order[..i] && order[i] !in order[..i] ensures c < order[i] + WINDOW_SIZE {
        var j :| 0 <= j < i && order[j] == c;
        assert Timely(window, order, j) && Timely(window, order, i);
        assert order[i] !in order[..j];
      }
    }
  }

  /** `Balanced` waits for frame 1 as long as 256 frames behind it, but by then the replay window has closed on it. */
  lemma BalancedOutwaitsReplay()
    ensures WellOrdered(J.Balanced, LateOne(256)) && !InReplayWindow(LateOne(256))
  {
    var order := LateOne(256);
    LateOneRoom(256, 512);
    assert order[257] == 1 && order[..257][256] == 257;
    assert 1 !in order[..257] && 257 in order[..257];
    assert !InTime(order, 257);
  }

  // ---- The sending side ----

  function Payload(lane: Lane, block: seq<byte>): seq<byte>
    requires Built(lane.repr)
  {
    var r := lane.encode(SamplesOf(WireWidth(lane.repr), block));
    if r.Ok? then r.value else []
  }

  /** The codec is lossless on the block and leaves room for the tag. */
  ghost predicate SealableOn(lane: Lane, block: seq<byte>)
    requires Built(lane.repr)
  {
    LosslessOn(lane, block) && |Payload(lane, block)| + DC.TAG_BYTES <= MAX_FRAME_PAYLOAD
  }

  ghost predicate AllSealable(lane: Lane, blocks: seq<seq<byte>>)
    requires Driven(lane)
  {
    forall b <- blocks :: |b| == WholeBytes(lane) && SealableOn(lane, b)
  }

  /** What goes out when the blocks are offered for sealing one by one and the transport takes every frame. */
  function Offers(lane: Lane, blocks: seq<seq<byte>>): (offers: seq<S.Offer>)
    requires Built(lane.repr)
    ensures |offers| == |blocks|
  {
    seq(|blocks|, k requires 0 <= k < |blocks| => S.Offer(Payload(lane, blocks[k]), true))
  }

  function SealedFrame(lane: Lane, aead: DC.Aead, blocks: seq<seq<byte>>, k: u64): Frame
    requires Built(lane.repr) && k < |blocks|
  {
    MakeFrame(lane, k, aead.seal(k, Payload(lane, blocks[k])))
  }

  /** The sender after `n` frames, and what it did. */
  function Sealer(aead: DC.Aead, n: u64): S.Lane {
    S.Lane(DC.Fresh(aead, DC.Confirmed).(outIndex := n), n)
  }

  function SentSteps(lane: Lane, aead: DC.Aead, blocks: seq<seq<byte>>, n: nat): seq<S.Step>
    requires Built(lane.repr) && n <= |blocks| < U64_LIMIT
  {
    seq(n, k requires 0 <= k < n => S.Sent(k, SealedFrame(lane, aead, blocks, k).payload))
  }

  /** Every block is sealed under its number. */
  lemma {:induction false} AllSealed(lane: Lane, aead: DC.Aead, blocks: seq<seq<byte>>, n: nat)
    requires Driven(lane) && AllSealable(lane, blocks) && n <= |blocks| < U64_LIMIT
    ensures StateAfter(S.Emit, S.StartLane(aead), Offers(lane, blocks)[..n]) == Sealer(aead, n)
    ensures OutputOf(S.Emit, S.StartLane(aead), Offers(lane, blocks)[..n]) == SentSteps(lane, aead, blocks, n)
  {
    hide SealableOn, Payload, WholeBytes, S.Emit, SealedFrame, Offers;
    if n == 0 {
      assert SentSteps(lane, aead, blocks, 0) == [];
    } else {
      hide SentSteps, Sealer;
      var offers := Offers(lane, blocks);
      AllSealed(lane, aead, blocks, n - 1);
      assert blocks[n - 1] in blocks;
      OneSealed(lane, aead, blocks, n - 1);
      RunSnoc(S.Emit, S.StartLane(aead), offers[..n - 1], offers[n - 1]);
      assert offers[..n] == offers[..n - 1] + [offers[n - 1]];
    }
  }

  lemma OneSealed(lane: Lane, aead: DC.Aead, blocks: seq<seq<byte>>, k: nat)
    requires Driven(lane) && k < |blocks| < U64_LIMIT && SealableOn(lane, blocks[k])
    ensures var (next, steps) := S.Emit(Sealer(aead, k), Offers(lane, blocks)[k]);
            && next == Sealer(aead, k + 1)
            && SentSteps(lane, aead, blocks, k) + steps == SentSteps(lane, aead, blocks, k + 1)
  {
    hide Payload;
    PayloadFits(lane, blocks[k]);
  }

  lemma PayloadFits(lane: Lane, block: seq<byte>)
    requires Built(lane.repr) && SealableOn(lane, block)
    ensures |Payload(lane, block)| + DC.TAG_BYTES <= MAX_FRAME_PAYLOAD
  {
  }

  /** The same frame once it is opened. */
  function OpenedFrame(lane: Lane, aead: DC.Aead, blocks: seq<seq<byte>>, k: u64): Frame
    requires Built(lane.repr) && k < |blocks|
  {
    SealedFrame(lane, aead, blocks, k).(payload := Payload(lane, blocks[k]))
  }

  lemma SealedCarried(lane: Lane, aead: DC.Aead, blocks: seq<seq<byte>>, k: u64)
    requires Driven(lane) && AllSealable(lane, blocks) && k < |blocks| && aead.Sound()
    ensures var f := SealedFrame(lane, aead, blocks, k);
            && Pack(f).Ok? && Parse(Pack(f).value) == Ok(Audio(f)) && GuardFrame(f).Ok?
            && f.seqNo == k && aead.open(k, f.payload) == Some(Payload(lane, blocks[k]))
  {
    hide GuardFrame, Parse, Payload, WholeBytes;
    var f := SealedFrame(lane, aead, blocks, k);
    assert blocks[k] in blocks;
    PayloadFits(lane, blocks[k]);
    ItemRoundTrip(Audio(f));
    MadeFramePasses(lane, k, f.payload);
  }

  lemma OpenedSounds(lane: Lane, aead: DC.Aead, blocks: seq<seq<byte>>, k: u64)
    requires Driven(lane) && AllSealable(lane, blocks) && k < |blocks|
    ensures var f := OpenedFrame(lane, aead, blocks, k);
            f.seqNo == k && Good(lane, f) && SoundsAs(lane, f, blocks[k])
  {
    assert blocks[k] in blocks;
    HeardExactly(lane, k, blocks[k]);
  }

  // ---- The run ----

  /** Every number below the total, and nothing else. */
  predicate Below(order: seq<nat>, total: nat) {
    forall i :: 0 <= i < |order| ==> order[i] < total
  }

  /** The packed frames that arrive, in the order of their arrival. */
  function SealedItems(lane: Lane, aead: DC.Aead, blocks: seq<seq<byte>>, order: seq<u64>): (items: seq<seq<byte>>)
    requires Built(lane.repr) && Below(order, |blocks|)
    ensures |items| == |order|
  {
    seq(|order|, i requires 0 <= i < |order| => Encode(SealedFrame(lane, aead, blocks, order[i])))
  }

  function OpenedFrames(lane: Lane, aead: DC.Aead, blocks: seq<seq<byte>>, order: seq<u64>): (fs: seq<Frame>)
    requires Built(lane.repr) && Below(order, |blocks|)
    ensures |fs| == |order|
  {
    seq(|order|, i requires 0 <= i < |order| => OpenedFrame(lane, aead, blocks, order[i]))
  }

  lemma AdmittedBelow(order: seq<u64>, total: nat)
    requires Below(order, total)
    ensures Below(Admitted(order), total) && |Admitted(order)| <= |order|
  {
    if order != [] { AdmittedBelow(order[..|order| - 1], total); }
  }

  /** The receiver has accepted the admitted frames, opened, and rejected the rest. */
  ghost predicate Opening(lane: Lane, aead: DC.Aead, profile: J.Profile, blocks: seq<seq<byte>>, order: seq<u64>,
                          s: SecureState)
    requires Built(lane.repr)
  {
    && Below(order, |blocks|) && Below(Admitted(order), |blocks|)
    && s.rx == DC.Fresh(aead, DC.Confirmed).(accepted := AcceptedBy(order))
    && s.receiver == AcceptedAll(lane, Fresh(profile), OpenedFrames(lane, aead, blocks, Admitted(order)))
    && s.secRejected + |Admitted(order)| == |order|
  }

  lemma {:induction false} SecureRun(lane: Lane, aead: DC.Aead, profile: J.Profile, blocks: seq<seq<byte>>,
                                     order: seq<u64>)
    requires Driven(lane) && AllSealable(lane, blocks) && aead.Sound() && Below(order, |blocks|)
    ensures var items := SealedItems(lane, aead, blocks, order);
            Opening(lane, aead, profile, blocks, order, SecureReceived(lane, SecureFresh(profile, aead), items))
  {
    hide Opening, SecureIngested, Parse, SealedFrame, AllSealable, Encode;
    if order == [] {
      NothingOpened(lane, aead, profile, blocks);
      assert SealedItems(lane, aead, blocks, order) == [];
    } else {
      var front, last := order[..|order| - 1], order[|order| - 1];
      SecureRun(lane, aead, profile, blocks, front);
      var items := SealedItems(lane, aead, blocks, order);
      assert items[..|order| - 1] == SealedItems(lane, aead, blocks, front);
      var before := SecureReceived(lane, SecureFresh(profile, aead), items[..|order| - 1]);
      SealedCarried(lane, aead, blocks, last);
      OneMoreOpened(lane, aead, profile, blocks, front, last, before);
      assert front + [last] == order;
    }
  }

  lemma NothingOpened(lane: Lane, aead: DC.Aead, profile: J.Profile, blocks: seq<seq<byte>>)
    requires Built(lane.repr)
    ensures Opening(lane, aead, profile, blocks, [], SecureFresh(profile, aead))
  {
    assert OpenedFrames(lane, aead, blocks, []) == [];
  }

  lemma OneMoreOpened(lane: Lane, aead: DC.Aead, profile: J.Profile, blocks: seq<seq<byte>>, front: seq<u64>,
                      last: u64, s: SecureState)
    requires Driven(lane) && AllSealable(lane, blocks) && aead.Sound() && last < |blocks|
    requires Opening(lane, aead, profile, blocks, front, s)
    ensures Opening(lane, aead, profile, blocks, front + [last],
                    SecureIngested(lane, s, SealedFrame(lane, aead, blocks, last)))
  {
    hide GuardFrame, Accepted, Admissible, AllSealable, Payload, SealedFrame, SecureIngested, AcceptedAll;
    var order := front + [last];
    assert order[..|front|] == front;
    SealedCarried(lane, aead, blocks, last);
    AdmittedBelow(order, |blocks|);
    IngestedMeans(lane, s, SealedFrame(lane, aead, blocks, last), Payload(lane, blocks[last]));
    if Admissible(AcceptedBy(front), last) {
      OpenedNext(lane, aead, Fresh(profile), blocks, Admitted(front), last);
    }
  }

  lemma IngestedMeans(lane: Lane, s: SecureState, f: Frame, p: seq<byte>)
    requires GuardFrame(f).Ok? && s.rx.status.Confirmed? && s.rx.aead.open(f.seqNo, f.payload) == Some(p)
    ensures SecureIngested(lane, s, f) ==
              if Admissible(s.rx.accepted, f.seqNo)
              then s.(rx := s.rx.(accepted := Recorded(s.rx.accepted, f.seqNo)),
                      receiver := Accepted(lane, s.receiver, f.(payload := p)))
              else s.(secRejected := s.secRejected + 1)
  {
    hide GuardFrame, Accepted, InReach;
  }

  lemma OpenedNext(lane: Lane, aead: DC.Aead, s: State, blocks: seq<seq<byte>>, admitted: seq<u64>, k: u64)
    requires Built(lane.repr) && Below(admitted, |blocks|) && k < |blocks|
    ensures Below(admitted + [k], |blocks|)
    ensures AcceptedAll(lane, s, OpenedFrames(lane, aead, blocks, admitted + [k]))
         == Accepted(lane, AcceptedAll(lane, s, OpenedFrames(lane, aead, blocks, admitted)),
                     OpenedFrame(lane, aead, blocks, k))
  {
    hide Accepted, OpenedFrame;
    var fs := OpenedFrames(lane, aead, blocks, admitted + [k]);
    assert fs[..|admitted|] == OpenedFrames(lane, aead, blocks, admitted);
    assert fs[|fs| - 1] == OpenedFrame(lane, aead, blocks, k);
  }

  // ---- Delivery ----

  /** The opened frames sound as the blocks they were made of. */
  lemma OpenedSounding(lane: Lane, aead: DC.Aead, blocks: seq<seq<byte>>, order: seq<u64>)
    requires Driven(lane) && AllSealable(lane, blocks) && Below(order, |blocks|)
    ensures var fs := OpenedFrames(lane, aead, blocks, order); Order(fs) == order && Sounding(lane, blocks, fs)
  {
    hide SoundsAs, Good, AllSealable, OpenedFrame;
    var fs := OpenedFrames(lane, aead, blocks, order);
    forall i | 0 <= i < |fs|
      ensures fs[i].seqNo == order[i] && Good(lane, fs[i]) && SoundsAs(lane, fs[i], blocks[order[i]])
    {
      OpenedSounds(lane, aead, blocks, order[i]);
    }
  }

  /** The receiver after all sealed frames that arrive, and the end marker. */
  function SecureEnd(lane: Lane, aead: DC.Aead, profile: J.Profile, blocks: seq<seq<byte>>, order: seq<u64>)
    : SecureState
    requires Built(lane.repr) && Below(order, |blocks|) && |blocks| < U64_LIMIT
  {
    SecureReceived(lane, SecureFresh(profile, aead),
                   SealedItems(lane, aead, blocks, order) + [PackEnd(|blocks|)])
  }

  lemma SecureEndFinishes(lane: Lane, aead: DC.Aead, profile: J.Profile, blocks: seq<seq<byte>>, order: seq<u64>)
    requires Driven(lane) && AllSealable(lane, blocks) && aead.Sound()
    requires Below(order, |blocks|) && |blocks| < U64_LIMIT
    ensures Below(Admitted(order), |blocks|)
    ensures var fs := OpenedFrames(lane, aead, blocks, Admitted(order));
            var end := SecureEnd(lane, aead, profile, blocks, order);
            && Sounding(lane, blocks, fs) && Order(fs) == Admitted(order)
            && end.receiver == Finished(lane, AcceptedAll(lane, Fresh(profile), fs), |blocks|)
            && end.secRejected + |Admitted(order)| == |order|
  {
    hide AllSealable, Finished, Parse, SecureIngested, Sounding;
    AdmittedBelow(order, |blocks|);
    SecureRun(lane, aead, profile, blocks, order);
    OpenedSounding(lane, aead, blocks, Admitted(order));
    var fs := OpenedFrames(lane, aead, blocks, Admitted(order));
    var items := SealedItems(lane, aead, blocks, order);
    assert (items + [PackEnd(|blocks|)])[..|items|] == items;
    ItemRoundTrip(End(|blocks|));
    SoundingIsGood(lane, blocks, fs);
    AcceptedStaysOpen(lane, Fresh(profile), fs);
  }

  lemma {:induction false} AcceptedStaysOpen(lane: Lane, s: State, fs: seq<Frame>)
    ensures AcceptedAll(lane, s, fs).ended == s.ended
  {
    if fs != [] {
      AcceptedStaysOpen(lane, s, fs[..|fs| - 1]);
      StaysOpen(lane, AcceptedAll(lane, s, fs[..|fs| - 1]), fs[|fs| - 1]);
    }
  }

  lemma InTimeDelivery(lane: Lane, profile: J.Profile, blocks: seq<seq<byte>>, order: seq<u64>, fs: seq<Frame>)
    requires Sounding(lane, blocks, fs) && Order(fs) == Admitted(order) && InReplayWindow(order)
    requires Covers(order, |blocks|) && |blocks| < U64_LIMIT
    ensures var end := Finished(lane, AcceptedAll(lane, Fresh(profile), fs), |blocks|);
            && end.packetsRecv <= |blocks| && end.loss == |blocks| - end.packetsRecv
            && (end.loss == 0 <==> WellOrdered(profile, order))
            && (WellOrdered(profile, order) ==> end.rendered == Flatten(blocks))
  {
    hide Sounding, Finished, AcceptedAll, InReplayWindow, BoundedReorder, Roomy;
    AdmittedAreFirsts(order);
    FirstsShape(order);
    FirstsOrderly(profile.ReorderWindow(), profile.QueueCap(), order);
    assert Covers(Order(fs), |blocks|) by {
      forall i | 0 <= i < |fs| ensures Order(fs)[i] < |blocks| { assert Order(fs)[i] in order; }
    }
    FramesDelivered(lane, profile, blocks, fs);
  }

  /** A frame that is never opened is lost. */
  lemma LateDelivery(lane: Lane, profile: J.Profile, blocks: seq<seq<byte>>, fs: seq<Frame>, x: nat)
    requires Sounding(lane, blocks, fs) && x < |blocks| < U64_LIMIT && x !in Order(fs)
    ensures var end := Finished(lane, AcceptedAll(lane, Fresh(profile), fs), |blocks|);
            end.packetsRecv < |blocks| && end.loss == |blocks| - end.packetsRecv
  {
    hide Sounding, Finished, AcceptedAll;
    var window, cap := profile.ReorderWindow(), profile.QueueCap();
    var all := Rendered(window, cap, fs);
    SoundingIsGood(lane, blocks, fs);
    FinishRenders(lane, profile, fs, |blocks|);
    RenderedOnce(window, cap, fs);
    RenderedArrived(fs, all);
    BelowTotal(lane, blocks, fs);
    OrderNumbers(fs);
    FewerThanAll(all, |blocks|, x);
  }

  lemma EqualSizes(lane: Lane, profile: J.Profile, blocks: seq<seq<byte>>, fs: seq<Frame>)
    requires Driven(lane) && AllSealable(lane, blocks) && Sounding(lane, blocks, fs) && |blocks| < U64_LIMIT
    ensures var end := Finished(lane, AcceptedAll(lane, Fresh(profile), fs), |blocks|);
            end.packetsRecv < |blocks| ==> end.rendered != Flatten(blocks)
  {
    hide Sounding, Finished, AcceptedAll, SealableOn, WholeBytes;
    var whole := WholeBytes(lane);
    var packets := Finished(lane, AcceptedAll(lane, Fresh(profile), fs), |blocks|).packetsRecv;
    RenderedSize(lane, profile, blocks, fs, whole);
    FlattenSize(blocks, whole);
    if packets < |blocks| { SizeGrows(packets, |blocks|, whole); }
  }

  /**
   The secure lane end to end: sealed frames that cover everything, in any order and with repetitions, are rendered
   without loss if and only if the delivery is well ordered and no frame first arrives too late for the replay window.
   Whatever is not opened is counted as rejected.
   */
  lemma SecureDeliveryExact(lane: Lane, aead: DC.Aead, profile: J.Profile, blocks: seq<seq<byte>>, order: seq<u64>)
    requires Driven(lane) && AllSealable(lane, blocks) && aead.Sound()
    requires Covers(order, |blocks|) && |blocks| < U64_LIMIT
    ensures var end := SecureEnd(lane, aead, profile, blocks, order);
            var faultless := WellOrdered(profile, order) && InReplayWindow(order);
            && end.receiver.loss == |blocks| - end.receiver.packetsRecv
            && end.secRejected + |Admitted(order)| == |order|
            && (end.receiver.loss == 0 <==> faultless)
            && (end.receiver.rendered == Flatten(blocks) <==> faultless)
  {
    hide AllSealable, Finished, AcceptedAll, WellOrdered, Sounding, SecureEnd, InTime;
    SecureEndFinishes(lane, aead, profile, blocks, order);
    var fs := OpenedFrames(lane, aead, blocks, Admitted(order));
    if InReplayWindow(order) {
      InTimeDelivery(lane, profile, blocks, order, fs);
    } else {
      var i :| 0 <= i < |order| && !InTime(order, i);
      LateIsMissing(order, i);
      LateDelivery(lane, profile, blocks, fs, order[i]);
    }
    EqualSizes(lane, profile, blocks, fs);
  }
}
