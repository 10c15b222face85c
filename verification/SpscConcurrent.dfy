/**
 The ring under two threads. Every load of a cursor, every byte copied and every store of a cursor is one atomic
 step, and steps of the producer and of the consumer interleave in any order. A thread reads its own cursor exactly;
 of the other's cursor it may see any value between the one it saw last and the current one.
 */
module SpscConcurrent {
  import opened Prelude
  import opened Spsc
  import opened Machines

  /** Where the producer is inside `try_push`; `w` is its copy of the write cursor. */
  datatype Producer =
    | Resting
    | Checking(data: seq<byte>, w: u64)
    | Writing(data: seq<byte>, w: u64, done: nat)

  /** Where the consumer is inside `try_pop_exact`; `r` is its copy of the read cursor. */
  datatype Consumer =
    | Waiting
    | Asking(n: nat, r: u64)
    | Reading(n: nat, r: u64, out: seq<byte>)

  /**
   `pushed` and `popped` are all bytes ever published and ever consumed. `seenRead` is the number of consumed bytes
   the producer last saw, `seenWritten` the number of published bytes the consumer last saw.
   */
  datatype State = State(
    cap: nat, buf: seq<byte>, writePos: u64, readPos: u64, producer: Producer, consumer: Consumer,
    pushed: seq<byte>, popped: seq<byte>, seenRead: nat, seenWritten: nat)

  /** `view` is the count behind the value that the load of the other side's cursor returns. */
  datatype Action =
    | BeginPush(data: seq<byte>) | CheckSpace(view: nat) | CopyInByte | PublishPush
    | BeginPop(n: nat) | CheckData(view: nat) | CopyOutByte | PublishPop

  datatype Event =
    | Pushed(data: seq<byte>) | PushRefused(data: seq<byte>)
    | Popped(bytes: seq<byte>) | PopRefused(n: nat)

  function Start(cap: nat): State {
    State(cap, seq(cap, _ => 0), 0, 0, Resting, Waiting, [], [], 0, 0)
  }

  /** One step of either thread; a step that its thread is not at leaves everything as it is. */
  function Next(s: State, a: Action): (State, seq<Event>) {
    match a
    case BeginPush(data) =>
      if !s.producer.Resting? then (s, [])
      else if |data| > s.cap then (s, [PushRefused(data)])
      else (s.(producer := Checking(data, s.writePos)), [])
    case CheckSpace(view) =>
      if !(s.producer.Checking? && s.seenRead <= view <= |s.popped|) then (s, [])
      else AfterCheckSpace(s, s.producer.data, s.producer.w, view)
    case CopyInByte =>
      if !(s.producer.Writing? && s.producer.done < |s.producer.data| && 0 < s.cap == |s.buf|) then (s, [])
      else (AfterCopyIn(s, s.producer.data, s.producer.w, s.producer.done), [])
    case PublishPush =>
      if !(s.producer.Writing? && s.producer.done == |s.producer.data|) then (s, [])
      else (AfterPublishPush(s, s.producer.data, s.producer.w), [Pushed(s.producer.data)])
    case BeginPop(n) =>
      if !s.consumer.Waiting? then (s, [])
      else (s.(consumer := Asking(n, s.readPos)), [])
    case CheckData(view) =>
      if !(s.consumer.Asking? && s.seenWritten <= view <= |s.pushed|) then (s, [])
      else AfterCheckData(s, s.consumer.n, s.consumer.r, view)
    case CopyOutByte =>
      if !(s.consumer.Reading? && |s.consumer.out| < s.consumer.n && 0 < s.cap == |s.buf|) then (s, [])
      else (AfterCopyOut(s, s.consumer.n, s.consumer.r, s.consumer.out), [])
    case PublishPop =>
      if !(s.consumer.Reading? && |s.consumer.out| == s.consumer.n) then (s, [])
      else (AfterPublishPop(s, s.consumer.out, s.consumer.r), [Popped(s.consumer.out)])
  }

  function AfterCheckSpace(s: State, data: seq<byte>, w: u64, view: nat): (State, seq<Event>) {
    if |data| > s.cap - WrappingSub(w, Wrapped(view))
    then (s.(producer := Resting, seenRead := view), [PushRefused(data)])
    else (s.(producer := Writing(data, w, 0), seenRead := view), [])
  }

  function AfterCopyIn(s: State, data: seq<byte>, w: u64, i: nat): State
    requires i < |data| && 0 < s.cap == |s.buf|
  {
    var slot := WriteSlot(s.cap, data, w, i);
    if slot < |s.buf| then s.(buf := s.buf[slot := data[i]], producer := Writing(data, w, i + 1)) else s
  }

  function AfterPublishPush(s: State, data: seq<byte>, w: u64): State {
    s.(writePos := (w + |data|) % U64_LIMIT, pushed := s.pushed + data, producer := Resting)
  }

  function AfterCheckData(s: State, n: nat, r: u64, view: nat): (State, seq<Event>) {
    if n > WrappingSub(Wrapped(view), r)
    then (s.(consumer := Waiting, seenWritten := view), [PopRefused(n)])
    else (s.(consumer := Reading(n, r, []), seenWritten := view), [])
  }

  function AfterCopyOut(s: State, n: nat, r: u64, out: seq<byte>): State
    requires |out| < n && 0 < s.cap == |s.buf|
  {
    var slot := ReadSlot(s.cap, n, r, |out|);
    if slot < |s.buf| then s.(consumer := Reading(n, r, out + [s.buf[slot]])) else s
  }

  function AfterPublishPop(s: State, out: seq<byte>, r: u64): State {
    s.(readPos := (r + |out|) % U64_LIMIT, popped := s.popped + out, consumer := Waiting)
  }

  /** The slot that byte `i` of a push is stored to, or `cap` if the mask left the buffer. */
  function WriteSlot(cap: nat, data: seq<byte>, w: u64, i: nat): nat
    requires 0 < cap && i < |data|
  {
    if Masked(w, cap) < cap then Slot(Masked(w, cap), |data|, cap, i) else cap
  }

  /** The slot that byte `i` of a pop is loaded from. */
  function ReadSlot(cap: nat, n: nat, r: u64, i: nat): nat
    requires 0 < cap && i < n
  {
    if Masked(r, cap) < cap then Slot(Masked(r, cap), n, cap, i) else cap
  }

  // ---- The invariant ----

  /** `0 <= written - read <= cap`, also against what each side last saw, and the cursors are the wrapped counts. */
  predicate Counted(s: State) {
    && IsCapacity(s.cap) && 0 < s.cap < U64_LIMIT && |s.buf| == s.cap
    && s.seenRead <= |s.popped| <= s.seenWritten <= |s.pushed| <= s.seenRead + s.cap
    && s.writePos == Wrapped(|s.pushed|) && s.readPos == Wrapped(|s.popped|)
    && s.popped == s.pushed[..|s.popped|]
  }

  /** `bytes` lie in the slots of the positions from `p` on. */
  ghost predicate Holds(buf: seq<byte>, p: nat, bytes: seq<byte>)
    requires 0 < |buf|
  {
    forall j | 0 <= j < |bytes| :: buf[SlotOf(p + j, |buf|)] == bytes[j]
  }

  /** Every published and not yet consumed byte is in its slot. */
  ghost predicate Live(s: State)
    requires 0 < |s.buf| && |s.popped| <= |s.pushed|
  {
    Holds(s.buf, |s.popped|, s.pushed[|s.popped|..])
  }

  /** A push that passed its check has room, and what it copied so far is in place. */
  ghost predicate ProducerKept(s: State)
    requires 0 < |s.buf|
  {
    match s.producer
    case Resting => true
    case Checking(data, w) => |data| <= s.cap && w == Wrapped(|s.pushed|)
    case Writing(data, w, done) =>
      && w == Wrapped(|s.pushed|) && done <= |data| && |s.pushed| + |data| <= s.seenRead + s.cap
      && Holds(s.buf, |s.pushed|, data[..done])
  }

  /** A pop that passed its check has its bytes, and what it copied so far is what was pushed. */
  predicate ConsumerKept(s: State)
    requires |s.popped| <= s.seenWritten <= |s.pushed|
  {
    match s.consumer
    case Waiting => true
    case Asking(n, r) => r == Wrapped(|s.popped|)
    case Reading(n, r, out) =>
      && r == Wrapped(|s.popped|) && |out| <= n && |s.popped| + n <= s.seenWritten
      && out == s.pushed[|s.popped|..|s.popped| + |out|]
  }

  ghost predicate Inv(s: State) {
    Counted(s) && Live(s) && ProducerKept(s) && ConsumerKept(s)
  }

  lemma StartKept(cap: nat)
    requires IsCapacity(cap)
    ensures Inv(Start(cap))
  {
    CapacityFits(cap);
    assert Wrapped(0) == 0;
  }

  /** The code's slot of byte `i` of a push is the slot of the true position. */
  lemma WriteSlotIs(s: State, i: nat)
    requires Inv(s) && s.producer.Writing? && i < |s.producer.data|
    ensures WriteSlot(s.cap, s.producer.data, s.producer.w, i) == SlotOf(|s.pushed| + i, s.cap)
  {
    MaskFindsSlot(|s.pushed|, s.cap);
    SlotsInOrder(|s.pushed|, |s.producer.data|, s.cap, i);
  }

  lemma ReadSlotIs(s: State, i: nat)
    requires Inv(s) && s.consumer.Reading? && i < s.consumer.n
    ensures ReadSlot(s.cap, s.consumer.n, s.consumer.r, i) == SlotOf(|s.popped| + i, s.cap)
  {
    MaskFindsSlot(|s.popped|, s.cap);
    SlotsInOrder(|s.popped|, s.consumer.n, s.cap, i);
  }

  /** No slot of the push under way is a slot of the pop under way. */
  lemma SlotsDisjoint(s: State, i: nat, j: nat)
    requires Inv(s) && s.producer.Writing? && i < |s.producer.data| && s.consumer.Reading? && j < s.consumer.n
    ensures WriteSlot(s.cap, s.producer.data, s.producer.w, i) != ReadSlot(s.cap, s.consumer.n, s.consumer.r, j)
  {
    WriteSlotIs(s, i);
    ReadSlotIs(s, j);
    SlotsDiffer(|s.popped| + j, |s.pushed| + i, s.cap);
  }

  /** What the producer computes as free space is never negative and never more than there is. */
  lemma ProducerView(s: State, view: nat)
    requires Inv(s) && s.seenRead <= view <= |s.popped|
    ensures s.cap - WrappingSub(s.writePos, Wrapped(view)) == s.cap - (|s.pushed| - view)
    ensures 0 <= s.cap - (|s.pushed| - view) <= s.cap - (|s.pushed| - |s.popped|)
  {
    DistanceSurvivesWrap(|s.pushed|, view);
  }

  /** What the consumer computes as available is never more than there is. */
  lemma ConsumerView(s: State, view: nat)
    requires Inv(s) && s.seenWritten <= view <= |s.pushed|
    ensures WrappingSub(Wrapped(view), s.readPos) == view - |s.popped|
    ensures 0 <= view - |s.popped| <= |s.pushed| - |s.popped|
  {
    DistanceSurvivesWrap(view, |s.popped|);
  }

  lemma HoldsNext(buf: seq<byte>, p: nat, bytes: seq<byte>, b: byte)
    requires 0 < |buf| && |bytes| < |buf| && Holds(buf, p, bytes)
    ensures Holds(buf[SlotOf(p + |bytes|, |buf|) := b], p, bytes + [b])
  {
    var now := buf[SlotOf(p + |bytes|, |buf|) := b];
    forall j | 0 <= j < |bytes| ensures now[SlotOf(p + j, |buf|)] == bytes[j] {
      SlotsDiffer(p + j, p + |bytes|, |buf|);
    }
  }

  lemma HoldsElsewhere(buf: seq<byte>, p: nat, bytes: seq<byte>, q: nat, b: byte)
    requires 0 < |buf| && Holds(buf, p, bytes) && p + |bytes| <= q < p + |buf|
    ensures Holds(buf[SlotOf(q, |buf|) := b], p, bytes)
  {
    var now := buf[SlotOf(q, |buf|) := b];
    forall j | 0 <= j < |bytes| ensures now[SlotOf(p + j, |buf|)] == bytes[j] {
      SlotsDiffer(p + j, q, |buf|);
    }
  }

  lemma HoldsAppend(buf: seq<byte>, p: nat, a: seq<byte>, b: seq<byte>)
    requires 0 < |buf| && Holds(buf, p, a) && Holds(buf, p + |a|, b)
    ensures Holds(buf, p, a + b)
  {
    forall j | 0 <= j < |a + b| ensures buf[SlotOf(p + j, |buf|)] == (a + b)[j] {
      if j >= |a| { assert p + j == p + |a| + (j - |a|); }
    }
  }

  lemma HoldsRest(buf: seq<byte>, p: nat, bytes: seq<byte>, n: nat)
    requires 0 < |buf| && Holds(buf, p, bytes) && n <= |bytes|
    ensures Holds(buf, p + n, bytes[n..])
  {
    forall j | 0 <= j < |bytes[n..]| ensures buf[SlotOf(p + n + j, |buf|)] == bytes[n..][j] {
      assert p + n + j == p + (n + j);
    }
  }

  lemma BeginKept(s: State, data: seq<byte>, n: nat)
    requires Inv(s)
    ensures s.producer.Resting? && |data| <= s.cap ==> Inv(s.(producer := Checking(data, s.writePos)))
    ensures s.consumer.Waiting? ==> Inv(s.(consumer := Asking(n, s.readPos)))
  {
  }

  lemma CheckSpaceKept(s: State, view: nat)
    requires Inv(s) && s.producer.Checking? && s.seenRead <= view <= |s.popped|
    ensures Inv(AfterCheckSpace(s, s.producer.data, s.producer.w, view).0)
  {
    ProducerView(s, view);
  }

  lemma CheckDataKept(s: State, view: nat)
    requires Inv(s) && s.consumer.Asking? && s.seenWritten <= view <= |s.pushed|
    ensures Inv(AfterCheckData(s, s.consumer.n, s.consumer.r, view).0)
  {
    ConsumerView(s, view);
  }

  lemma CopyInKept(s: State)
    requires Inv(s) && s.producer.Writing? && s.producer.done < |s.producer.data|
    ensures Inv(AfterCopyIn(s, s.producer.data, s.producer.w, s.producer.done))
  {
    hide Holds, SlotOf, IsCapacity;
    var data, i := s.producer.data, s.producer.done;
    WriteSlotIs(s, i);
    HoldsElsewhere(s.buf, |s.popped|, s.pushed[|s.popped|..], |s.pushed| + i, data[i]);
    HoldsNext(s.buf, |s.pushed|, data[..i], data[i]);
    assert data[..i + 1] == data[..i] + [data[i]];
  }

  lemma QueueGrows(pushed: seq<byte>, from: nat, data: seq<byte>)
    requires from <= |pushed|
    ensures (pushed + data)[from..] == pushed[from..] + data && (pushed + data)[..from] == pushed[..from]
  {
  }

  lemma PublishPushKept(s: State)
    requires Inv(s) && s.producer.Writing? && s.producer.done == |s.producer.data|
    ensures Inv(AfterPublishPush(s, s.producer.data, s.producer.w))
    ensures |s.pushed[|s.popped|..]| + |s.producer.data| <= s.cap
    ensures (s.pushed + s.producer.data)[|s.popped|..] == s.pushed[|s.popped|..] + s.producer.data
  {
    hide Holds, SlotOf, IsCapacity, Wrapped;
    var data := s.producer.data;
    WrappedAdvance(|s.pushed|, |data|);
    assert data[..|data|] == data;
    HoldsAppend(s.buf, |s.popped|, s.pushed[|s.popped|..], data);
    QueueGrows(s.pushed, |s.popped|, data);
  }

  lemma CopyOutKept(s: State)
    requires Inv(s) && s.consumer.Reading? && |s.consumer.out| < s.consumer.n
    ensures Inv(AfterCopyOut(s, s.consumer.n, s.consumer.r, s.consumer.out))
  {
    hide IsCapacity, Wrapped, Masked;
    var i := |s.consumer.out|;
    ReadSlotIs(s, i);
    assert s.pushed[|s.popped|..][i] == s.pushed[|s.popped| + i];
  }

  lemma PublishPopKept(s: State)
    requires Inv(s) && s.consumer.Reading? && |s.consumer.out| == s.consumer.n
    ensures Inv(AfterPublishPop(s, s.consumer.out, s.consumer.r))
    ensures s.consumer.out <= s.pushed[|s.popped|..]
    ensures s.pushed[|s.popped|..][s.consumer.n..] == s.pushed[|s.popped + s.consumer.out|..]
  {
    hide Holds, SlotOf, IsCapacity, Wrapped;
    WrappedAdvance(|s.popped|, s.consumer.n);
    HoldsRest(s.buf, |s.popped|, s.pushed[|s.popped|..], s.consumer.n);
    assert s.pushed[|s.popped|..][s.consumer.n..] == s.pushed[|s.popped| + s.consumer.n..];
  }

  /** Every step of either thread keeps the invariant. */
  lemma StepKept(s: State, a: Action)
    requires Inv(s)
    ensures Inv(Next(s, a).0)
  {
    hide Holds, SlotOf, IsCapacity, Wrapped, AfterCopyIn, AfterCopyOut, AfterPublishPush, AfterPublishPop;
    match a
    case BeginPush(data) => BeginKept(s, data, 0);
    case BeginPop(n) => BeginKept(s, [], n);
    case CheckSpace(view) =>
      if s.producer.Checking? && s.seenRead <= view <= |s.popped| { CheckSpaceKept(s, view); }
    case CheckData(view) =>
      if s.consumer.Asking? && s.seenWritten <= view <= |s.pushed| { CheckDataKept(s, view); }
    case CopyInByte =>
      if s.producer.Writing? && s.producer.done < |s.producer.data| { CopyInKept(s); }
    case PublishPush =>
      if s.producer.Writing? && s.producer.done == |s.producer.data| { PublishPushKept(s); }
    case CopyOutByte =>
      if s.consumer.Reading? && |s.consumer.out| < s.consumer.n { CopyOutKept(s); }
    case PublishPop =>
      if s.consumer.Reading? && |s.consumer.out| == s.consumer.n { PublishPopKept(s); }
  }

  // ---- Refinement of a bounded queue ----

  /** The queue a caller may assume, or None if it could not have answered like this. */
  function Queue(cap: nat, events: seq<Event>): Option<seq<byte>> {
    if events == [] then Some([])
    else
      match Queue(cap, events[..|events| - 1])
      case None => None
      case Some(q) => Answer(cap, q, events[|events| - 1])
  }

  /** A push appends all or nothing and never exceeds the capacity; a pop takes the oldest bytes. */
  function Answer(cap: nat, q: seq<byte>, e: Event): Option<seq<byte>> {
    match e
    case Pushed(data) => if |q| + |data| <= cap then Some(q + data) else None
    case Popped(bytes) => if bytes <= q then Some(q[|bytes|..]) else None
    case PushRefused(data) => Some(q)
    case PopRefused(n) => Some(q)
  }

  /** From `s` to `s'` the bytes under way change as the queue's answer `e`, if there is one, demands. */
  predicate Answers(s: State, s': State, e: seq<Event>)
    requires |s.popped| <= |s.pushed|
  {
    var q := s.pushed[|s.popped|..];
    && s'.cap == s.cap && |s'.popped| <= |s'.pushed| && |e| <= 1
    && (if e == [] then Some(q) else Answer(s.cap, q, e[0])) == Some(s'.pushed[|s'.popped|..])
  }

  lemma StepAnswers(s: State, a: Action)
    requires Inv(s)
    ensures Answers(s, Next(s, a).0, Next(s, a).1)
  {
    match a
    case PublishPop =>
      if s.consumer.Reading? && |s.consumer.out| == s.consumer.n { PublishPopKept(s); }
    case PublishPush =>
      if s.producer.Writing? && s.producer.done == |s.producer.data| { PublishPushKept(s); }
    case _ => Silent(s, a);
  }

  /** No other step moves a byte in or out. */
  lemma Silent(s: State, a: Action)
    requires !a.PublishPush? && !a.PublishPop?
    ensures var (s', e) := Next(s, a);
            && s'.pushed == s.pushed && s'.popped == s.popped && s'.cap == s.cap
            && (e == [] || (|e| == 1 && (e[0].PushRefused? || e[0].PopRefused?)))
  {
  }

  /** Under every interleaving and every stale view, the answers are those of a bounded first-in first-out queue. */
  lemma {:induction false} RefinesQueue(cap: nat, actions: seq<Action>)
    requires IsCapacity(cap)
    ensures var s := StateAfter(Next, Start(cap), actions);
            && Inv(s) && s.cap == cap
            && Queue(cap, OutputOf(Next, Start(cap), actions)) == Some(s.pushed[|s.popped|..])
  {
    if actions == [] {
      StartKept(cap);
    } else {
      var front, last := actions[..|actions| - 1], actions[|actions| - 1];
      RefinesQueue(cap, front);
      var s := StateAfter(Next, Start(cap), front);
      StepKept(s, last);
      StepAnswers(s, last);
      QueueSnoc(cap, OutputOf(Next, Start(cap), front), Next(s, last).1);
    }
  }

  lemma QueueSnoc(cap: nat, events: seq<Event>, more: seq<Event>)
    requires |more| <= 1
    ensures more == [] ==> Queue(cap, events + more) == Queue(cap, events)
    ensures |more| == 1 && Queue(cap, events).Some? ==>
              Queue(cap, events + more) == Answer(cap, Queue(cap, events).value, more[0])
  {
    if more == [] {
      assert events + more == events;
    } else {
      assert (events + more)[..|events + more| - 1] == events;
    }
  }

  // ---- What a caller gets from the queue ----

  function PushedBytes(events: seq<Event>): seq<byte> {
    if events == [] then []
    else
      var e := events[|events| - 1];
      var front := PushedBytes(events[..|events| - 1]);
      if e.Pushed? then front + e.data else front
  }

  function PoppedBytes(events: seq<Event>): seq<byte> {
    if events == [] then []
    else
      var e := events[|events| - 1];
      var front := PoppedBytes(events[..|events| - 1]);
      if e.Popped? then front + e.bytes else front
  }

  /** What a queue still holds is what was pushed and not yet popped. */
  lemma {:induction false} QueueConserves(cap: nat, events: seq<Event>)
    requires Queue(cap, events).Some?
    ensures PushedBytes(events) == PoppedBytes(events) + Queue(cap, events).value
    ensures |Queue(cap, events).value| <= cap
  {
    if events != [] { QueueConserves(cap, events[..|events| - 1]); }
  }

  /** The bytes popped so far are always a prefix of the bytes pushed so far, at most a capacity behind. */
  lemma PoppedIsPrefix(cap: nat, actions: seq<Action>)
    requires IsCapacity(cap)
    ensures var events := OutputOf(Next, Start(cap), actions);
            && PoppedBytes(events) <= PushedBytes(events)
            && |PushedBytes(events)| <= |PoppedBytes(events)| + cap
  {
    RefinesQueue(cap, actions);
    QueueConserves(cap, OutputOf(Next, Start(cap), actions));
  }

  function PushedFrames(events: seq<Event>): seq<seq<byte>> {
    if events == [] then []
    else
      var e := events[|events| - 1];
      var front := PushedFrames(events[..|events| - 1]);
      if e.Pushed? then front + [e.data] else front
  }

  function PoppedFrames(events: seq<Event>): seq<seq<byte>> {
    if events == [] then []
    else
      var e := events[|events| - 1];
      var front := PoppedFrames(events[..|events| - 1]);
      if e.Popped? then front + [e.bytes] else front
  }

  predicate FramesOf(size: nat, events: seq<Event>) {
    forall e <- events :: (e.Pushed? ==> |e.data| == size) && (e.Popped? ==> |e.bytes| == size)
  }

  lemma {:induction false} PushedFlatten(size: nat, events: seq<Event>)
    requires FramesOf(size, events)
    ensures Flatten(PushedFrames(events)) == PushedBytes(events)
    ensures forall f <- PushedFrames(events) :: |f| == size
  {
    if events != [] {
      var front, e := events[..|events| - 1], events[|events| - 1];
      PushedFlatten(size, front);
      if e.Pushed? { FlattenSnoc(PushedFrames(front), e.data); }
    }
  }

  lemma {:induction false} PoppedFlatten(size: nat, events: seq<Event>)
    requires FramesOf(size, events)
    ensures Flatten(PoppedFrames(events)) == PoppedBytes(events)
    ensures forall f <- PoppedFrames(events) :: |f| == size
  {
    if events != [] {
      var front, e := events[..|events| - 1], events[|events| - 1];
      PoppedFlatten(size, front);
      if e.Popped? { FlattenSnoc(PoppedFrames(front), e.bytes); }
    }
  }

  /** When every push and pop has one frame size, no frame is torn, reordered, lost or repeated. */
  lemma WholeFrames(cap: nat, actions: seq<Action>, size: nat)
    requires IsCapacity(cap) && size > 0
    requires FramesOf(size, OutputOf(Next, Start(cap), actions))
    ensures var events := OutputOf(Next, Start(cap), actions);
            PoppedFrames(events) <= PushedFrames(events)
  {
    var events := OutputOf(Next, Start(cap), actions);
    PoppedIsPrefix(cap, actions);
    PushedFlatten(size, events);
    PoppedFlatten(size, events);
    BlocksPrefix(PoppedFrames(events), PushedFrames(events), size);
  }

  // ---- Refusals ----

  /**
   A push is refused exactly when it does not fit into the space seen. What is seen is at most the space there is, so
   nothing that does not fit is ever admitted, and with an up-to-date view exactly what fits is admitted.
   */
  lemma PushVerdict(s: State, view: nat)
    requires Inv(s) && s.producer.Checking? && s.seenRead <= view <= |s.popped|
    ensures var data := s.producer.data;
            var (s', events) := Next(s, CheckSpace(view));
            && (events == [PushRefused(data)] <==> |s.pushed| - view + |data| > s.cap)
            && (events == [] <==> s'.producer == Writing(data, s.writePos, 0))
            && (events == [] ==> |s.pushed| - |s.popped| + |data| <= s.cap)
            && (view == |s.popped| ==> (events == [] <==> |s.pushed| - |s.popped| + |data| <= s.cap))
  {
    ProducerView(s, view);
  }

  lemma PopVerdict(s: State, view: nat)
    requires Inv(s) && s.consumer.Asking? && s.seenWritten <= view <= |s.pushed|
    ensures var n := s.consumer.n;
            var (s', events) := Next(s, CheckData(view));
            && (events == [PopRefused(n)] <==> n > view - |s.popped|)
            && (events == [] <==> s'.consumer == Reading(n, s.readPos, []))
            && (events == [] ==> n <= |s.pushed| - |s.popped|)
            && (view == |s.pushed| ==> (events == [] <==> n <= |s.pushed| - |s.popped|))
  {
    ConsumerView(s, view);
  }
}
