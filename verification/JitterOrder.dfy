/**
 What the jitter buffer is for: it turns any sufficiently orderly arrival sequence into the distinct frames in
 ascending order, and a complete delivery survives exactly when it is that orderly.
 */
module JitterOrder {
  import opened Prelude
  import opened Frames
  import opened Jitter
  import opened Machines
  import opened JitterRuns
  import opened ArrivalOrder

  /** The first arrival of every sequence number. */
  function FirstOf(fs: seq<Frame>): Queue {
    if fs == [] then map[]
    else
      var front, last := FirstOf(fs[..|fs| - 1]), fs[|fs| - 1];
      if last.seqNo in front then front else front[last.seqNo := last]
  }

  lemma {:induction false} FirstOfShape(fs: seq<Frame>)
    ensures forall k :: k in FirstOf(fs) ==> FirstOf(fs)[k].seqNo == k && FirstOf(fs)[k] in fs
    ensures FirstOf(fs).Keys == Numbers(fs)
  {
    if fs != [] {
      var front, last := fs[..|fs| - 1], fs[|fs| - 1];
      FirstOfShape(front);
      NumbersSnoc(front, last);
      assert fs == front + [last];
    }
  }

  lemma NumbersSnoc(fs: seq<Frame>, f: Frame)
    ensures Numbers(fs + [f]) == Numbers(fs) + {f.seqNo}
  {
    forall x | x in Numbers(fs + [f]) ensures x in Numbers(fs) + {f.seqNo} {
      var i :| 0 <= i < |fs + [f]| && (fs + [f])[i].seqNo == x;
      assert i < |fs| ==> fs[i].seqNo == x;
    }
    forall x | x in Numbers(fs) ensures x in Numbers(fs + [f]) {
      var i :| 0 <= i < |fs| && fs[i].seqNo == x;
      assert (fs + [f])[i].seqNo == x;
    }
    assert (fs + [f])[|fs|].seqNo == f.seqNo;
  }

  /** The numbers in order of arrival. */
  function Order(fs: seq<Frame>): (order: seq<nat>)
    ensures |order| == |fs|
  {
    seq(|fs|, i requires 0 <= i < |fs| => fs[i].seqNo)
  }

  lemma OrderNumbers(fs: seq<Frame>)
    ensures forall x :: x in Order(fs) <==> x in Numbers(fs)
  {
    forall x | x in Numbers(fs) ensures x in Order(fs) {
      var i :| 0 <= i < |fs| && fs[i].seqNo == x;
      assert Order(fs)[i] == x;
    }
  }

  lemma OrderSnoc(fs: seq<Frame>, f: Frame)
    ensures Order(fs + [f]) == Order(fs) + [f.seqNo] && Order(fs + [f])[..|fs|] == Order(fs)
  {
  }

  /**
   So far the output is the unbroken run from number `first` on and the rest is queued ahead of it; `m` holds
   the first arrival of every number.
   */
  predicate InOrder(first: nat, m: Queue, s: State, out: seq<Frame>) {
    && s.nextOut == Some(first + |out|) && first + |out| !in s.queue
    && OutputMatches(first, m, out) && QueueMatches(first + |out|, m, s.queue)
    && NothingMissing(first, first + |out|, m, s.queue)
  }

  predicate OutputMatches(first: nat, m: Queue, out: seq<Frame>) {
    forall i :: 0 <= i < |out| ==> out[i].seqNo == first + i && first + i in m && out[i] == m[first + i]
  }

  predicate QueueMatches(no: nat, m: Queue, q: Queue) {
    forall k :: k in q ==> k >= no && k in m && q[k] == m[k]
  }

  predicate NothingMissing(first: nat, no: nat, m: Queue, q: Queue) {
    forall k :: k in m ==> first <= k && m[k].seqNo == k && (k < no || k in q)
  }

  /** One more arrival among the first ones. */
  function Noted(m: Queue, f: Frame): Queue {
    if f.seqNo in m then m else m[f.seqNo := f]
  }

  /** An arrival that jumps over nothing and evicts nothing keeps the order. */
  lemma PushInOrder(first: nat, m: Queue, s: State, out: seq<Frame>, f: Frame)
    requires Settled(s) && InOrder(first, m, s, out)
    requires first <= f.seqNo <= s.nextOut.value + s.window
    requires f.seqNo in m || s.queue == map[] || |s.queue| < s.cap
    ensures InOrder(first, Noted(m, f), Pushed(s, f).0, out + Pushed(s, f).1)
  {
    assert out + [] == out;
    if f.seqNo < s.nextOut.value {
      var i := f.seqNo - first;
      assert out[i].seqNo == first + i && first + i in m;
    } else if f.seqNo !in s.queue {
      var o := Observed(s, f.seqNo);
      assert Evicted(o) == o;
      EmittedInOrder(first, m, o, out, f);
    }
  }

  lemma EmittedInOrder(first: nat, m: Queue, s: State, out: seq<Frame>, f: Frame)
    requires InOrder(first, m, s, out) && f.seqNo >= s.nextOut.value && f.seqNo !in s.queue
    ensures InOrder(first, Noted(m, f), Delivered(s, f).0, out + Delivered(s, f).1)
  {
    assert f.seqNo !in m;
    var m', q := Noted(m, f), s.queue[f.seqNo := f];
    assert OutputMatches(first, m', out);
    assert QueueMatches(first + |out|, m', q);
    assert NothingMissing(first, first + |out|, m', q);
    RunInOrder(first, m', s.(queue := q), out);
  }

  /** Emitting the consecutive run restores the order after an arrival at the watermark. */
  lemma RunInOrder(first: nat, m: Queue, s: State, out: seq<Frame>)
    requires s.nextOut == Some(first + |out|) && OutputMatches(first, m, out)
    requires QueueMatches(first + |out|, m, s.queue) && NothingMissing(first, first + |out|, m, s.queue)
    ensures InOrder(first, m, Emitted(s).0, out + Emitted(s).1)
  {
    var no := s.nextOut.value;
    var end := RunEnd(s.queue, no);
    SliceMatches(first, no, end, m, s.queue, out);
    assert QueueMatches(end, m, Without(s.queue, no, end));
    assert NothingMissing(first, end, m, Without(s.queue, no, end));
  }

  lemma SliceMatches(first: nat, no: nat, end: nat, m: Queue, q: Queue, out: seq<Frame>)
    requires no == first + |out| && no <= end && forall k :: no <= k < end ==> k in q
    requires OutputMatches(first, m, out) && QueueMatches(no, m, q) && NothingMissing(first, no, m, q)
    ensures OutputMatches(first, m, out + Slice(q, no, end)) && first + |out + Slice(q, no, end)| == end
  {
    var r := out + Slice(q, no, end);
    forall i | 0 <= i < |r| ensures r[i].seqNo == first + i && first + i in m && r[i] == m[first + i] {
      if i >= |out| {
        assert no <= first + i < end;
        assert r[i] == q[first + i];
      }
    }
  }

  /** The run invariant, for a nonempty sequence of arrivals. */
  lemma {:induction false} OrderlyRun(window: nat, cap: nat, fs: seq<Frame>)
    requires fs != [] && Orderly(window, cap, Order(fs))
    ensures InOrder(fs[0].seqNo, FirstOf(fs), After(Empty(window, cap), fs), Out(Empty(window, cap), fs))
  {
    hide Pushed, InOrder, Settled, Timely, HasRoom;
    var front, last := fs[..|fs| - 1], fs[|fs| - 1];
    var s, out := After(Empty(window, cap), front), Out(Empty(window, cap), front);
    assert fs == front + [last];
    if front == [] {
      OneInOrder(Empty(window, cap), last);
      assert FirstOf(fs) == map[last.seqNo := last];
      RunSnoc(Pushed, Empty(window, cap), [], last);
      var out' := Pushed(Empty(window, cap), last).1;
      assert [] + [last] == [last] == fs && [] + out' == out';
    } else {
      OrderSnoc(front, last);
      OrderlyPrefix(window, cap, Order(fs), |front|);
      OrderlyRun(window, cap, front);
      RunKeepsSettled(Empty(window, cap), front);
      assert Timely(window, Order(fs), |front|) && HasRoom(cap, Order(fs), |front|);
      TimelyMeansNoJump(window, front, last, s, out);
      RoomMeansNoEviction(cap, front, last, s, out);
      PushInOrder(fs[0].seqNo, FirstOf(front), s, out, last);
    }
  }

  lemma OneInOrder(s: State, f: Frame)
    requires s.nextOut.None? && s.queue == map[]
    ensures InOrder(f.seqNo, map[f.seqNo := f], Pushed(s, f).0, Pushed(s, f).1)
  {
    FirstPush(s, f);
  }

  /** So far the watermark is the missing number, and the queue holds what waits for it. */
  lemma QueueIsWaiting(fs: seq<Frame>, s: State, out: seq<Frame>)
    requires fs != [] && InOrder(fs[0].seqNo, FirstOf(fs), s, out)
    ensures Missing(Order(fs), fs[0].seqNo) == s.nextOut.value && Waiting(Order(fs)) == s.queue.Keys
  {
    var first, no := fs[0].seqNo, s.nextOut.value;
    FirstOfShape(fs);
    OrderNumbers(fs);
    var order := Order(fs);
    assert no !in FirstOf(fs) && no !in order;
    forall x: nat | first <= x < no ensures x in order {
      OutIsKnown(first, FirstOf(fs), out, x);
      assert x in FirstOf(fs).Keys;
    }
    MissingUnique(order, first, no);
  }

  /** In an orderly run, a timely arrival is one that does not jump. */
  lemma TimelyMeansNoJump(window: nat, front: seq<Frame>, f: Frame, s: State, out: seq<Frame>)
    requires front != [] && InOrder(front[0].seqNo, FirstOf(front), s, out)
    ensures Timely(window, Order(front + [f]), |front|) <==> front[0].seqNo <= f.seqNo <= s.nextOut.value + window
  {
    hide FirstOf, InOrder;
    OrderSnoc(front, f);
    QueueIsWaiting(front, s, out);
    Watermark(front[0].seqNo, FirstOf(front), s, out);
    MissingMeans(window, Order(front + [f]), |front|, s.nextOut.value);
  }

  lemma Watermark(first: nat, m: Queue, s: State, out: seq<Frame>)
    requires InOrder(first, m, s, out)
    ensures s.nextOut.Some? && s.nextOut.value >= first
  {
  }

  lemma MissingMeans(window: nat, order: seq<nat>, i: nat, m: nat)
    requires 0 < i < |order| && m == Missing(order[..i], order[0])
    ensures Timely(window, order, i) <==> order[0] <= order[i] <= m + window
  {
    assert m !in order[..i];
  }

  /** In an orderly run, an arrival has room when it evicts nothing. */
  lemma RoomMeansNoEviction(cap: nat, front: seq<Frame>, f: Frame, s: State, out: seq<Frame>)
    requires front != [] && InOrder(front[0].seqNo, FirstOf(front), s, out)
    ensures HasRoom(cap, Order(front + [f]), |front|)
       <==> f.seqNo in FirstOf(front) || s.queue == map[] || |s.queue| < cap
  {
    hide FirstOf, InOrder, Missing, Waiting;
    OrderSnoc(front, f);
    OrderNumbers(front);
    FirstOfShape(front);
    QueueIsWaiting(front, s, out);
    assert s.queue.Keys == {} <==> s.queue == map[];
    assert |s.queue.Keys| == |s.queue|;
  }

  // ---- The counters ----

  /** In order, only a repeated number is counted: late when it lags more than a window, else as a duplicate. */
  lemma PushCounts(first: nat, m: Queue, s: State, out: seq<Frame>, f: Frame)
    requires Settled(s) && InOrder(first, m, s, out)
    requires first <= f.seqNo <= s.nextOut.value + s.window
    requires f.seqNo in m || s.queue == map[] || |s.queue| < s.cap
    ensures var stale := f.seqNo in m && f.seqNo + s.window < s.nextOut.value;
            var t := Pushed(s, f).0;
            && t.late == s.late + (if stale then 1 else 0)
            && t.duplicate == s.duplicate + (if f.seqNo in m && !stale then 1 else 0)
  {
    OutIsKnown(first, m, out, f.seqNo);
    if f.seqNo >= s.nextOut.value && f.seqNo !in s.queue {
      assert f.seqNo !in m;
      assert Evicted(Observed(s, f.seqNo)) == Observed(s, f.seqNo);
    }
  }

  /** Over an orderly run the late counter counts the stale repeats and the duplicate counter all others. */
  lemma {:induction false} OrderlyCounters(window: nat, cap: nat, fs: seq<Frame>)
    requires Orderly(window, cap, Order(fs))
    ensures var s := After(Empty(window, cap), fs);
            s.late == StaleRepeats(window, Order(fs)) && s.duplicate == NearRepeats(window, Order(fs))
  {
    hide Pushed, InOrder, Settled, Timely, HasRoom, Stale;
    if fs != [] {
      var front, last := fs[..|fs| - 1], fs[|fs| - 1];
      var s, out := After(Empty(window, cap), front), Out(Empty(window, cap), front);
      assert fs == front + [last];
      OrderSnoc(front, last);
      OrderlyPrefix(window, cap, Order(fs), |front|);
      OrderlyCounters(window, cap, front);
      RunSnoc(Pushed, Empty(window, cap), front, last);
      if front == [] {
        FirstCounts(window, cap, last);
      } else {
        RunKeepsSettled(Empty(window, cap), front);
        OrderlyRun(window, cap, front);
        assert Timely(window, Order(fs), |front|) && HasRoom(cap, Order(fs), |front|);
        TimelyMeansNoJump(window, front, last, s, out);
        RoomMeansNoEviction(cap, front, last, s, out);
        PushCounts(fs[0].seqNo, FirstOf(front), s, out, last);
        StaleMeans(window, front, last, s, out);
      }
    }
  }

  lemma FirstCounts(window: nat, cap: nat, f: Frame)
    ensures var s := Pushed(Empty(window, cap), f).0; s.late == 0 && s.duplicate == 0
    ensures !Stale(window, Order([f]), 0) && f.seqNo !in Order([f])[..0]
  {
  }

  lemma StaleMeans(window: nat, front: seq<Frame>, f: Frame, s: State, out: seq<Frame>)
    requires front != [] && InOrder(front[0].seqNo, FirstOf(front), s, out)
    ensures var order := Order(front + [f]);
            && (f.seqNo in order[..|front|] <==> f.seqNo in FirstOf(front))
            && (Stale(window, order, |front|) <==>
                f.seqNo in FirstOf(front) && f.seqNo + window < s.nextOut.value)
  {
    hide FirstOf, InOrder, Missing;
    OrderSnoc(front, f);
    OrderNumbers(front);
    FirstOfShape(front);
    QueueIsWaiting(front, s, out);
    assert Order(front + [f])[0] == front[0].seqNo;
  }

  lemma LastIsLargest(r: seq<Frame>)
    requires r != [] && Ascending(r)
    ensures Numbers(r[..|r| - 1]) == Numbers(r) - {r[|r| - 1].seqNo}
    ensures r[|r| - 1].seqNo in Numbers(r) && forall x :: x in Numbers(r) ==> x <= r[|r| - 1].seqNo
  {
    var front, last := r[..|r| - 1], r[|r| - 1];
    NumbersSnoc(front, last);
    assert r == front + [last];
  }

  lemma NoNumbers(r: seq<Frame>)
    ensures Numbers(r) == {} <==> r == []
  {
    if r != [] { assert r[0].seqNo in Numbers(r); }
  }

  /** Two strictly ascending lists of the same numbers agree place by place. */
  lemma {:induction false} AscendingUnique(a: seq<Frame>, b: seq<Frame>)
    requires Ascending(a) && Ascending(b) && Numbers(a) == Numbers(b)
    ensures |a| == |b| && forall i :: 0 <= i < |a| ==> a[i].seqNo == b[i].seqNo
  {
    NoNumbers(a);
    NoNumbers(b);
    if a != [] {
      LastIsLargest(a);
      LastIsLargest(b);
      AscendingUnique(a[..|a| - 1], b[..|b| - 1]);
      assert forall i :: 0 <= i < |a| - 1 ==> a[i] == a[..|a| - 1][i] && b[i] == b[..|b| - 1][i];
    }
  }

  /** What is out, followed by the sorted rest of the queue, is the sorted list of first arrivals. */
  lemma DrainInOrder(first: nat, m: Queue, s: State, out: seq<Frame>)
    requires InOrder(first, m, s, out)
    ensures out + Sorted(s.queue) == Sorted(m)
  {
    SortedShape(s.queue);
    SortedNumbers(s.queue);
    TailInOrder(first, m, s, out, Sorted(s.queue));
  }

  lemma TailInOrder(first: nat, m: Queue, s: State, out: seq<Frame>, tail: seq<Frame>)
    requires InOrder(first, m, s, out)
    requires Ascending(tail) && Numbers(tail) == s.queue.Keys
    requires forall i :: 0 <= i < |tail| ==> tail[i].seqNo in s.queue && tail[i] == s.queue[tail[i].seqNo]
    ensures out + tail == Sorted(m)
  {
    var r := out + tail;
    ConcatNumbers(out, tail);
    OutputNumbers(first, m, s, out);
    assert Ascending(r);
    forall i | 0 <= i < |r| ensures r[i].seqNo in m && r[i] == m[r[i].seqNo] {
      assert if i < |out| then r[i] == out[i] else r[i] == tail[i - |out|];
    }
    SortedUnique(m, r);
  }

  /** A strictly ascending list of the frames of `m` that misses none is `m` sorted. */
  lemma SortedUnique(m: Queue, r: seq<Frame>)
    requires Ascending(r) && Numbers(r) == m.Keys
    requires forall k :: k in m ==> m[k].seqNo == k
    requires forall i :: 0 <= i < |r| ==> r[i].seqNo in m && r[i] == m[r[i].seqNo]
    ensures r == Sorted(m)
  {
    SortedShape(m);
    SortedNumbers(m);
    AscendingUnique(r, Sorted(m));
  }

  lemma OutputNumbers(first: nat, m: Queue, s: State, out: seq<Frame>)
    requires InOrder(first, m, s, out)
    ensures Numbers(out) + s.queue.Keys == m.Keys
  {
    forall k | k in m.Keys ensures k in Numbers(out) + s.queue.Keys {
      if k !in s.queue { assert out[k - first].seqNo == k; }
    }
  }

  lemma ConcatNumbers(a: seq<Frame>, b: seq<Frame>)
    ensures Numbers(a + b) == Numbers(a) + Numbers(b)
  {
    forall x | x in Numbers(a + b) ensures x in Numbers(a) + Numbers(b) {
      var i :| 0 <= i < |a + b| && (a + b)[i].seqNo == x;
      assert if i < |a| then a[i].seqNo == x else b[i - |a|].seqNo == x;
    }
    forall x | x in Numbers(a) ensures x in Numbers(a + b) {
      var i :| 0 <= i < |a| && a[i].seqNo == x;
      assert (a + b)[i].seqNo == x;
    }
    forall x | x in Numbers(b) ensures x in Numbers(a + b) {
      var i :| 0 <= i < |b| && b[i].seqNo == x;
      assert (a + b)[|a| + i].seqNo == x;
    }
  }

  /**
   Over an orderly run the buffer refines sort-and-deduplicate: everything rendered, drain included, is the
   first arrival of every number, in ascending order.
   */
  lemma SortsAndDeduplicates(window: nat, cap: nat, fs: seq<Frame>)
    requires Orderly(window, cap, Order(fs))
    ensures Rendered(window, cap, fs) == Sorted(FirstOf(fs))
  {
    if fs != [] {
      OrderlyRun(window, cap, fs);
      DrainInOrder(fs[0].seqNo, FirstOf(fs), After(Empty(window, cap), fs), Out(Empty(window, cap), fs));
    }
  }

  // ---- Complete deliveries ----

  /** A number the watermark has passed without output or queueing it. */
  predicate Gone(x: nat, s: State, out: seq<Frame>) {
    s.nextOut.Some? && x < s.nextOut.value && x !in s.queue && x !in Numbers(out)
  }

  /** Such a number never comes back, whatever arrives later. */
  lemma PushKeepsGone(x: nat, s: State, out: seq<Frame>, f: Frame)
    requires Settled(s) && Gone(x, s, out)
    ensures Gone(x, Pushed(s, f).0, out + Pushed(s, f).1)
  {
    PushNumbers(s, f);
    PushSources(s, f);
    ConcatNumbers(out, Pushed(s, f).1);
  }

  lemma {:induction false} RunKeepsGone(x: nat, window: nat, cap: nat, fs: seq<Frame>, n: nat)
    requires n <= |fs|
    requires Gone(x, After(Empty(window, cap), fs[..n]), Out(Empty(window, cap), fs[..n]))
    ensures Gone(x, After(Empty(window, cap), fs), Out(Empty(window, cap), fs))
    decreases |fs|
  {
    if n == |fs| {
      assert fs[..n] == fs;
    } else {
      var front := fs[..|fs| - 1];
      assert front[..n] == fs[..n];
      RunKeepsGone(x, window, cap, front, n);
      RunKeepsSettled(Empty(window, cap), front);
      PushKeepsGone(x, After(Empty(window, cap), front), Out(Empty(window, cap), front), fs[|fs| - 1]);
    }
  }

  /** Exactly the numbers below `total` arrive, in any order and any number of times. */
  ghost predicate Complete(fs: seq<Frame>, total: nat) {
    Numbers(fs) == Range(0, total)
  }

  /** The first arrival that is not orderly makes the watermark pass a number that never comes out. */
  lemma ViolationLosesOne(window: nat, cap: nat, fs: seq<Frame>, n: nat) returns (x: nat)
    requires 0 < n < |fs| && Orderly(window, cap, Order(fs)[..n]) && fs[0].seqNo <= fs[n].seqNo
    requires !Timely(window, Order(fs), n) || !HasRoom(cap, Order(fs), n)
    ensures exists k :: k in Numbers(fs) && x <= k
    ensures Gone(x, After(Empty(window, cap), fs[..n + 1]), Out(Empty(window, cap), fs[..n + 1]))
  {
    var front, f := fs[..n], fs[n];
    assert fs[..n + 1] == front + [f] && Order(fs)[..n] == Order(front);
    assert Order(fs)[..n + 1] == Order(front + [f]);
    StepInPrefix(window, cap, Order(fs), n + 1, n);
    x := LastLosesOne(window, cap, front, f);
    var k :| k in Numbers(front + [f]) && x <= k;
    assert fs == front + [f] + fs[n + 1..];
    ConcatNumbers(front + [f], fs[n + 1..]);
  }

  lemma LastLosesOne(window: nat, cap: nat, front: seq<Frame>, f: Frame) returns (x: nat)
    requires front != [] && Orderly(window, cap, Order(front)) && front[0].seqNo <= f.seqNo
    requires var order := Order(front + [f]);
             !Timely(window, order, |front|) || !HasRoom(cap, order, |front|)
    ensures exists k :: k in Numbers(front + [f]) && x <= k
    ensures Gone(x, After(Empty(window, cap), front + [f]), Out(Empty(window, cap), front + [f]))
  {
    hide Orderly, Timely, HasRoom, Order, FirstOf, Pushed, Gone, OutputMatches, QueueMatches, NothingMissing;
    var s, out := After(Empty(window, cap), front), Out(Empty(window, cap), front);
    OrderlyRun(window, cap, front);
    RunKeepsSettled(Empty(window, cap), front);
    TimelyMeansNoJump(window, front, f, s, out);
    RoomMeansNoEviction(cap, front, f, s, out);
    RunSnoc(Pushed, Empty(window, cap), front, f);
    NumbersSnoc(front, f);
    if f.seqNo <= s.nextOut.value + window {
      x := EvictionLoses(front[0].seqNo, FirstOf(front), s, out, f);
      FirstOfShape(front);
    } else {
      x := s.nextOut.value;
      WatermarkNotOut(front[0].seqNo, FirstOf(front), s, out);
      JumpLoses(s, out, f);
      assert f.seqNo in Numbers(front + [f]) && x <= f.seqNo;
    }
  }

  lemma WatermarkNotOut(first: nat, m: Queue, s: State, out: seq<Frame>)
    requires InOrder(first, m, s, out)
    ensures forall k :: k in Numbers(out) ==> first <= k < s.nextOut.value
  {
    forall k | k in Numbers(out) ensures first <= k < s.nextOut.value {
      var i :| 0 <= i < |out| && out[i].seqNo == k;
    }
  }

  /** Over an orderly run, the oldest frame that waits is lost when it has to make room. */
  lemma EvictionLoses(first: nat, m: Queue, s: State, out: seq<Frame>, f: Frame) returns (x: nat)
    requires Settled(s) && InOrder(first, m, s, out) && first <= f.seqNo <= s.nextOut.value + s.window
    requires f.seqNo !in m && s.queue != map[] && |s.queue| >= s.cap
    ensures x in m && Gone(x, Pushed(s, f).0, out + Pushed(s, f).1)
  {
    var o := Observed(s, f.seqNo);
    x := MinKey(s.queue.Keys);
    OutIsKnown(first, m, out, f.seqNo);
    EvictedShape(o);
    DeliveredShape(Evicted(o), f);
    EmittedFrom(Evicted(o), f);
    WatermarkNotOut(first, m, s, out);
    ConcatNumbers(out, Pushed(s, f).1);
  }

  lemma OutIsKnown(first: nat, m: Queue, out: seq<Frame>, k: nat)
    requires OutputMatches(first, m, out)
    ensures first <= k < first + |out| ==> k in m
  {
    if first <= k < first + |out| { assert out[k - first].seqNo == k; }
  }

  /** What a delivery emits is numbered from the watermark on. */
  lemma EmittedFrom(s: State, f: Frame)
    requires s.nextOut.Some? && f.seqNo !in s.queue && forall k :: k in s.queue ==> s.queue[k].seqNo == k
    ensures forall x :: x in Numbers(Delivered(s, f).1) ==> x >= s.nextOut.value
  {
    forall x | x in Numbers(Delivered(s, f).1) ensures x >= s.nextOut.value {
      var r := Delivered(s, f).1;
      var i :| 0 <= i < |r| && r[i].seqNo == x;
    }
  }

  lemma JumpLoses(s: State, out: seq<Frame>, f: Frame)
    requires Settled(s) && s.nextOut.Some? && f.seqNo > s.nextOut.value + s.window
    requires s.nextOut.value !in Numbers(out)
    ensures Gone(s.nextOut.value, Pushed(s, f).0, out + Pushed(s, f).1)
  {
    GapJump(s, f);
    NumbersSnoc(out, f);
  }

  lemma LaterStartLosesZero(window: nat, cap: nat, fs: seq<Frame>)
    requires fs != [] && fs[0].seqNo > 0
    ensures Gone(0, After(Empty(window, cap), fs[..1]), Out(Empty(window, cap), fs[..1]))
  {
    var f := fs[0];
    FirstPush(Empty(window, cap), f);
    RunSnoc(Pushed, Empty(window, cap), [], f);
    assert fs[..1] == [] + [f];
  }

  /**
   For every window and capacity, a complete delivery is rendered completely exactly when it starts with number 0,
   stays within the reorder window and has room; otherwise at least one frame is lost although every one arrived.
   */
  lemma CompleteDelivery(window: nat, cap: nat, fs: seq<Frame>, total: nat)
    requires Complete(fs, total)
    ensures |Rendered(window, cap, fs)| == total
       <==> (fs == [] || fs[0].seqNo == 0) && BoundedReorder(window, Order(fs)) && Roomy(cap, Order(fs))
  {
    RangeSize(0, total);
    if (fs == [] || fs[0].seqNo == 0) && Orderly(window, cap, Order(fs)) {
      SortsAndDeduplicates(window, cap, fs);
      FirstOfShape(fs);
      assert |FirstOf(fs)| == |FirstOf(fs).Keys|;
    } else {
      var x, n := DisorderLosesOne(window, cap, fs);
      RunKeepsGone(x, window, cap, fs, n);
      OneShort(window, cap, fs, total, x);
    }
  }

  lemma DisorderLosesOne(window: nat, cap: nat, fs: seq<Frame>) returns (x: nat, n: nat)
    requires fs != [] && !(fs[0].seqNo == 0 && Orderly(window, cap, Order(fs)))
    ensures n <= |fs| && Gone(x, After(Empty(window, cap), fs[..n]), Out(Empty(window, cap), fs[..n]))
    ensures exists k :: k in Numbers(fs) && x <= k
  {
    if fs[0].seqNo > 0 {
      x, n := 0, 1;
      LaterStartLosesZero(window, cap, fs);
      assert fs[0].seqNo in Numbers(fs);
    } else {
      var i := FirstViolation(window, cap, Order(fs));
      FirstIsOrderly(window, cap, Order(fs));
      x := ViolationLosesOne(window, cap, fs, i);
      n := i + 1;
    }
  }

  lemma FirstIsOrderly(window: nat, cap: nat, order: seq<nat>)
    requires order != []
    ensures Timely(window, order, 0) && HasRoom(cap, order, 0)
  {
  }

  /** A capacity above the window is room enough. */
  lemma CompleteWithinWindow(window: nat, cap: nat, fs: seq<Frame>, total: nat)
    requires window < cap && Complete(fs, total)
    ensures |Rendered(window, cap, fs)| == total
       <==> (fs == [] || fs[0].seqNo == 0) && BoundedReorder(window, Order(fs))
  {
    CompleteDelivery(window, cap, fs, total);
    if BoundedReorder(window, Order(fs)) { WindowIsRoom(window, cap, Order(fs)); }
  }

  lemma OneShort(window: nat, cap: nat, fs: seq<Frame>, total: nat, x: nat)
    requires Complete(fs, total) && exists k :: k in Numbers(fs) && x <= k
    requires Gone(x, After(Empty(window, cap), fs), Out(Empty(window, cap), fs))
    ensures |Rendered(window, cap, fs)| < total
  {
    RenderedOnce(window, cap, fs);
    RenderedArrived(fs, Rendered(window, cap, fs));
    GoneForGood(window, cap, fs, x);
    FewerThanAll(Rendered(window, cap, fs), total, x);
  }

  lemma RenderedArrived(fs: seq<Frame>, r: seq<Frame>)
    requires forall i :: 0 <= i < |r| ==> r[i] in fs
    ensures Numbers(r) <= Numbers(fs)
  {
    forall y | y in Numbers(r) ensures y in Numbers(fs) {
      var i :| 0 <= i < |r| && r[i].seqNo == y;
      var j :| 0 <= j < |fs| && fs[j] == r[i];
      assert fs[j].seqNo == y;
    }
  }

  lemma GoneForGood(window: nat, cap: nat, fs: seq<Frame>, x: nat)
    requires Gone(x, After(Empty(window, cap), fs), Out(Empty(window, cap), fs))
    ensures x !in Numbers(Rendered(window, cap, fs))
  {
    var s := After(Empty(window, cap), fs);
    RunKeepsSettled(Empty(window, cap), fs);
    SortedNumbers(s.queue);
    ConcatNumbers(Out(Empty(window, cap), fs), Sorted(s.queue));
  }

  lemma FewerThanAll(r: seq<Frame>, total: nat, x: nat)
    requires Distinct(r) && Numbers(r) <= Range(0, total) && x !in Numbers(r) && x < total
    ensures |r| < total
  {
    DistinctCount(r);
    RangeSize(0, total);
    SubsetSize(Numbers(r), Range(0, total) - {x});
  }

  /** What a complete orderly delivery renders: frame by frame, the first arrival of each number. */
  lemma OrderlyComplete(window: nat, cap: nat, fs: seq<Frame>, total: nat)
    requires Complete(fs, total) && (fs == [] || fs[0].seqNo == 0) && Orderly(window, cap, Order(fs))
    ensures var r := Rendered(window, cap, fs);
            && |r| == total && FirstOf(fs).Keys == Range(0, total)
            && forall i :: 0 <= i < total ==> r[i] == FirstOf(fs)[i]
  {
    CompleteDelivery(window, cap, fs, total);
    SortsAndDeduplicates(window, cap, fs);
    FirstOfShape(fs);
    var r := Rendered(window, cap, fs);
    SortedShape(FirstOf(fs));
    SortedNumbers(FirstOf(fs));
    AscendingFillsRange(r, total);
  }

  /** `total` ascending numbers below `total` are 0, 1, 2, … */
  lemma AscendingFillsRange(r: seq<Frame>, total: nat)
    requires Ascending(r) && |r| == total && forall i :: 0 <= i < |r| ==> r[i].seqNo < total
    ensures forall i :: 0 <= i < total ==> r[i].seqNo == i
  {
    forall i | 0 <= i < total ensures r[i].seqNo == i {
      AtLeastIndex(r, i);
      AtMostIndex(r, i);
    }
  }

  lemma {:induction false} AtLeastIndex(r: seq<Frame>, i: nat)
    requires Ascending(r) && i < |r|
    ensures r[i].seqNo >= i
  {
    if i > 0 { AtLeastIndex(r, i - 1); }
  }

  lemma {:induction false} AtMostIndex(r: seq<Frame>, i: nat)
    requires Ascending(r) && i < |r| && r[|r| - 1].seqNo < |r|
    ensures r[i].seqNo <= i
    decreases |r| - i
  {
    if i < |r| - 1 { AtMostIndex(r, i + 1); }
  }
}
