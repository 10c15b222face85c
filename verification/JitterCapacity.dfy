/**
 The hard cap on the jitter queue: when it holds on every run, and the run that breaks it otherwise; and when a
 full queue gives up on a frame, and the run on which it does. The documentation promises the cap for every
 profile; the code keeps it for `Low` and `Balanced` only.
 */
module JitterCapacity {
  import opened Prelude
  import opened Frames
  import opened Jitter
  import opened Machines
  import opened JitterRuns
  import opened ArrivalOrder
  import opened JitterOrder

  /** On no run from the empty buffer does the queue outgrow its capacity. */
  ghost predicate CapHolds(window: nat, cap: nat) {
    forall fs: seq<Frame> :: |After(Empty(window, cap), fs).queue| <= cap
  }

  function Probe(seqNo: u64): Frame {
    NewLossy(7, seqNo, 0, Opus, 48_000, I16, Stereo, 960, FrameFlags(false, false, 0), [])
  }

  /** A new number ahead of the watermark is just queued when nothing is evicted for it. */
  lemma PushAhead(s: State, f: Frame)
    requires Settled(s) && s.nextOut.Some? && Evicted(Observed(s, f.seqNo)) == Observed(s, f.seqNo)
    requires s.nextOut.value < f.seqNo <= s.nextOut.value + s.window && f.seqNo !in s.queue
    ensures Pushed(s, f) == (Observed(s, f.seqNo).(queue := s.queue[f.seqNo := f]), [])
  {
    var no, q := s.nextOut.value, s.queue[f.seqNo := f];
    RunEndUnique(q, no, no);
    assert Without(q, no, no) == q;
  }

  /** `t` is `s` with `n` more numbers queued from `lo` on. */
  ghost predicate Filled(s: State, t: State, lo: nat, n: nat) {
    && Settled(t) && t.nextOut == s.nextOut && t.window == s.window && t.cap == s.cap
    && (forall k :: k in t.queue <==> k in s.queue || lo <= k < lo + n) && |t.queue| == |s.queue| + n
  }

  lemma FillStep(s: State, m: State, lo: nat, n: nat, f: Frame)
    requires s.nextOut.Some? && Filled(s, m, lo, n) && f.seqNo == lo + n
    requires s.nextOut.value < lo && lo + n <= s.nextOut.value + s.window
    requires forall k :: k in s.queue ==> k < lo
    requires |s.queue| + n < s.cap || Stranded(s)
    ensures Filled(s, Pushed(m, f).0, lo, n + 1)
  {
    var o := Observed(m, f.seqNo);
    EvictedShape(o);
    assert Evicted(o) == o by {
      if x :| x in s.queue && x < s.nextOut.value { assert x in m.queue; }
    }
    PushAhead(m, f);
    PushKeepsSettled(m, f);
  }

  /** Numbers ahead of the watermark pile up as long as there is room, or without limit above a stranded key. */
  lemma {:induction false} Fill(start: State, s: State, lo: nat, n: nat) returns (t: State)
    requires Settled(s) && s.nextOut.Some? && s.nextOut.value < lo && lo + n < U64_LIMIT
    requires lo + n <= s.nextOut.value + s.window + 1
    requires forall k :: k in s.queue ==> k < lo
    requires |s.queue| + n <= s.cap || Stranded(s)
    requires Reaches(Pushed, start, s)
    ensures Reaches(Pushed, start, t) && Filled(s, t, lo, n)
    decreases n
  {
    if n == 0 {
      return s;
    }
    var m := Fill(start, s, lo, n - 1);
    var f := Probe(lo + n - 1);
    FillStep(s, m, lo, n - 1, f);
    ReachesNext(Pushed, start, m, f);
    t := Pushed(m, f).0;
  }

  /** The number the watermark waits for, arriving at a full queue that starts right behind it, is stranded. */
  lemma StrandOne(s: State, f: Frame, end: nat)
    requires Settled(s) && s.nextOut == Some(f.seqNo) && end >= f.seqNo + 2
    requires (forall k :: k in s.queue <==> f.seqNo + 1 <= k < end) && |s.queue| >= s.cap
    ensures var t := Pushed(s, f).0;
            && t.nextOut == Some(end) && t.window == s.window && t.cap == s.cap && t.queue == map[f.seqNo := f]
  {
    var o := Observed(s, f.seqNo);
    var next := f.seqNo + 1;
    assert next in o.queue.Keys;
    assert MinKey(o.queue.Keys) == next;
    EvictedShape(o);
    var e := Evicted(o);
    assert e.queue == o.queue - {next};
    var q := e.queue[f.seqNo := f];
    assert forall k :: k in q <==> k == f.seqNo || next + 1 <= k < end;
    RunEndUnique(q, next + 1, end);
    assert Without(q, next + 1, end) == map[f.seqNo := f];
  }

  /** Above a full queue right behind the watermark: strand one key, then fill past the capacity. */
  lemma Overflow(start: State, s: State) returns (t: State)
    requires Settled(s) && s.nextOut == Some(1) && s.queue == map[]
    requires 0 < s.cap <= s.window && 2 * s.cap + 3 < U64_LIMIT
    requires Reaches(Pushed, start, s)
    ensures Reaches(Pushed, start, t) && |t.queue| == s.cap + 1
  {
    var full := Fill(start, s, 2, s.cap);
    StrandOne(full, Probe(1), s.cap + 2);
    PushKeepsSettled(full, Probe(1));
    ReachesNext(Pushed, start, full, Probe(1));
    var stuck := Pushed(full, Probe(1)).0;
    assert 1 in stuck.queue && |stuck.queue| == 1;
    t := Fill(start, stuck, s.cap + 3, s.cap);
  }

  /** A reachable buffer whose queue holds one frame more than its capacity. */
  lemma OverflowReachable(window: nat, cap: nat) returns (t: State)
    requires cap <= window && window > 0 && 2 * cap + 3 < U64_LIMIT
    ensures Reaches(Pushed, Empty(window, cap), t) && |t.queue| == cap + 1
  {
    var start := Empty(window, cap);
    var s := FirstProbe(window, cap);
    if cap == 0 {
      PushAhead(s, Probe(2));
      ReachesNext(Pushed, start, s, Probe(2));
      t := Pushed(s, Probe(2)).0;
    } else {
      t := Overflow(start, s);
    }
  }

  lemma {:induction false} NoWindowNoQueue(cap: nat, fs: seq<Frame>)
    ensures After(Empty(0, cap), fs).queue == map[]
  {
    if fs != [] {
      var front, last := fs[..|fs| - 1], fs[|fs| - 1];
      NoWindowNoQueue(cap, front);
      RunKeepsSettled(Empty(0, cap), front);
      var s := After(Empty(0, cap), front);
      if s.nextOut.None? {
        FirstPush(s, last);
      } else if last.seqNo > s.nextOut.value {
        GapJump(s, last);
      } else if last.seqNo == s.nextOut.value {
        var q: Queue := map[last.seqNo := last];
        RunEndUnique(q, last.seqNo, last.seqNo + 1);
        assert Without(q, last.seqNo, last.seqNo + 1) == map[];
        assert s.queue[last.seqNo := last] == q;
      }
    }
  }

  /** The cap holds on every run exactly when it exceeds the reorder window, or nothing is ever reordered. */
  lemma CapHoldsExactly(window: nat, cap: nat)
    requires 2 * cap + 3 < U64_LIMIT
    ensures CapHolds(window, cap) <==> window < cap || window == 0
  {
    if window < cap {
      forall fs: seq<Frame> ensures |After(Empty(window, cap), fs).queue| <= cap {
        RunStrandsNothing(Empty(window, cap), fs);
        RunKeepsSettled(Empty(window, cap), fs);
      }
    } else if window == 0 {
      forall fs: seq<Frame> ensures |After(Empty(window, cap), fs).queue| <= cap {
        NoWindowNoQueue(cap, fs);
      }
    } else {
      var t := OverflowReachable(window, cap);
      var fs: seq<Frame> :| StateAfter(Pushed, Empty(window, cap), fs) == t;
      assert |After(Empty(window, cap), fs).queue| == cap + 1;
    }
  }

  /** Of the three shipped profiles, exactly `Resilient` can outgrow its documented bound. */
  lemma ProfileCaps(p: Profile)
    ensures CapHolds(p.ReorderWindow(), p.QueueCap()) <==> p != Resilient
  {
    CapHoldsExactly(p.ReorderWindow(), p.QueueCap());
  }

  /** The bound that does hold on every run, for every window and capacity. */
  lemma WindowBound(window: nat, cap: nat, fs: seq<Frame>)
    ensures |After(Empty(window, cap), fs).queue| <= window + 1
  {
    RunKeepsSettled(Empty(window, cap), fs);
    SettledSize(After(Empty(window, cap), fs));
  }

  // ---- Eviction ----

  /** This arrival makes the buffer give up on its oldest frame. */
  ghost predicate Evicts(s: State, f: Frame) {
    && s.nextOut.Some? && f.seqNo >= s.nextOut.value
    && var o := Observed(s, f.seqNo);
       var j := if f.seqNo - s.nextOut.value > s.window then Jumped(o, f.seqNo) else o;
       f.seqNo !in j.queue && Evicted(j) != j
  }

  /** On some run from the empty buffer a frame is evicted. */
  ghost predicate EverEvicts(window: nat, cap: nat) {
    exists s: State, f: Frame :: Reaches(Pushed, Empty(window, cap), s) && Evicts(s, f)
  }

  /** The number the watermark waits for evicts the oldest frame of a full queue behind it. */
  lemma FullQueueEvicts(s: State, f: Frame)
    requires Settled(s) && s.nextOut == Some(f.seqNo) && !Stranded(s) && s.queue != map[] && |s.queue| >= s.cap
    ensures Evicts(s, f)
  {
    assert forall k :: k in s.queue ==> k > f.seqNo;
    EvictedShape(Observed(s, f.seqNo));
  }

  lemma FirstProbe(window: nat, cap: nat) returns (t: State)
    ensures Settled(t) && t.nextOut == Some(1) && t.queue == map[] && t.window == window && t.cap == cap
    ensures Reaches(Pushed, Empty(window, cap), t)
  {
    var start := Empty(window, cap);
    ReachesItself(Pushed, start);
    ReachesNext(Pushed, start, start, Probe(0));
    FirstPush(start, Probe(0));
    PushKeepsSettled(start, Probe(0));
    t := Pushed(start, Probe(0)).0;
  }

  lemma OneAhead(start: State, t: State) returns (s: State)
    requires Settled(t) && t.nextOut == Some(1) && t.queue == map[] && t.window > 0 && t.cap == 0
    requires Reaches(Pushed, start, t)
    ensures Settled(s) && s.nextOut == Some(1) && !Stranded(s) && s.queue != map[] && |s.queue| >= s.cap
    ensures Reaches(Pushed, start, s)
  {
    PushAhead(t, Probe(2));
    PushKeepsSettled(t, Probe(2));
    ReachesNext(Pushed, start, t, Probe(2));
    s := Pushed(t, Probe(2)).0;
    assert 2 in s.queue;
  }

  lemma FillBehind(start: State, t: State) returns (s: State)
    requires Settled(t) && t.nextOut == Some(1) && t.queue == map[] && 0 < t.cap <= t.window
    requires t.cap + 2 < U64_LIMIT && Reaches(Pushed, start, t)
    ensures Settled(s) && s.nextOut == Some(1) && !Stranded(s) && s.queue != map[] && |s.queue| >= s.cap
    ensures Reaches(Pushed, start, s)
  {
    hide Pushed;
    s := Fill(start, t, 2, t.cap);
    assert 2 in s.queue;
  }

  /** Frame 0, then frames 2 and up until the queue is full, then frame 1. */
  lemma EvictionReachable(window: nat, cap: nat) returns (s: State, f: Frame)
    requires cap <= window && window > 0 && cap + 3 < U64_LIMIT
    ensures Reaches(Pushed, Empty(window, cap), s) && Evicts(s, f)
  {
    hide Pushed, Evicts, Filled;
    f := Probe(1);
    var t := FirstProbe(window, cap);
    if cap == 0 {
      s := OneAhead(Empty(window, cap), t);
    } else {
      s := FillBehind(Empty(window, cap), t);
    }
    FullQueueEvicts(s, f);
  }

  lemma NeverEvicts(s: State, f: Frame)
    requires Settled(s) && (s.queue == map[] || |s.queue| < s.cap)
    ensures !Evicts(s, f)
  {
    if s.nextOut.Some? && f.seqNo >= s.nextOut.value {
      var o := Observed(s, f.seqNo);
      assert f.seqNo - s.nextOut.value > s.window ==> Jumped(o, f.seqNo).queue == map[];
    }
  }

  lemma RunNeverEvicts(window: nat, cap: nat, fs: seq<Frame>, f: Frame)
    requires window < cap || window == 0
    ensures !Evicts(After(Empty(window, cap), fs), f)
  {
    hide Pushed, Evicts;
    RunKeepsSettled(Empty(window, cap), fs);
    if window < cap {
      RunStrandsNothing(Empty(window, cap), fs);
    } else {
      NoWindowNoQueue(cap, fs);
    }
    NeverEvicts(After(Empty(window, cap), fs), f);
  }

  /** Eviction ever happens exactly when the window is not smaller than the capacity, and anything is reordered. */
  lemma EvictionExactly(window: nat, cap: nat)
    requires cap + 3 < U64_LIMIT
    ensures EverEvicts(window, cap) <==> cap <= window && window > 0
  {
    hide Pushed, Evicts;
    if cap <= window && window > 0 {
      var s, f := EvictionReachable(window, cap);
    } else {
      forall s: State, f: Frame | Reaches(Pushed, Empty(window, cap), s) ensures !Evicts(s, f) {
        var fs: seq<Frame> :| StateAfter(Pushed, Empty(window, cap), fs) == s;
        RunNeverEvicts(window, cap, fs, f);
      }
    }
  }

  /** Of the three shipped profiles, exactly `Resilient` ever evicts. */
  lemma ProfileEvicts(p: Profile)
    ensures EverEvicts(p.ReorderWindow(), p.QueueCap()) <==> p == Resilient
  {
    EvictionExactly(p.ReorderWindow(), p.QueueCap());
  }

  /** 0, 2, 3, …, w + 1, 1: frame 1 comes when one whole window waits for it. */
  function LateOne(w: nat): seq<nat> {
    [0] + seq(w, i => i + 2) + [1]
  }

  /** Such a delivery stays within the window, and has room exactly when the capacity exceeds the window. */
  lemma LateOneRoom(w: nat, cap: nat)
    requires w > 0
    ensures BoundedReorder(w, LateOne(w))
    ensures Roomy(cap, LateOne(w)) <==> w < cap
  {
    var order := LateOne(w);
    forall i | 0 <= i < |order| ensures Timely(w, order, i) {
      assert order[..i] == [] || order[..i][0] == 0;
    }
    if w < cap {
      WindowIsRoom(w, cap, order);
    } else {
      var front := order[..w + 1];
      assert front[0] == 0 && order[w + 1] == 1 && 1 !in front;
      MissingUnique(front, 0, 1);
      forall x: nat | 1 < x <= 1 + w ensures x in front { assert front[x - 1] == x; }
      forall j | 0 <= j < |front| ensures Timely(w, front, j) { StepInPrefix(w, cap, order, w + 1, j); }
      FullWindow(w, front);
      assert !HasRoom(cap, order, w + 1);
    }
  }

  /** A frame may be overtaken by as many others as the window and the room behind it allow, and no more. */
  lemma OvertakenBy(k: nat, window: nat, cap: nat)
    requires k > 0
    ensures Orderly(window, cap, LateOne(k)) <==> k <= window && k < cap
  {
    var order := LateOne(k);
    LateOneRoom(k, cap);
    if k <= window {
      forall i | 0 <= i < |order| ensures Timely(window, order, i) { assert Timely(k, order, i); }
    } else {
      assert order[k] == k + 1 && 1 !in order[..k];
      assert !Timely(window, order, k);
    }
  }

  /** How many frames may overtake one in each profile. */
  lemma ProfilesTolerate(k: nat)
    requires k > 0
    ensures Orderly(Low.ReorderWindow(), Low.QueueCap(), LateOne(k)) <==> k <= 32
    ensures Orderly(Balanced.ReorderWindow(), Balanced.QueueCap(), LateOne(k)) <==> k <= 256
    ensures Orderly(Resilient.ReorderWindow(), Resilient.QueueCap(), LateOne(k)) <==> k <= 1023
  {
    OvertakenBy(k, 32, 128);
    OvertakenBy(k, 256, 512);
    OvertakenBy(k, 1024, 1024);
  }

  /** Every frame arrives, none beyond the window; still one is lost unless the capacity exceeds the window. */
  lemma LateOneRendered(w: nat, cap: nat, fs: seq<Frame>)
    requires w > 0 && Order(fs) == LateOne(w)
    ensures |Rendered(w, cap, fs)| == w + 2 <==> w < cap
  {
    OrderNumbers(fs);
    forall k: nat | k < w + 2 ensures k in Order(fs) {
      assert LateOne(w)[if k == 0 then 0 else if k == 1 then w + 1 else k - 1] == k;
    }
    assert forall k :: k in Order(fs) ==> k < w + 2;
    assert Numbers(fs) == Range(0, w + 2);
    CompleteDelivery(w, cap, fs, w + 2);
    LateOneRoom(w, cap);
    assert fs[0].seqNo == Order(fs)[0];
  }

  /** Frame 1 at a queue that holds 2 and 3 and is full evicts 2, emits 3 and stays. */
  lemma EvictTwo(s: State, b: Frame, c: Frame, d: Frame)
    requires b.seqNo == 2 && c.seqNo == 3 && d.seqNo == 1
    requires s.nextOut == Some(1) && s.queue == map[2 := b, 3 := c] && s.cap == 2 && s.window == 2
    ensures var (t, out) := Pushed(s, d); t.queue == map[1 := d] && out == [c]
  {
    var o := Observed(s, 1);
    assert 2 in o.queue.Keys && |o.queue| == 2;
    assert MinKey(o.queue.Keys) == 2;
    PassOldest(o, 2);
    var q: Queue := map[3 := c, 1 := d];
    assert (o.queue - {2})[1 := d] == q;
    RunEndUnique(q, 3, 4);
    assert Without(q, 3, 4) == map[1 := d];
    assert Slice(q, 3, 4) == [c];
  }

  lemma SortedOne(f: Frame)
    ensures Sorted(map[f.seqNo := f]) == [f]
  {
    var q: Queue := map[f.seqNo := f];
    assert f.seqNo in q.Keys && q - {f.seqNo} == map[];
  }

  /** One such run: frames 0, 2, 3 and 1 arrive in this order, and frame 2 never comes out. */
  lemma FrameTwoIsLost()
    ensures Rendered(2, 2, [Probe(0), Probe(2), Probe(3), Probe(1)]) == [Probe(0), Probe(3), Probe(1)]
  {
    hide Pushed, Sorted;
    var a, b, c, d := Probe(0), Probe(2), Probe(3), Probe(1);
    ZeroTwoThree(a, b, c);
    EvictTwo(Pushed(Pushed(Pushed(Empty(2, 2), a).0, b).0, c).0, b, c, d);
    FourInputs(Pushed, Empty(2, 2), a, b, c, d);
    SortedOne(d);
  }

  lemma ZeroTwoThree(a: Frame, b: Frame, c: Frame)
    requires a.seqNo == 0 && b.seqNo == 2 && c.seqNo == 3
    ensures var (s, out) := Pushed(Empty(2, 2), a);
            var (t, more) := Pushed(s, b);
            var (u, rest) := Pushed(t, c);
            && out == [a] && more == [] && rest == []
            && u.nextOut == Some(1) && u.queue == map[2 := b, 3 := c] && u.cap == 2 && u.window == 2
  {
    var start := Empty(2, 2);
    FirstPush(start, a);
    PushKeepsSettled(start, a);
    var s := Pushed(start, a).0;
    assert s.window == 2 && s.cap == 2;
    PushAhead(s, b);
    PushKeepsSettled(s, b);
    PushAhead(Pushed(s, b).0, c);
  }
}
