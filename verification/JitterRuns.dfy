/**
 Whole runs of the jitter buffer, from the empty buffer through any sequence of arrivals: what every push
 keeps, how every arrival is accounted for, and when the queue stays within its capacity.
 */
module JitterRuns {
  import opened Prelude
  import opened Frames
  import opened Jitter
  import opened Machines

  /** The buffer after all arrivals, in order. */
  function After(s: State, fs: seq<Frame>): State {
    StateAfter(Pushed, s, fs)
  }

  /** Everything the pushes returned, in order. */
  function Out(s: State, fs: seq<Frame>): seq<Frame> {
    OutputOf(Pushed, s, fs)
  }

  // ---- Structure ----

  /**
   After every push: the watermark itself is not queued, no key lies beyond the window, and at most one key
   lies below the watermark.
   */
  predicate Settled(s: State) {
    match s.nextOut
    case None => s.queue == map[]
    case Some(no) =>
      && no !in s.queue
      && (forall k :: k in s.queue ==> s.queue[k].seqNo == k && k <= no + s.window)
      && (forall j, k :: j in s.queue && k in s.queue && j < no && k < no ==> j == k)
  }

  /** A key below the watermark: no push will ever emit it. */
  predicate Stranded(s: State) {
    s.nextOut.Some? && exists k :: k in s.queue && k < s.nextOut.value
  }

  lemma PushKeepsSettled(s: State, f: Frame)
    requires Settled(s)
    ensures Settled(Pushed(s, f).0)
  {
    var o := Observed(s, f.seqNo);
    if o.nextOut.Some? && f.seqNo >= o.nextOut.value {
      if f.seqNo - o.nextOut.value > o.window {
        GapJump(s, f);
      } else if f.seqNo !in o.queue {
        EnqueueKeepsSettled(o, f);
      }
    }
  }

  /** Passing over the oldest key gives up on that key only. */
  lemma PassOldest(s: State, oldest: nat)
    requires s.nextOut.Some? && oldest in s.queue && oldest >= s.nextOut.value
    requires forall k :: k in s.queue ==> k >= oldest
    ensures PassedOver(s, oldest)
         == s.(queue := s.queue - {oldest}, late := s.late + 1, nextOut := Some(oldest + 1))
  {
    var no := s.nextOut.value;
    assert KeysWithin(s.queue, no, oldest + 1) == {oldest};
    assert Without(s.queue, no, oldest + 1) == s.queue - {oldest};
  }

  /** Eviction drops the oldest key as late, unless that key is stranded: then it does nothing at all. */
  lemma EvictedShape(s: State)
    requires Settled(s) && s.nextOut.Some?
    ensures if |s.queue| >= s.cap && s.queue != map[] && MinKey(s.queue.Keys) > s.nextOut.value
            then var oldest := MinKey(s.queue.Keys);
                 Evicted(s) == s.(queue := s.queue - {oldest}, late := s.late + 1, nextOut := Some(oldest + 1))
            else Evicted(s) == s
  {
    if |s.queue| >= s.cap && s.queue != map[] {
      var oldest := MinKey(s.queue.Keys);
      assert oldest != s.nextOut.value;
      if oldest > s.nextOut.value { PassOldest(s, oldest); }
    }
  }

  lemma EnqueueKeepsSettled(s: State, f: Frame)
    requires Settled(s) && s.nextOut.Some?
    requires s.nextOut.value <= f.seqNo <= s.nextOut.value + s.window && f.seqNo !in s.queue
    ensures Settled(Delivered(Evicted(s), f).0)
  {
    EvictedShape(s);
    var e := Evicted(s);
    DeliveredShape(e, f);
  }

  lemma DeliveredShape(s: State, f: Frame)
    requires s.nextOut.Some?
    ensures var t := Delivered(s, f).0;
            && t.nextOut.Some? && t.nextOut.value >= s.nextOut.value && t.nextOut.value !in t.queue
            && (forall k :: k in t.queue ==>
                  if k == f.seqNo then t.queue[k] == f else k in s.queue && t.queue[k] == s.queue[k])
            && t == s.(queue := t.queue, nextOut := t.nextOut)
  {
  }

  /** A gap deeper than the window abandons the whole queue; only the new frame remains, and is emitted. */
  lemma GapJump(s: State, f: Frame)
    requires Settled(s) && s.nextOut.Some? && f.seqNo > s.nextOut.value + s.window
    ensures var (t, out) := Pushed(s, f);
            out == [f] && t.queue == map[] && t.nextOut == Some(f.seqNo + 1) && t.late == s.late + |s.queue|
  {
    var o := Observed(s, f.seqNo);
    var j := Jumped(o, f.seqNo);
    assert KeysWithin(s.queue, 0, f.seqNo) == s.queue.Keys;
    assert j.queue == map[];
    assert Evicted(j) == j;
    var q := j.queue[f.seqNo := f];
    RunEndUnique(q, f.seqNo, f.seqNo + 1);
    assert Slice(q, f.seqNo, f.seqNo + 1) == [f];
    assert Without(q, f.seqNo, f.seqNo + 1) == map[];
  }

  lemma {:induction false} RunKeepsSettled(s: State, fs: seq<Frame>)
    requires Settled(s)
    ensures var t := After(s, fs); Settled(t) && t.window == s.window && t.cap == s.cap
  {
    if fs != [] {
      RunKeepsSettled(s, fs[..|fs| - 1]);
      PushKeepsSettled(After(s, fs[..|fs| - 1]), fs[|fs| - 1]);
    }
  }

  // ---- Size of the queue ----

  function Range(lo: nat, hi: nat): (r: set<nat>)
    ensures forall k :: k in r <==> lo <= k < hi
    decreases hi
  {
    if lo < hi then Range(lo, hi - 1) + {hi - 1} else {}
  }

  lemma {:induction false} RangeSize(lo: nat, hi: nat)
    requires lo <= hi
    ensures |Range(lo, hi)| == hi - lo
    decreases hi
  {
    if lo < hi { RangeSize(lo, hi - 1); }
  }

  lemma SubsetSize(a: set<nat>, b: set<nat>)
    requires a <= b
    ensures |a| <= |b|
  {
    assert b == a + (b - a);
  }

  /** The memory bound that holds for every window and capacity. */
  lemma SettledSize(s: State)
    requires Settled(s)
    ensures |s.queue| <= s.window + 1
    ensures !Stranded(s) ==> |s.queue| <= s.window
  {
    assert |s.queue| == |s.queue.Keys|;
    if s.nextOut.Some? {
      var no := s.nextOut.value;
      if x :| x in s.queue && x < no {
        OneBelowSize(s.queue.Keys, no, s.window, x);
      } else {
        AheadSize(s.queue.Keys, no, s.window);
      }
    }
  }

  lemma OneBelowSize(keys: set<nat>, no: nat, window: nat, x: nat)
    requires x in keys && forall k :: k in keys ==> k == x || no < k <= no + window
    ensures |keys| <= window + 1
  {
    AheadSize(keys - {x}, no, window);
  }

  lemma AheadSize(keys: set<nat>, no: nat, window: nat)
    requires forall k :: k in keys ==> no < k <= no + window
    ensures |keys| <= window
  {
    RangeSize(no + 1, no + window + 1);
    SubsetSize(keys, Range(no + 1, no + window + 1));
  }

  /** With room for the whole window the queue never fills, so nothing is evicted and nothing is stranded. */
  lemma PushStrandsNothing(s: State, f: Frame)
    requires Settled(s) && !Stranded(s) && s.window < s.cap
    ensures !Stranded(Pushed(s, f).0)
  {
    var o := Observed(s, f.seqNo);
    SettledSize(o);
    if o.nextOut.Some? && f.seqNo >= o.nextOut.value && f.seqNo - o.nextOut.value > o.window {
      GapJump(s, f);
    }
  }

  lemma {:induction false} RunStrandsNothing(s: State, fs: seq<Frame>)
    requires Settled(s) && !Stranded(s) && s.window < s.cap
    ensures var t := After(s, fs); !Stranded(t) && Evicted(t) == t && |t.queue| <= t.window
  {
    RunKeepsSettled(s, fs);
    if fs != [] {
      var front := fs[..|fs| - 1];
      RunStrandsNothing(s, front);
      RunKeepsSettled(s, front);
      PushStrandsNothing(After(s, front), fs[|fs| - 1]);
    }
    SettledSize(After(s, fs));
  }

  // ---- Every arrival is accounted for ----

  predicate Ascending(frames: seq<Frame>) {
    forall i, j :: 0 <= i < j < |frames| ==> frames[i].seqNo < frames[j].seqNo
  }

  lemma KeysSplit(q: Queue, lo: nat, hi: nat)
    ensures |Without(q, lo, hi)| + |KeysWithin(q, lo, hi)| == |q|
  {
    assert Without(q, lo, hi).Keys + KeysWithin(q, lo, hi) == q.Keys;
    assert |Without(q, lo, hi).Keys| == |Without(q, lo, hi)|;
  }

  lemma EmittedCount(s: State)
    requires s.nextOut.Some?
    ensures var (t, out) := Emitted(s); |out| + |t.queue| == |s.queue| && t.late == s.late && t.duplicate == s.duplicate
  {
    var no := s.nextOut.value;
    var end := RunEnd(s.queue, no);
    KeysSplit(s.queue, no, end);
    RangeSize(no, end);
    assert KeysWithin(s.queue, no, end) == Range(no, end);
  }

  /** One arrival is emitted, queued, counted late or counted duplicate; nothing is lost track of. */
  lemma PushAccounts(s: State, f: Frame)
    requires Settled(s)
    ensures var (t, out) := Pushed(s, f);
            1 + |s.queue| + s.late + s.duplicate == |out| + |t.queue| + t.late + t.duplicate
  {
    var o := Observed(s, f.seqNo);
    if o.nextOut.None? {
      var d := o.(nextOut := Some(f.seqNo), queue := o.queue[f.seqNo := f]);
      EmittedCount(d);
    } else if f.seqNo >= o.nextOut.value {
      var j := if f.seqNo - o.nextOut.value > o.window then Jumped(o, f.seqNo) else o;
      KeysSplit(o.queue, 0, f.seqNo);
      assert |j.queue| + j.late == |o.queue| + o.late;
      if f.seqNo !in j.queue {
        var e := Evicted(j);
        EvictedCount(j);
        assert f.seqNo !in e.queue;
        EmittedCount(e.(queue := e.queue[f.seqNo := f]));
      }
    }
  }

  lemma EvictedCount(s: State)
    ensures var t := Evicted(s);
            |t.queue| + t.late == |s.queue| + s.late && t.duplicate == s.duplicate && t.queue.Keys <= s.queue.Keys
    ensures Evicted(s).nextOut.Some? <==> s.nextOut.Some?
  {
    if s.queue != map[] && s.nextOut.Some? {
      KeysSplit(s.queue, s.nextOut.value, MinKey(s.queue.Keys) + 1);
    }
  }

  /** The frames of one push are numbered consecutively up to the new watermark, from the old one or beyond. */
  lemma PushNumbers(s: State, f: Frame)
    requires Settled(s)
    ensures var (t, out) := Pushed(s, f);
            && t.nextOut.Some?
            && |out| <= t.nextOut.value
            && (forall i :: 0 <= i < |out| ==> out[i].seqNo == t.nextOut.value - |out| + i)
            && (s.nextOut.Some? ==> s.nextOut.value <= t.nextOut.value - |out|)
            && (s.nextOut.None? ==> out == [f])
  {
    var o := Observed(s, f.seqNo);
    if o.nextOut.None? {
      FirstPush(s, f);
    } else if f.seqNo >= o.nextOut.value {
      if f.seqNo - o.nextOut.value > o.window {
        GapJump(s, f);
      } else if f.seqNo !in o.queue {
        EvictedShape(o);
        var e := Evicted(o);
        EmittedOutput(e.(queue := e.queue[f.seqNo := f]));
      }
    }
  }

  lemma FirstPush(s: State, f: Frame)
    requires s.nextOut.None? && s.queue == map[]
    ensures var (t, out) := Pushed(s, f);
            out == [f] && t.queue == map[] && t.nextOut == Some(f.seqNo + 1)
  {
    var q: Queue := map[f.seqNo := f];
    RunEndUnique(q, f.seqNo, f.seqNo + 1);
    assert Slice(q, f.seqNo, f.seqNo + 1) == [f];
    assert Without(q, f.seqNo, f.seqNo + 1) == map[];
  }

  /** Every frame of a push is the arrival or was queued; what stays queued was queued or is the arrival. */
  lemma PushSources(s: State, f: Frame)
    requires Settled(s)
    ensures var (t, out) := Pushed(s, f);
            && (forall i :: 0 <= i < |out| ==>
                  out[i].seqNo !in t.queue
                  && (out[i] == f || (out[i].seqNo in s.queue && out[i] == s.queue[out[i].seqNo])))
            && (forall k :: k in t.queue ==>
                  if k in s.queue then t.queue[k] == s.queue[k]
                  else k == f.seqNo && t.queue[k] == f && s.nextOut.Some? && k >= s.nextOut.value)
  {
    var o := Observed(s, f.seqNo);
    if o.nextOut.None? {
      FirstPush(s, f);
    } else if f.seqNo >= o.nextOut.value {
      if f.seqNo - o.nextOut.value > o.window {
        GapJump(s, f);
      } else if f.seqNo !in o.queue {
        assert Pushed(s, f) == Delivered(Evicted(o), f);
        EnqueueSources(o, f);
      }
    }
  }

  lemma EnqueueSources(o: State, f: Frame)
    requires Settled(o) && o.nextOut.Some? && o.nextOut.value <= f.seqNo && f.seqNo !in o.queue
    ensures var (t, out) := Delivered(Evicted(o), f);
            && (forall i :: 0 <= i < |out| ==>
                  out[i].seqNo !in t.queue
                  && (out[i] == f || (out[i].seqNo in o.queue && out[i] == o.queue[out[i].seqNo])))
            && (forall k :: k in t.queue ==>
                  if k in o.queue then t.queue[k] == o.queue[k] else k == f.seqNo && t.queue[k] == f)
  {
    EvictedShape(o);
    var e := Evicted(o);
    EmittedOutput(e.(queue := e.queue[f.seqNo := f]));
  }

  lemma EmittedOutput(s: State)
    requires s.nextOut.Some? && forall k :: k in s.queue ==> s.queue[k].seqNo == k
    ensures var (t, out) := Emitted(s);
            && t.nextOut.Some? && t.nextOut.value == s.nextOut.value + |out|
            && (forall i :: 0 <= i < |out| ==> out[i].seqNo == s.nextOut.value + i)
            && (forall i :: 0 <= i < |out| ==> out[i].seqNo in s.queue && out[i] == s.queue[out[i].seqNo])
            && (forall k :: k in t.queue ==> k in s.queue && t.queue[k] == s.queue[k])
            && (forall i :: 0 <= i < |out| ==> out[i].seqNo !in t.queue)
  {
  }

  function Numbers(frames: seq<Frame>): set<nat> {
    set i | 0 <= i < |frames| :: frames[i].seqNo
  }

  /** What a run has delivered so far, against what arrived. */
  predicate Accounted(fs: seq<Frame>, s: State, out: seq<Frame>) {
    && |fs| == |out| + |s.queue| + s.late + s.duplicate
    && Ascending(out)
    && (forall i :: 0 <= i < |out| ==> out[i] in fs)
    && (forall k :: k in s.queue ==> s.queue[k] in fs)
    && (forall i :: 0 <= i < |out| ==> s.nextOut.Some? && out[i].seqNo < s.nextOut.value && out[i].seqNo !in s.queue)
  }

  /**
   On every run, for every window and capacity: pushes return frames in strictly ascending order, each of them
   an arrival, none still queued, and arrivals = output + queued + late + duplicate.
   */
  lemma {:induction false} RunAccounts(window: nat, cap: nat, fs: seq<Frame>)
    ensures Settled(After(Empty(window, cap), fs))
    ensures Accounted(fs, After(Empty(window, cap), fs), Out(Empty(window, cap), fs))
  {
    RunKeepsSettled(Empty(window, cap), fs);
    if fs != [] {
      var front, last := fs[..|fs| - 1], fs[|fs| - 1];
      assert fs == front + [last];
      RunAccounts(window, cap, front);
      PushKeepsAccounts(front, After(Empty(window, cap), front), Out(Empty(window, cap), front), last);
    }
  }

  lemma PushKeepsAccounts(fs: seq<Frame>, s: State, out: seq<Frame>, f: Frame)
    requires Settled(s) && Accounted(fs, s, out)
    ensures Accounted(fs + [f], Pushed(s, f).0, out + Pushed(s, f).1)
  {
    PushAccounts(s, f);
    PushNumbers(s, f);
    PushSources(s, f);
  }

  // ---- Nothing is rendered twice, and the loss count is exact ----

  predicate Distinct(frames: seq<Frame>) {
    forall i, j :: 0 <= i < j < |frames| ==> frames[i].seqNo != frames[j].seqNo
  }

  /** Ascending frames of the queue, none of them below `lo`. */
  predicate OfQueue(q: Queue, lo: nat, frames: seq<Frame>) {
    && Ascending(frames)
    && forall i :: 0 <= i < |frames| ==>
         frames[i].seqNo >= lo && frames[i].seqNo in q && frames[i] == q[frames[i].seqNo]
  }

  lemma PrependSmallest(q: Queue, k: nat, rest: seq<Frame>)
    requires k in q && q[k].seqNo == k && OfQueue(q, k + 1, rest)
    ensures OfQueue(q, k, [q[k]] + rest)
  {
  }

  lemma {:induction false} SortedFrom(q: Queue, lo: nat)
    requires forall k :: k in q ==> q[k].seqNo == k && k >= lo
    ensures OfQueue(q, lo, Sorted(q))
    decreases |q|
  {
    if q != map[] {
      var k := MinKey(q.Keys);
      var rest := q - {k};
      assert rest.Keys == q.Keys - {k};
      SortedFrom(rest, k + 1);
      assert OfQueue(q, k + 1, Sorted(rest));
      PrependSmallest(q, k, Sorted(rest));
    }
  }

  lemma SortedShape(q: Queue)
    requires forall k :: k in q ==> q[k].seqNo == k
    ensures Ascending(Sorted(q))
    ensures forall i :: 0 <= i < |Sorted(q)| ==> Sorted(q)[i].seqNo in q && Sorted(q)[i] == q[Sorted(q)[i].seqNo]
  {
    SortedFrom(q, 0);
  }

  /** The numbers of the sorted frames are the keys. */
  lemma SortedNumbers(q: Queue)
    requires forall k :: k in q ==> q[k].seqNo == k
    ensures Numbers(Sorted(q)) == q.Keys
  {
    SortedShape(q);
    DistinctCount(Sorted(q));
    assert Numbers(Sorted(q)) <= q.Keys;
    SameSizeSubset(Numbers(Sorted(q)), q.Keys);
  }

  lemma SameSizeSubset(a: set<nat>, b: set<nat>)
    requires a <= b && |a| == |b|
    ensures a == b
  {
    assert b == a + (b - a);
    assert |b - a| == 0;
  }

  lemma {:induction false} DistinctCount(frames: seq<Frame>)
    requires Distinct(frames)
    ensures |Numbers(frames)| == |frames|
  {
    if frames != [] {
      var front, last := frames[..|frames| - 1], frames[|frames| - 1];
      DistinctCount(front);
      assert last.seqNo !in Numbers(front);
      assert Numbers(frames) == Numbers(front) + {last.seqNo} by {
        forall x | x in Numbers(frames) ensures x in Numbers(front) + {last.seqNo} {
          var i :| 0 <= i < |frames| && frames[i].seqNo == x;
          assert i < |front| ==> front[i].seqNo == x;
        }
        forall x | x in Numbers(front) ensures x in Numbers(frames) {
          var i :| 0 <= i < |front| && front[i].seqNo == x;
          assert frames[i].seqNo == x;
        }
        assert frames[|front|].seqNo == last.seqNo;
      }
    } else {
      assert Numbers(frames) == {};
    }
  }

  /** All that a run renders: what the pushes returned, then the drain at the end of the stream. */
  function Rendered(window: nat, cap: nat, fs: seq<Frame>): seq<Frame> {
    Out(Empty(window, cap), fs) + Drained(After(Empty(window, cap), fs)).1
  }

  /** No sequence number is rendered twice, not even counting the final drain; all that is rendered arrived. */
  lemma RenderedOnce(window: nat, cap: nat, fs: seq<Frame>)
    ensures Distinct(Rendered(window, cap, fs))
    ensures forall i :: 0 <= i < |Rendered(window, cap, fs)| ==> Rendered(window, cap, fs)[i] in fs
    ensures var s := After(Empty(window, cap), fs); |fs| == |Rendered(window, cap, fs)| + s.late + s.duplicate
  {
    RunAccounts(window, cap, fs);
    var s, out := After(Empty(window, cap), fs), Out(Empty(window, cap), fs);
    SortedShape(s.queue);
  }

  /** The loss reported at the end: the announced total minus the frames rendered, saturating at zero. */
  function Loss(total: nat, rendered: nat): nat {
    if total >= rendered then total - rendered else 0
  }

  /** When no arrival is numbered at or above `total`, the loss counts exactly the numbers never rendered. */
  lemma LossIsExact(window: nat, cap: nat, fs: seq<Frame>, total: nat)
    requires forall i :: 0 <= i < |fs| ==> fs[i].seqNo < total
    ensures var r := Rendered(window, cap, fs);
            && Loss(total, |r|) == |Range(0, total) - Numbers(r)|
            && |r| <= total
  {
    var r := Rendered(window, cap, fs);
    RenderedOnce(window, cap, fs);
    DistinctCount(r);
    assert Numbers(r) <= Range(0, total);
    RangeSize(0, total);
    SubsetSize(Numbers(r), Range(0, total));
    assert Range(0, total) == Numbers(r) + (Range(0, total) - Numbers(r));
  }

  // ---- Out-of-order observations ----

  /** The largest number so far. */
  function Highest(fs: seq<Frame>): Option<nat> {
    if fs == [] then None
    else
      var before, last := Highest(fs[..|fs| - 1]), fs[|fs| - 1];
      if before.None? || last.seqNo > before.value then Some(last.seqNo) else before
  }

  /** How many arrivals came after a larger number. */
  function Overtaken(fs: seq<Frame>): nat {
    if fs == [] then 0
    else
      var front, last := fs[..|fs| - 1], fs[|fs| - 1];
      Overtaken(front) + (if exists f <- front :: f.seqNo > last.seqNo then 1 else 0)
  }

  lemma {:induction false} HighestIsMaximum(fs: seq<Frame>)
    ensures Highest(fs).None? <==> fs == []
    ensures forall f <- fs :: f.seqNo <= Highest(fs).value
    ensures fs != [] ==> exists f <- fs :: f.seqNo == Highest(fs).value
  {
    if fs != [] {
      var front, last := fs[..|fs| - 1], fs[|fs| - 1];
      HighestIsMaximum(front);
      assert fs == front + [last];
      if Highest(fs) != Some(last.seqNo) {
        var f :| f in front && f.seqNo == Highest(front).value;
        assert f in fs;
      } else {
        assert last in fs;
      }
    }
  }

  lemma PushObserves(s: State, f: Frame)
    ensures Pushed(s, f).0.highSeen == Observed(s, f.seqNo).highSeen
    ensures Pushed(s, f).0.reorder == Observed(s, f.seqNo).reorder
  {
  }

  /** On every run the reorder counter is the number of arrivals that came after a larger number. */
  lemma {:induction false} ReorderIsExact(window: nat, cap: nat, fs: seq<Frame>)
    ensures After(Empty(window, cap), fs).highSeen == Highest(fs)
    ensures After(Empty(window, cap), fs).reorder == Overtaken(fs)
  {
    if fs != [] {
      var front, last := fs[..|fs| - 1], fs[|fs| - 1];
      ReorderIsExact(window, cap, front);
      PushObserves(After(Empty(window, cap), front), last);
      HighestIsMaximum(front);
      if exists f <- front :: f.seqNo > last.seqNo {
        var f :| f in front && f.seqNo > last.seqNo;
        assert f.seqNo <= Highest(front).value;
      }
    }
  }
}
