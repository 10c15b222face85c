/**
 The receiver's bounded in-order jitter buffer: an ordered queue of frames, the next sequence number to emit,
 and the counters. `State` and the functions on it say what each operation does; the class does it in place.
 */
module Jitter {
  import opened Prelude
  import opened Frames

  datatype Profile = Low | Balanced | Resilient {
    function QueueCap(): nat {
      match this case Low => 128 case Balanced => 512 case Resilient => 1024
    }

    function ReorderWindow(): nat {
      match this case Low => 32 case Balanced => 256 case Resilient => 1024
    }
  }

  type Queue = map<nat, Frame>

  datatype State = State(
    queue: Queue,
    nextOut: Option<nat>,
    highSeen: Option<nat>,
    window: nat,
    cap: nat,
    duplicate: nat,
    late: nat,
    reorder: nat)

  function Empty(window: nat, cap: nat): State {
    State(map[], None, None, window, cap, 0, 0, 0)
  }

  // ---- Ordered access to the queue ----

  function MinKey(keys: set<nat>): (k: nat)
    requires keys != {}
    ensures k in keys && forall j :: j in keys ==> k <= j
  {
    var x :| x in keys;
    MinFrom(keys, x);
    var k :| k in keys && forall j :: j in keys ==> k <= j;
    k
  }

  lemma {:induction false} MinFrom(keys: set<nat>, x: nat)
    requires x in keys
    ensures exists k :: k in keys && forall j :: j in keys ==> k <= j
    decreases x
  {
    if y :| y in keys && y < x {
      MinFrom(keys, y);
    } else {
      assert forall j :: j in keys ==> x <= j;
    }
  }

  /** The queued frames in ascending key order. */
  function Sorted(q: Queue): (frames: seq<Frame>)
    ensures |frames| == |q|
  {
    if q == map[] then []
    else
      var k := MinKey(q.Keys);
      assert (q - {k}).Keys == q.Keys - {k};
      [q[k]] + Sorted(q - {k})
  }

  /** The end of the run of consecutive keys that starts at `no`. */
  function RunEnd(q: Queue, no: nat): (end: nat)
    ensures end >= no && end !in q
    ensures forall k :: no <= k < end ==> k in q
    decreases KeysFrom(q, no)
  {
    if no in q then
      assert no in KeysFrom(q, no) && no !in KeysFrom(q, no + 1);
      RunEnd(q, no + 1)
    else no
  }

  function KeysFrom(q: Queue, lo: nat): set<nat> {
    set k | k in q && k >= lo
  }

  function Slice(q: Queue, lo: nat, hi: nat): (frames: seq<Frame>)
    requires lo <= hi && forall k :: lo <= k < hi ==> k in q
    ensures |frames| == hi - lo
  {
    seq(hi - lo, i requires 0 <= i < hi - lo => q[lo + i])
  }

  function KeysWithin(q: Queue, lo: nat, hi: nat): set<nat> {
    set k | k in q && lo <= k < hi
  }

  function Without(q: Queue, lo: nat, hi: nat): Queue {
    map k | k in q && !(lo <= k < hi) :: q[k]
  }

  // ---- The operations ----

  /** Pop consecutive frames from the watermark on and advance it past them. */
  function Emitted(s: State): (State, seq<Frame>)
    requires s.nextOut.Some?
  {
    var no := s.nextOut.value;
    var end := RunEnd(s.queue, no);
    (s.(queue := Without(s.queue, no, end), nextOut := Some(end)), Slice(s.queue, no, end))
  }

  function Delivered(s: State, f: Frame): (State, seq<Frame>)
    requires s.nextOut.Some?
  {
    Emitted(s.(queue := s.queue[f.seqNo := f]))
  }

  /** Stop waiting for everything up to `seqNo`; what was queued there is counted late, not emitted. */
  function PassedOver(s: State, seqNo: nat): State {
    if s.nextOut.Some? && seqNo >= s.nextOut.value then
      var no := s.nextOut.value;
      s.(queue := Without(s.queue, no, seqNo + 1),
         late := s.late + |KeysWithin(s.queue, no, seqNo + 1)|,
         nextOut := Some(seqNo + 1))
    else s
  }

  /** A gap deeper than the window: everything queued below `seqNo` is abandoned as late. */
  function Jumped(s: State, seqNo: nat): State {
    s.(queue := Without(s.queue, 0, seqNo),
       late := s.late + |KeysWithin(s.queue, 0, seqNo)|,
       nextOut := Some(seqNo))
  }

  /** Make room when the queue is at capacity by giving up on its oldest key. */
  function Evicted(s: State): State {
    if |s.queue| >= s.cap && s.queue != map[] then PassedOver(s, MinKey(s.queue.Keys)) else s
  }

  /** Out-of-order bookkeeping, done for every arrival. */
  function Observed(s: State, seqNo: nat): State {
    s.(reorder := s.reorder + (if s.highSeen.Some? && seqNo < s.highSeen.value then 1 else 0),
       highSeen := if s.highSeen.None? || seqNo > s.highSeen.value then Some(seqNo) else s.highSeen)
  }

  /** One arrival: the new state and the frames that became ready. */
  function Pushed(s: State, f: Frame): (State, seq<Frame>) {
    var o := Observed(s, f.seqNo);
    if o.nextOut.None? then
      Delivered(o.(nextOut := Some(f.seqNo)), f)
    else
      var no := o.nextOut.value;
      if f.seqNo < no then
        if no - f.seqNo > o.window then (o.(late := o.late + 1), [])
        else (o.(duplicate := o.duplicate + 1), [])
      else
        var j := if f.seqNo - no > o.window then Jumped(o, f.seqNo) else o;
        if f.seqNo in j.queue then (j.(duplicate := j.duplicate + 1), [])
        else Delivered(Evicted(j), f)
  }

  /** End of stream: every buffered frame in ascending order. */
  function Drained(s: State): (State, seq<Frame>) {
    (s.(queue := map[]), Sorted(s.queue))
  }

  // ---- The buffer, updated in place ----

  class JitterBuffer {
    var queue: Queue
    var nextOut: Option<nat>
    var highSeen: Option<nat>
    const reorderWindow: nat
    const cap: nat
    var duplicate: nat
    var late: nat
    var reorder: nat

    function View(): State
      reads this
    {
      State(queue, nextOut, highSeen, reorderWindow, cap, duplicate, late, reorder)
    }

    constructor (reorderWindow: nat, cap: nat)
      ensures View() == Empty(reorderWindow, cap)
    {
      this.reorderWindow, this.cap := reorderWindow, cap;
      queue, nextOut, highSeen := map[], None, None;
      duplicate, late, reorder := 0, 0, 0;
    }

    method Push(frame: Frame) returns (ready: seq<Frame>)
      modifies this
      ensures (View(), ready) == Pushed(old(View()), frame)
    {
      var seqNo := frame.seqNo;
      if highSeen.Some? && seqNo < highSeen.value {
        reorder := reorder + 1;
      }
      if highSeen.None? || seqNo > highSeen.value {
        highSeen := Some(seqNo);
      }
      ghost var o := View();
      assert o == Observed(old(View()), seqNo);
      if nextOut.None? {
        nextOut := Some(seqNo);
        queue := queue[seqNo := frame];
        ready := EmitContiguous();
        return;
      }
      var no := nextOut.value;
      if seqNo < no {
        if no - seqNo > reorderWindow {
          late := late + 1;
        } else {
          duplicate := duplicate + 1;
        }
        return [];
      }
      if seqNo - no > reorderWindow {
        Abandon(seqNo);
        nextOut := Some(seqNo);
      }
      ghost var j := View();
      assert j == if seqNo - no > reorderWindow then Jumped(o, seqNo) else o;
      if seqNo in queue {
        duplicate := duplicate + 1;
        return [];
      }
      ready := Enqueue(frame);
    }

    /** Make room if the queue is at capacity, insert, and emit what has become contiguous. */
    method Enqueue(frame: Frame) returns (ready: seq<Frame>)
      requires nextOut.Some?
      modifies this`queue, this`late, this`nextOut
      ensures (View(), ready) == Delivered(Evicted(old(View())), frame)
    {
      if |queue| >= cap && queue != map[] {
        var oldest := MinKey(queue.Keys);
        DeclareEmitted(oldest);
      }
      assert View() == Evicted(old(View()));
      queue := queue[frame.seqNo := frame];
      ready := EmitContiguous();
    }

    /** Drop every queued key below `seqNo`, counting each as late. */
    method Abandon(seqNo: nat)
      modifies this`queue, this`late
      ensures queue == Without(old(queue), 0, seqNo)
      ensures late == old(late) + |KeysWithin(old(queue), 0, seqNo)|
    {
      var abandoned := set k | k in queue && k < seqNo;
      ghost var all := abandoned;
      assert all == KeysWithin(old(queue), 0, seqNo);
      while abandoned != {}
        invariant abandoned <= all
        invariant queue == map k | k in old(queue) && k !in all - abandoned :: old(queue)[k]
        invariant late + |abandoned| == old(late) + |all|
      {
        var k :| k in abandoned;
        abandoned := abandoned - {k};
        queue := queue - {k};
        late := late + 1;
      }
    }

    /** Walk the watermark up to and past `seqNo`. */
    method DeclareEmitted(seqNo: nat)
      modifies this`queue, this`late, this`nextOut
      ensures View() == PassedOver(old(View()), seqNo)
    {
      if nextOut.Some? && seqNo >= nextOut.value {
        var no := nextOut.value;
        var k := no;
        while k <= seqNo
          invariant no <= k <= seqNo + 1
          invariant queue == Without(old(queue), no, k)
          invariant late == old(late) + |KeysWithin(old(queue), no, k)|
          invariant nextOut == old(nextOut)
        {
          KeysWithinGrow(old(queue), no, k);
          WithoutGrow(old(queue), no, k);
          if k in queue {
            queue := queue - {k};
            late := late + 1;
          }
          k := k + 1;
        }
        nextOut := Some(seqNo + 1);
      }
    }

    method EmitContiguous() returns (out: seq<Frame>)
      requires nextOut.Some?
      modifies this`queue, this`nextOut
      ensures (View(), out) == Emitted(old(View()))
    {
      out := [];
      ghost var start := nextOut.value;
      while nextOut.value in queue
        invariant nextOut.Some? && start <= nextOut.value
        invariant forall k :: start <= k < nextOut.value ==> k in old(queue)
        invariant queue == Without(old(queue), start, nextOut.value)
        invariant out == Slice(old(queue), start, nextOut.value)
        decreases |queue|
      {
        var no := nextOut.value;
        WithoutGrow(old(queue), start, no);
        out := out + [queue[no]];
        queue := queue - {no};
        nextOut := Some(no + 1);
      }
      RunEndUnique(old(queue), start, nextOut.value);
    }

    method DrainAll() returns (out: seq<Frame>)
      modifies this`queue
      ensures (View(), out) == Drained(old(View()))
    {
      out := [];
      while queue != map[]
        invariant out + Sorted(queue) == Sorted(old(queue))
        decreases |queue|
      {
        var k := MinKey(queue.Keys);
        assert Sorted(queue) == [queue[k]] + Sorted(queue - {k});
        assert out + Sorted(queue) == (out + [queue[k]]) + Sorted(queue - {k});
        out := out + [queue[k]];
        queue := queue - {k};
      }
      assert out == out + Sorted(queue);
    }
  }

  lemma KeysWithinGrow(q: Queue, lo: nat, k: nat)
    requires lo <= k
    ensures KeysWithin(q, lo, k + 1) == KeysWithin(q, lo, k) + (if k in q then {k} else {})
    ensures |KeysWithin(q, lo, k + 1)| == |KeysWithin(q, lo, k)| + (if k in q then 1 else 0)
  {
    assert KeysWithin(q, lo, k + 1) == KeysWithin(q, lo, k) + (if k in q then {k} else {});
  }

  lemma WithoutGrow(q: Queue, lo: nat, k: nat)
    requires lo <= k
    ensures Without(q, lo, k + 1) == Without(q, lo, k) - {k}
    ensures k in q <==> k in Without(q, lo, k)
  {
  }

  lemma RunEndUnique(q: Queue, no: nat, end: nat)
    requires no <= end && end !in q && forall k :: no <= k < end ==> k in q
    ensures RunEnd(q, no) == end
  {
    var e := RunEnd(q, no);
    assert e < end ==> e in q;
    assert end < e ==> end in q;
  }
}
