/**
 What the network may do to a numbered sequence of frames, in terms of the numbers in order of arrival alone: how
 far ahead an arrival may run, and how many arrivals may have to wait for an earlier number.
 */
module ArrivalOrder {
  import opened JitterRuns

  /** The first number from `no` on that is not in the list. */
  function Missing(order: seq<nat>, no: nat): (m: nat)
    ensures m >= no && m !in order && forall x :: no <= x < m ==> x in order
    decreases UpFrom(order, no)
  {
    if no in order then
      assert no in UpFrom(order, no) && no !in UpFrom(order, no + 1);
      Missing(order, no + 1)
    else no
  }

  function UpFrom(order: seq<nat>, no: nat): set<nat> {
    set x | x in order && x >= no
  }

  lemma MissingUnique(order: seq<nat>, no: nat, m: nat)
    requires no <= m && m !in order && forall x :: no <= x < m ==> x in order
    ensures Missing(order, no) == m
  {
    var e := Missing(order, no);
    assert e < m ==> e in order;
    assert m < e ==> m in order;
  }

  /** The numbers that have arrived although an earlier one, from the first arrival's on, has not. */
  function Waiting(order: seq<nat>): set<nat> {
    if order == [] then {} else set x | x in order && x > Missing(order, order[0])
  }

  /** Everything more than `window` behind arrival `i`, back to the first number, has arrived before it. */
  ghost predicate Timely(window: nat, order: seq<nat>, i: nat)
    requires i < |order|
  {
    && order[i] >= order[0]
    && forall x :: order[0] <= x && x + window < order[i] ==> x in order[..i]
  }

  /** A number that arrives for the first time finds fewer than `cap` others waiting, or none at all. */
  predicate HasRoom(cap: nat, order: seq<nat>, i: nat)
    requires i < |order|
  {
    order[i] in order[..i] || Waiting(order[..i]) == {} || |Waiting(order[..i])| < cap
  }

  /** No arrival runs ahead of the reorder window. */
  ghost predicate BoundedReorder(window: nat, order: seq<nat>) {
    forall i :: 0 <= i < |order| ==> Timely(window, order, i)
  }

  /** Every arrival has room. */
  ghost predicate Roomy(cap: nat, order: seq<nat>) {
    forall i :: 0 <= i < |order| ==> HasRoom(cap, order, i)
  }

  /** The orderliness asked of the network. */
  ghost predicate Orderly(window: nat, cap: nat, order: seq<nat>) {
    BoundedReorder(window, order) && Roomy(cap, order)
  }

  lemma StepInPrefix(window: nat, cap: nat, order: seq<nat>, n: nat, i: nat)
    requires i < n <= |order|
    ensures Timely(window, order[..n], i) <==> Timely(window, order, i)
    ensures HasRoom(cap, order[..n], i) <==> HasRoom(cap, order, i)
  {
    assert order[..n][..i] == order[..i];
  }

  lemma OrderlyPrefix(window: nat, cap: nat, order: seq<nat>, n: nat)
    requires Orderly(window, cap, order) && n <= |order|
    ensures Orderly(window, cap, order[..n])
  {
    forall i | 0 <= i < n ensures Timely(window, order[..n], i) && HasRoom(cap, order[..n], i) {
      StepInPrefix(window, cap, order, n, i);
    }
  }

  /** The longest orderly start of a disorderly sequence. */
  lemma {:induction false} FirstViolation(window: nat, cap: nat, order: seq<nat>) returns (n: nat)
    requires !Orderly(window, cap, order)
    ensures n < |order| && Orderly(window, cap, order[..n])
    ensures !Timely(window, order, n) || !HasRoom(cap, order, n)
  {
    var front := order[..|order| - 1];
    if Orderly(window, cap, front) {
      n := |order| - 1;
      var i :| 0 <= i < |order| && !(Timely(window, order, i) && HasRoom(cap, order, i));
      if i < |front| { StepInPrefix(window, cap, order, |front|, i); }
    } else {
      n := FirstViolation(window, cap, front);
      assert front[..n] == order[..n];
      StepInPrefix(window, cap, order, |front|, n);
    }
  }

  /** What waits lies within one window of the missing number. */
  lemma WaitingWithin(window: nat, order: seq<nat>)
    requires BoundedReorder(window, order)
    ensures |Waiting(order)| <= window
  {
    if order != [] {
      var m := Missing(order, order[0]);
      forall x | x in Waiting(order) ensures m < x <= m + window {
        var j :| 0 <= j < |order| && order[j] == x;
        assert Timely(window, order, j);
        assert m !in order[..j];
      }
      AheadSize(Waiting(order), m, window);
    }
  }

  /** A capacity above the window is room enough for whatever stays within the window. */
  lemma WindowIsRoom(window: nat, cap: nat, order: seq<nat>)
    requires window < cap && BoundedReorder(window, order)
    ensures Roomy(cap, order)
  {
    forall i | 0 <= i < |order| ensures HasRoom(cap, order, i) {
      forall j | 0 <= j < i ensures Timely(window, order[..i], j) { StepInPrefix(window, cap, order, i, j); }
      WaitingWithin(window, order[..i]);
    }
  }

  /** The missing number arrives when the whole window behind it waits already. */
  predicate ComesLast(window: nat, order: seq<nat>, i: nat)
    requires 0 < i < |order|
  {
    var m := Missing(order[..i], order[0]);
    order[i] == m && forall x :: m < x <= m + window ==> x in order[..i]
  }

  /**
   With a capacity of exactly one window, an arrival lacks room exactly when it is the missing number itself and the
   whole window behind it waits already.
   */
  lemma FullWindowLacksRoom(window: nat, order: seq<nat>, i: nat)
    requires window > 0 && BoundedReorder(window, order) && 0 < i < |order|
    ensures !HasRoom(window, order, i) <==> ComesLast(window, order, i)
  {
    var front := order[..i];
    var m := Missing(front, order[0]);
    forall j | 0 <= j < i ensures Timely(window, front, j) { StepInPrefix(window, window, order, i, j); }
    FullWindow(window, front);
    assert Timely(window, order, i);
    assert m !in front;
  }

  lemma FullWindow(window: nat, order: seq<nat>)
    requires order != [] && BoundedReorder(window, order)
    ensures var m := Missing(order, order[0]);
            |Waiting(order)| >= window <==> forall x :: m < x <= m + window ==> x in order
  {
    var m := Missing(order, order[0]);
    var all := Range(m + 1, m + window + 1);
    forall x | x in Waiting(order) ensures x in all {
      var j :| 0 <= j < |order| && order[j] == x;
      assert Timely(window, order, j);
      assert m !in order[..j];
    }
    RangeSize(m + 1, m + window + 1);
    SubsetSize(Waiting(order), all);
    if |Waiting(order)| >= window {
      SameSizeSubset(Waiting(order), all);
      forall x | m < x <= m + window ensures x in order { assert x in all; }
    } else {
      assert Waiting(order) != all;
      var x :| x in all && x !in Waiting(order);
      assert x !in order;
    }
  }

  function InSequence(n: nat): (order: seq<nat>)
    ensures |order| == n
  {
    seq(n, i => i)
  }

  /** Frames that arrive as they were sent ask for no window and no room. */
  lemma InSequenceIsOrderly(window: nat, cap: nat, n: nat)
    ensures Orderly(window, cap, InSequence(n))
  {
    var order := InSequence(n);
    forall i | 0 <= i < n ensures Timely(window, order, i) && HasRoom(cap, order, i) {
      var front := order[..i];
      forall x | 0 <= x < i ensures x in front { assert front[x] == x; }
      if i > 0 { MissingUnique(front, 0, i); }
    }
  }

  // ---- Repeated arrivals ----

  /** The first arrival of every number, in order of arrival. */
  function Firsts(order: seq<nat>): seq<nat> {
    if order == [] then []
    else
      var front, last := Firsts(order[..|order| - 1]), order[|order| - 1];
      if last in order[..|order| - 1] then front else front + [last]
  }

  lemma {:induction false} FirstsShape(order: seq<nat>)
    ensures forall x :: x in Firsts(order) <==> x in order
    ensures order != [] ==> Firsts(order) != [] && Firsts(order)[0] == order[0]
    ensures |Firsts(order)| <= |order|
  {
    if order != [] {
      var front, last := order[..|order| - 1], order[|order| - 1];
      FirstsShape(front);
      FirstsSnoc(front, last);
      assert order == front + [last];
    }
  }

  lemma FirstsSnoc(front: seq<nat>, last: nat)
    requires forall x :: x in Firsts(front) <==> x in front
    requires front != [] ==> Firsts(front) != [] && Firsts(front)[0] == front[0]
    ensures var order := front + [last];
            && Firsts(order) == (if last in front then Firsts(front) else Firsts(front) + [last])
            && (forall x :: x in Firsts(order) <==> x in order)
            && Firsts(order)[0] == order[0]
  {
    assert (front + [last])[..|front|] == front;
  }

  /** Missing and waiting numbers depend on which numbers arrived and on the first of them only. */
  lemma SameWaiting(a: seq<nat>, b: seq<nat>)
    requires a != [] && b != [] && a[0] == b[0] && forall x :: x in a <==> x in b
    ensures Missing(a, a[0]) == Missing(b, b[0]) && Waiting(a) == Waiting(b)
  {
    MissingUnique(b, b[0], Missing(a, a[0]));
  }

  lemma OrderlySnoc(window: nat, cap: nat, front: seq<nat>, last: nat)
    ensures Orderly(window, cap, front + [last]) <==>
              && Orderly(window, cap, front)
              && Timely(window, front + [last], |front|) && HasRoom(cap, front + [last], |front|)
  {
    var order := front + [last];
    assert order[..|front|] == front;
    forall i | 0 <= i < |front|
      ensures Timely(window, front, i) <==> Timely(window, order, i)
      ensures HasRoom(cap, front, i) <==> HasRoom(cap, order, i)
    {
      StepInPrefix(window, cap, order, |front|, i);
    }
    if Orderly(window, cap, order) { OrderlyPrefix(window, cap, order, |front|); }
    if Orderly(window, cap, front) && Timely(window, order, |front|) && HasRoom(cap, order, |front|) {
      forall i | 0 <= i < |order| ensures Timely(window, order, i) && HasRoom(cap, order, i) {
        assert i < |front| ==> Timely(window, front, i) && HasRoom(cap, front, i);
      }
    }
  }

  /** Repeated arrivals change nothing about what is asked of the network. */
  lemma {:induction false} FirstsOrderly(window: nat, cap: nat, order: seq<nat>)
    ensures Orderly(window, cap, Firsts(order)) <==> Orderly(window, cap, order)
  {
    if order != [] {
      var front, last := order[..|order| - 1], order[|order| - 1];
      assert order == front + [last];
      FirstsOrderly(window, cap, front);
      OrderlySnoc(window, cap, front, last);
      FirstsShape(front);
      if last in front {
        if Orderly(window, cap, front) { RepeatIsOrderly(window, cap, front, last); }
      } else if front != [] {
        OrderlySnoc(window, cap, Firsts(front), last);
        SameStep(window, cap, front, Firsts(front), last);
      }
    }
  }

  lemma RepeatIsOrderly(window: nat, cap: nat, front: seq<nat>, last: nat)
    requires Orderly(window, cap, front) && last in front
    ensures Timely(window, front + [last], |front|) && HasRoom(cap, front + [last], |front|)
  {
    var order := front + [last];
    assert order[..|front|] == front;
    var j :| 0 <= j < |front| && front[j] == last;
    assert Timely(window, front, j);
    forall x | order[0] <= x && x + window < last ensures x in front { assert x in front[..j]; }
  }

  lemma SameStep(window: nat, cap: nat, a: seq<nat>, b: seq<nat>, last: nat)
    requires a != [] && b != [] && a[0] == b[0] && forall x :: x in a <==> x in b
    ensures Timely(window, a + [last], |a|) <==> Timely(window, b + [last], |b|)
    ensures HasRoom(cap, a + [last], |a|) <==> HasRoom(cap, b + [last], |b|)
  {
    hide Waiting, Missing;
    SameWaiting(a, b);
    assert (a + [last])[..|a|] == a && (b + [last])[..|b|] == b;
  }

  // ---- How repeated arrivals are counted ----

  /** A repeated number more than a window behind the missing one. */
  predicate Stale(window: nat, order: seq<nat>, i: nat)
    requires i < |order|
  {
    order[i] in order[..i] && order[i] + window < Missing(order[..i], order[0])
  }

  function StaleRepeats(window: nat, order: seq<nat>): nat {
    if order == [] then 0
    else StaleRepeats(window, order[..|order| - 1]) + (if Stale(window, order, |order| - 1) then 1 else 0)
  }

  /** All other repeated arrivals. */
  function NearRepeats(window: nat, order: seq<nat>): nat {
    if order == [] then 0
    else
      var n := |order| - 1;
      NearRepeats(window, order[..n]) + (if order[n] in order[..n] && !Stale(window, order, n) then 1 else 0)
  }

  function Arrived(order: seq<nat>): set<nat> {
    set x | x in order
  }

  lemma ArrivedSnoc(front: seq<nat>, last: nat)
    ensures Arrived(front + [last]) == Arrived(front) + {last}
    ensures |Arrived(front + [last])| == |Arrived(front)| + (if last in front then 0 else 1)
  {
    assert Arrived(front + [last]) == Arrived(front) + {last};
    assert last in front ==> Arrived(front) + {last} == Arrived(front);
  }

  /** Together they are the arrivals minus the distinct numbers. */
  lemma {:induction false} RepeatsAddUp(window: nat, order: seq<nat>)
    ensures StaleRepeats(window, order) + NearRepeats(window, order) + |Arrived(order)| == |order|
  {
    if order != [] {
      var front, last := order[..|order| - 1], order[|order| - 1];
      RepeatsAddUp(window, front);
      ArrivedSnoc(front, last);
      assert order == front + [last];
      assert Stale(window, order, |front|) ==> last in front;
    }
  }

  /** Nothing is counted stale exactly when no repeated number lags more than a window behind. */
  lemma {:induction false} NoStaleRepeats(window: nat, order: seq<nat>)
    ensures StaleRepeats(window, order) == 0 <==> forall i | 0 <= i < |order| :: !Stale(window, order, i)
  {
    if order != [] {
      var front := order[..|order| - 1];
      NoStaleRepeats(window, front);
      forall i | 0 <= i < |front| ensures Stale(window, front, i) <==> Stale(window, order, i) {
        assert front[..i] == order[..i];
      }
      assert Stale(window, order, |front|) || forall i | 0 <= i < |order| :: i < |front| || !Stale(window, order, i);
    }
  }

  /** A well-ordered run on which a repeat is counted late: frames 0 to w + 1 in sequence, and then 0 again. */
  lemma RepeatCountedLate(w: nat, cap: nat)
    ensures var order := InSequence(w + 2) + [0];
            Orderly(w, cap, order) && StaleRepeats(w, order) == 1 && NearRepeats(w, order) == 0
  {
    var front := InSequence(w + 2);
    var order := front + [0];
    assert front[0] == 0 && order[..w + 2] == front;
    InSequenceIsOrderly(w, cap, w + 2);
    RepeatIsOrderly(w, cap, front, 0);
    OrderlySnoc(w, cap, front, 0);
    forall i | 0 <= i < w + 2 ensures front[i] !in front[..i] {
      forall j | 0 <= j < i ensures front[..i][j] != front[i] { assert front[j] == j; }
    }
    NothingRepeated(w, front);
    forall x: nat | x < w + 2 ensures x in front { assert front[x] == x; }
    MissingUnique(front, 0, w + 2);
    assert Stale(w, order, w + 2);
  }

  lemma {:induction false} NothingRepeated(window: nat, order: seq<nat>)
    requires forall i | 0 <= i < |order| :: order[i] !in order[..i]
    ensures StaleRepeats(window, order) == 0 && NearRepeats(window, order) == 0
  {
    if order != [] {
      var front := order[..|order| - 1];
      forall i | 0 <= i < |front| ensures front[i] !in front[..i] { assert front[..i] == order[..i]; }
      NothingRepeated(window, front);
    }
  }
}
