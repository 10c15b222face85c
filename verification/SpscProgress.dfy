/**
 Neither thread ever waits for the other: a push and a pop are answered within a number of own steps that is known
 beforehand, whatever the other thread does in between.
 */
module SpscProgress {
  import opened Prelude
  import opened Spsc
  import opened Machines
  import opened SpscConcurrent

  // ---- The producer ----

  /** How many own steps are left of the push under way. */
  function PushLeft(s: State): int {
    match s.producer
    case Resting => 0
    case Checking(data, _) => |data| + 2
    case Writing(data, _, done) => |data| - done + 1
  }

  /** The step that the producer is at. */
  predicate PushStep(s: State, a: Action) {
    match s.producer
    case Resting => false
    case Checking(_, _) => a.CheckSpace? && s.seenRead <= a.view <= |s.popped|
    case Writing(data, _, done) => if done < |data| then a.CopyInByte? else a.PublishPush?
  }

  predicate PushAnswered(events: seq<Event>) {
    exists e <- events :: e.Pushed? || e.PushRefused?
  }

  /** A push begins with one step for its space, one for every byte and one to publish them, or is refused at once. */
  lemma PushBegins(s: State, data: seq<byte>)
    requires Inv(s) && s.producer.Resting?
    ensures var (s', events) := Next(s, BeginPush(data));
            if |data| > s.cap then s' == s && events == [PushRefused(data)]
            else PushLeft(s') == |data| + 2 && events == [] && s'.producer == Checking(data, s.writePos)
  {
  }

  /** Whenever a push is under way, there is a step to take. */
  lemma PushNeverStuck(s: State) returns (a: Action)
    requires Inv(s) && !s.producer.Resting?
    ensures PushStep(s, a)
  {
    a := match s.producer
         case Checking(_, _) => CheckSpace(|s.popped|)
         case Writing(data, _, done) => if done < |data| then CopyInByte else PublishPush
         case _ => PublishPush;
  }

  /** Own steps bring the answer nearer; nothing else touches a push under way. */
  lemma PushBudget(s: State, a: Action)
    requires Inv(s) && !s.producer.Resting?
    ensures var (s', events) := Next(s, a);
            if PushStep(s, a)
            then if s'.producer.Resting? then PushAnswered(events) else PushLeft(s') == PushLeft(s) - 1
            else s'.producer == s.producer && !PushAnswered(events)
    ensures PushLeft(s) >= 1
  {
    hide Holds, SlotOf, IsCapacity, Masked, Wrapped, WrappingSub, Slot;
    var (s', events) := Next(s, a);
    if s.producer.Writing? && PushStep(s, a) && a.CopyInByte? { WriteSlotIs(s, s.producer.done); }
    assert events != [] ==> events[0] in events;
  }

  /** How many own steps of the push the actions hold. */
  function PushSteps(s: State, actions: seq<Action>): nat {
    if actions == [] then 0
    else
      var front := actions[..|actions| - 1];
      PushSteps(s, front) + (if PushStep(StateAfter(Next, s, front), actions[|actions| - 1]) then 1 else 0)
  }

  /** As long as a push is not answered, every own step counts; so it is answered after at most |data| + 2 of them. */
  lemma {:induction false} PushIsWaitFree(s: State, actions: seq<Action>)
    requires Inv(s) && !s.producer.Resting? && !PushAnswered(OutputOf(Next, s, actions))
    ensures var t := StateAfter(Next, s, actions);
            && Inv(t) && !t.producer.Resting?
            && PushSteps(s, actions) + PushLeft(t) == PushLeft(s) && PushLeft(t) >= 1
  {
    if actions == [] {
      PushBudget(s, PublishPush);
    } else {
      var front, last := actions[..|actions| - 1], actions[|actions| - 1];
      var before, more := OutputOf(Next, s, front), Next(StateAfter(Next, s, front), last).1;
      assert OutputOf(Next, s, actions) == before + more;
      assert forall e <- before :: e in before + more;
      assert forall e <- more :: e in before + more;
      PushIsWaitFree(s, front);
      StepKept(StateAfter(Next, s, front), last);
      PushBudget(StateAfter(Next, s, front), last);
      PushBudget(StateAfter(Next, s, actions), PublishPush);
    }
  }

  // ---- The consumer ----

  function PopLeft(s: State): int {
    match s.consumer
    case Waiting => 0
    case Asking(n, _) => n + 2
    case Reading(n, _, out) => n - |out| + 1
  }

  predicate PopStep(s: State, a: Action) {
    match s.consumer
    case Waiting => false
    case Asking(_, _) => a.CheckData? && s.seenWritten <= a.view <= |s.pushed|
    case Reading(n, _, out) => if |out| < n then a.CopyOutByte? else a.PublishPop?
  }

  predicate PopAnswered(events: seq<Event>) {
    exists e <- events :: e.Popped? || e.PopRefused?
  }

  lemma PopBegins(s: State, n: nat)
    requires Inv(s) && s.consumer.Waiting?
    ensures var (s', events) := Next(s, BeginPop(n));
            PopLeft(s') == n + 2 && events == [] && s'.consumer == Asking(n, s.readPos)
  {
  }

  lemma PopNeverStuck(s: State) returns (a: Action)
    requires Inv(s) && !s.consumer.Waiting?
    ensures PopStep(s, a)
  {
    a := match s.consumer
         case Asking(_, _) => CheckData(|s.pushed|)
         case Reading(n, _, out) => if |out| < n then CopyOutByte else PublishPop
         case _ => PublishPop;
  }

  lemma PopBudget(s: State, a: Action)
    requires Inv(s) && !s.consumer.Waiting?
    ensures var (s', events) := Next(s, a);
            if PopStep(s, a)
            then if s'.consumer.Waiting? then PopAnswered(events) else PopLeft(s') == PopLeft(s) - 1
            else s'.consumer == s.consumer && !PopAnswered(events)
    ensures PopLeft(s) >= 1
  {
    hide Holds, SlotOf, IsCapacity, Masked, Wrapped, WrappingSub, Slot;
    var (s', events) := Next(s, a);
    if s.consumer.Reading? && PopStep(s, a) && a.CopyOutByte? { ReadSlotIs(s, |s.consumer.out|); }
    assert events != [] ==> events[0] in events;
  }

  function PopSteps(s: State, actions: seq<Action>): nat {
    if actions == [] then 0
    else
      var front := actions[..|actions| - 1];
      PopSteps(s, front) + (if PopStep(StateAfter(Next, s, front), actions[|actions| - 1]) then 1 else 0)
  }

  /** The same for a pop of `n` bytes. */
  lemma {:induction false} PopIsWaitFree(s: State, actions: seq<Action>)
    requires Inv(s) && !s.consumer.Waiting? && !PopAnswered(OutputOf(Next, s, actions))
    ensures var t := StateAfter(Next, s, actions);
            && Inv(t) && !t.consumer.Waiting?
            && PopSteps(s, actions) + PopLeft(t) == PopLeft(s) && PopLeft(t) >= 1
  {
    if actions == [] {
      PopBudget(s, PublishPop);
    } else {
      var front, last := actions[..|actions| - 1], actions[|actions| - 1];
      var before, more := OutputOf(Next, s, front), Next(StateAfter(Next, s, front), last).1;
      assert OutputOf(Next, s, actions) == before + more;
      assert forall e <- before :: e in before + more;
      assert forall e <- more :: e in before + more;
      PopIsWaitFree(s, front);
      StepKept(StateAfter(Next, s, front), last);
      PopBudget(StateAfter(Next, s, front), last);
      PopBudget(StateAfter(Next, s, actions), PublishPop);
    }
  }

  // ---- What is answered is what was asked ----

  /** A push that is answered positively was a push of these bytes; the same for the bytes of a pop. */
  lemma AnswersAreAsked(s: State, a: Action)
    requires Inv(s)
    ensures forall e <- Next(s, a).1 ::
              match e
              case Pushed(data) => s.producer.Writing? && s.producer.data == data
              case PushRefused(data) => a == BeginPush(data) || (s.producer.Checking? && s.producer.data == data)
              case Popped(bytes) => s.consumer.Reading? && |bytes| == s.consumer.n
              case PopRefused(n) => s.consumer.Asking? && s.consumer.n == n
  {
    hide Holds, SlotOf, IsCapacity, Masked, Wrapped, WrappingSub, Slot;
  }
}
