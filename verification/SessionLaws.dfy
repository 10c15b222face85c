/**
 What the session machine promises about its runs, told by where it goes instead of where it comes from: how each state
 is entered and what that puts out, what must still happen before it streams, and when its timeouts bite.
 */
module SessionLaws {
  import opened Prelude
  import opened Machines
  import opened Session

  // ---- How each state is entered ----

  /** The steps that enter a state. */
  predicate Entrance(v: View, e: Event, nowMs: u64, to: SessionState) {
    match to
    case Idle => false
    case Discover => v.state.Idle? && e.Discovered?
    case Connect => v.state.Discover? && e.ConnectRequested?
    case Pairing(AwaitingSas) => v.state.Connect? && e.PairingStarted?
    case Pairing(AwaitingConfirm) => v.state == Pairing(AwaitingSas) && e.PairingConfirmed?
    case Negotiating =>
      || (v.state == Pairing(AwaitingConfirm) && e.PairingConfirmed?)
      || (v.state.Paused? && e.WakeEntered?)
      || (v.state.Recovering? && e.LinkBack?)
    case Streaming => (v.state.Negotiating? && e.NegotiationOk?) || (v.state.Paused? && e.StreamResume?)
    case Paused => v.state.Streaming? && (e.StreamPause? || e.SleepEntered?)
    case Renegotiating => v.state.Streaming? && e.ModeChangeRequested? && v.mode == Some("lossless")
    case Recovering => v.state.Streaming? && e.LinkLost?
    case Terminated(reason) =>
      || (reason == "session idle" && v.state.Streaming? && e == Timeout("keepalive")
          && nowMs >= v.lastActivityMs + IDLE_EXPIRY_MS)
      || (reason == "recovery budget exceeded" && v.state.Recovering? && e.RecoveryExhausted?)
    case Error(reason) =>
      || (reason == "SAS rejected" && v.state == Pairing(AwaitingSas) && e.SasRejected?)
      || (reason == "fingerprint mismatch" && v.state.Pairing? && e.FingerprintMismatch?)
      || (reason == "capability mismatch" && v.state.Negotiating? && e.NegotiationMismatch?)
      || (reason == "control timeout" && v.state.Negotiating? && e == Timeout("control_timeout")
          && nowMs >= v.lastActivityMs + CONTROL_RESPONSE_TIMEOUT_MS)
  }

  /** A state is entered by exactly these steps. */
  lemma EnteredExactly(v: View, e: Event, nowMs: u64, to: SessionState)
    ensures Next(v, At(e, nowMs)).0.state == to && v.state != to <==> Entrance(v, e, nowMs, to)
  {
  }

  /** What entering a state puts out, and nothing else puts out anything but `Done` and recovery attempts. */
  lemma EffectsExactly(v: View, e: Event, nowMs: u64)
    ensures var (v', effects) := Next(v, At(e, nowMs));
            var entered := v'.state != v.state;
            && (v'.state.Negotiating? && entered <==> effects == [StartTimer("control_timeout", 5000)])
            && (v'.state == Pairing(AwaitingSas) && entered <==> effects == [StartTimer("pairing", 60000)])
            && (v'.state.Renegotiating? && entered <==> effects == [Renegotiate])
            && (v'.state.Paused? && e.SleepEntered? && entered <==> effects == [CancelTimer("all")])
            && (v'.state.Recovering? && entered <==> effects == [Recover(1, 1500), StartTimer("reconnect", 1500)]
                                                     && !v.state.Recovering?)
            && (forall reason :: effects == [Fatal(reason)] <==>
                  entered && (v'.state == Error(reason) || v'.state == Terminated(reason))
                  && (e.NegotiationMismatch? || e.RecoveryExhausted?))
            && (!entered && !v.state.Recovering? ==> v' == v && effects == [Done])
  {
  }

  // ---- What must still happen ----

  /**
   The events that must come, in this order, before the machine streams; from the empty list it may stream at once.
   */
  function Needed(s: SessionState): seq<Event> {
    match s
    case Idle => [Discovered, ConnectRequested, PairingStarted, PairingConfirmed, PairingConfirmed, NegotiationOk]
    case Discover => [ConnectRequested, PairingStarted, PairingConfirmed, PairingConfirmed, NegotiationOk]
    case Connect => [PairingStarted, PairingConfirmed, PairingConfirmed, NegotiationOk]
    case Pairing(phase) =>
      if phase.AwaitingSas? then [PairingConfirmed, PairingConfirmed, NegotiationOk]
      else [PairingConfirmed, NegotiationOk]
    case Negotiating => [NegotiationOk]
    case Recovering => [LinkBack, NegotiationOk]
    case Streaming => []
    case Paused => []
    case Renegotiating => []
    case Terminated(_) => []
    case Error(_) => []
  }

  /** Every step leaves the list, takes its first event off, or gives up. */
  lemma NeededSteps(v: View, e: Event, nowMs: u64)
    ensures var to := Next(v, At(e, nowMs)).0.state;
            || Needed(v.state) == [] || Absorbing(to)
            || Needed(v.state) == Needed(to) || Needed(v.state) == [e] + Needed(to)
  {
  }

  lemma {:induction false} SubsequenceCons(a: seq<Event>, b: seq<Event>, e: Event)
    requires Subsequence(a, b)
    ensures Subsequence(a, [e] + b) && Subsequence([e] + a, [e] + b)
  {
    var more := [e] + b;
    if b == [] {
      assert more[..0] == [] && ([e] + a)[..0] == [];
      assert [e] + a == [e];
    } else {
      var front, last := b[..|b| - 1], b[|b| - 1];
      assert more[..|more| - 1] == [e] + front && more[|more| - 1] == last;
      if Subsequence(a, front) {
        SubsequenceCons(a, front, e);
      } else {
        SubsequenceCons(a[..|a| - 1], front, e);
        assert ([e] + a)[..|a|] == [e] + a[..|a| - 1];
      }
    }
  }

  lemma {:induction false} EventsCons(first: Input, inputs: seq<Input>)
    ensures Events([first] + inputs) == if first.At? then [first.event] + Events(inputs) else Events(inputs)
  {
    if inputs == [] {
      assert [first] + inputs == [first] && [first][..0] == [];
    } else {
      var front := inputs[..|inputs| - 1];
      EventsCons(first, front);
      assert ([first] + inputs)[..|inputs|] == [first] + front;
    }
  }

  lemma EmptyIsSubsequence(b: seq<Event>)
    ensures Subsequence([], b)
  {
  }

  /** From any state: when the machine streams in the end, what was needed has happened, in order. */
  lemma {:induction false} StreamingNeeds(v: View, inputs: seq<Input>)
    requires StateAfter(Next, v, inputs).state.Streaming?
    ensures !Absorbing(v.state) && Subsequence(Needed(v.state), Events(inputs))
    decreases |inputs|
  {
    if Absorbing(v.state) {
      AbsorbedForever(v, inputs);
    }
    if inputs == [] || Needed(v.state) == [] {
      EmptyIsSubsequence(Events(inputs));
    } else {
      var first, rest := inputs[0], inputs[1..];
      assert inputs == [first] + rest;
      var to := Next(v, first).0;
      RunCons(Next, v, first, rest);
      StreamingNeeds(to, rest);
      EventsCons(first, rest);
      if first.At? {
        NeededSteps(v, first.event, first.nowMs);
        SubsequenceCons(Needed(to.state), Events(rest), first.event);
      }
    }
  }

  /** After a link is lost in streaming, the machine streams again only behind LinkBack and then NegotiationOk. */
  lemma LostLinkRenegotiates(before: seq<Input>, t: u64, later: seq<Input>)
    requires StateAfter(Next, FRESH, before).state.Streaming?
    requires StateAfter(Next, FRESH, before + [At(LinkLost, t)] + later).state.Streaming?
    ensures Subsequence([LinkBack, NegotiationOk], Events(later))
  {
    RunAppend(Next, FRESH, before + [At(LinkLost, t)], later);
    RunSnoc(Next, FRESH, before, At(LinkLost, t));
    StreamingNeeds(StateAfter(Next, FRESH, before + [At(LinkLost, t)]), later);
  }

  /** After waking up from a pause, the machine streams again only behind NegotiationOk. */
  lemma WakeRenegotiates(before: seq<Input>, t: u64, later: seq<Input>)
    requires StateAfter(Next, FRESH, before).state.Paused?
    requires StateAfter(Next, FRESH, before + [At(WakeEntered, t)] + later).state.Streaming?
    ensures Subsequence([NegotiationOk], Events(later))
  {
    RunAppend(Next, FRESH, before + [At(WakeEntered, t)], later);
    RunSnoc(Next, FRESH, before, At(WakeEntered, t));
    StreamingNeeds(StateAfter(Next, FRESH, before + [At(WakeEntered, t)]), later);
  }

  // ---- When timeouts bite ----

  /** The time at which the present state was entered. */
  function EnteredAt(inputs: seq<Input>): u64 {
    if inputs == [] then 0
    else
      var front, last := inputs[..|inputs| - 1], inputs[|inputs| - 1];
      var v := StateAfter(Next, FRESH, front);
      if last.At? && Next(v, last).0.state != v.state then last.nowMs else EnteredAt(front)
  }

  lemma {:induction false} ActivityIsEntry(inputs: seq<Input>)
    ensures StateAfter(Next, FRESH, inputs).lastActivityMs == EnteredAt(inputs)
  {
    if inputs != [] {
      var front, last := inputs[..|inputs| - 1], inputs[|inputs| - 1];
      ActivityIsEntry(front);
      StampMoves(StateAfter(Next, FRESH, front), last);
    }
  }

  lemma StampMoves(v: View, input: Input)
    ensures Next(v, input).0.lastActivityMs ==
              if input.At? && Next(v, input).0.state != v.state then input.nowMs else v.lastActivityMs
  {
  }

  /**
   In every run: a control timeout ends the negotiation exactly when that has lasted 5 s, and a keep-alive timeout
   ends the stream exactly when it has lasted 60 s without a change of state.
   */
  lemma TimeoutsBite(inputs: seq<Input>, nowMs: u64)
    ensures var v := StateAfter(Next, FRESH, inputs);
            && (v.state.Negotiating? ==>
                  (Next(v, At(Timeout("control_timeout"), nowMs)).0.state == Error("control timeout") <==>
                   nowMs >= EnteredAt(inputs) + 5000))
            && (v.state.Streaming? ==>
                  (Next(v, At(Timeout("keepalive"), nowMs)).0.state == Terminated("session idle") <==>
                   nowMs >= EnteredAt(inputs) + 60000))
  {
    ActivityIsEntry(inputs);
  }
}
