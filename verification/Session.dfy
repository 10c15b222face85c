/**
 The session machine: a clock-injected transition function from discovery to streaming, with recovery by a bounded
 backoff. The field `mode` is public in the original, so a run may set it between events.
 */
module Session {
  import opened Prelude
  import opened Machines

  datatype PairingPhase = AwaitingSas | AwaitingConfirm

  datatype SessionState =
    | Idle | Discover | Connect | Pairing(phase: PairingPhase) | Negotiating | Streaming | Paused | Renegotiating
    | Recovering | Terminated(reason: string) | Error(reason: string)

  datatype Event =
    | Discovered | ConnectRequested | PairingStarted | SasRejected | PairingConfirmed | FingerprintMismatch
    | NegotiationOk | NegotiationMismatch | StreamStart | StreamPause | StreamResume | StreamStop
    | ModeChangeRequested | RouteChanged | LinkLost | LinkBack | SleepEntered | WakeEntered | ForgetPeers
    | Timeout(timer: string) | RecoveryExhausted

  datatype Effect =
    | Emit(frame: string) | StartTimer(timer: string, ms: u64) | CancelTimer(timer: string) | Renegotiate
    | Recover(attempt: nat, nextMs: u64) | Fatal(reason: string) | Done

  const CONTROL_RESPONSE_TIMEOUT_MS: u64 := 5000
  const RECONNECT_CAP_MS: u64 := 30000
  const IDLE_EXPIRY_MS: u64 := 60000
  const INITIAL_RECONNECT_MS: u64 := 1500
  const PAIRING_WINDOW_MS: u64 := 60000

  function SaturatingMul(a: u64, b: u64): u64 {
    Min(a * b, U64_LIMIT - 1)
  }

  /** Half as much again, without the cap. */
  function Longer(prev: u64): u64 {
    SaturatingMul(prev, 3) / 2
  }

  function NextBackoff(prev: u64): u64 {
    Min(Longer(prev), RECONNECT_CAP_MS)
  }

  function Since(nowMs: u64, then_: u64): u64 {
    if nowMs >= then_ then nowMs - then_ else 0
  }

  /** The fields of a session that its transitions depend on. */
  datatype View = View(
    state: SessionState, mode: Option<string>, lastActivityMs: u64, attempt: nat, lastReconnectMs: u64)

  const FRESH := View(Idle, None, 0, 0, 0)

  datatype Input = At(event: Event, nowMs: u64) | SetMode(mode: Option<string>)

  function Entered(v: View, next: SessionState, nowMs: u64): View {
    if next.Recovering?
    then v.(state := next, lastActivityMs := nowMs, attempt := 1, lastReconnectMs := INITIAL_RECONNECT_MS)
    else v.(state := next, lastActivityMs := nowMs)
  }

  function ControlTimer(): Effect {
    StartTimer("control_timeout", CONTROL_RESPONSE_TIMEOUT_MS)
  }

  /** Where an event leads and what it puts out; None: nothing changes. */
  function Transition(v: View, e: Event, nowMs: u64): Option<(SessionState, seq<Effect>)> {
    match v.state
    case Idle => if e.Discovered? then Some((Discover, [Done])) else None
    case Discover => if e.ConnectRequested? then Some((Connect, [Done])) else None
    case Connect =>
      if e.PairingStarted? then Some((Pairing(AwaitingSas), [StartTimer("pairing", PAIRING_WINDOW_MS)])) else None
    case Pairing(phase) =>
      if phase.AwaitingSas? && e.SasRejected? then Some((Error("SAS rejected"), [Done]))
      else if phase.AwaitingSas? && e.PairingConfirmed? then Some((Pairing(AwaitingConfirm), [Done]))
      else if phase.AwaitingConfirm? && e.PairingConfirmed? then Some((Negotiating, [ControlTimer()]))
      else if e.FingerprintMismatch? then Some((Error("fingerprint mismatch"), [Done]))
      else None
    case Negotiating =>
      if e.NegotiationOk? then Some((Streaming, [Done]))
      else if e.NegotiationMismatch? then Some((Error("capability mismatch"), [Fatal("capability mismatch")]))
      else if e == Timeout("control_timeout") && Since(nowMs, v.lastActivityMs) >= CONTROL_RESPONSE_TIMEOUT_MS
      then Some((Error("control timeout"), [Done]))
      else None
    case Streaming =>
      if e.StreamPause? then Some((Paused, [Done]))
      else if e.ModeChangeRequested? && v.mode == Some("lossless") then Some((Renegotiating, [Renegotiate]))
      else if e.SleepEntered? then Some((Paused, [CancelTimer("all")]))
      else if e.LinkLost? then
        Some((Recovering, [Recover(1, INITIAL_RECONNECT_MS), StartTimer("reconnect", INITIAL_RECONNECT_MS)]))
      else if e == Timeout("keepalive") && Since(nowMs, v.lastActivityMs) >= IDLE_EXPIRY_MS
      then Some((Terminated("session idle"), [Done]))
      else None
    case Paused =>
      if e.StreamResume? then Some((Streaming, [Done]))
      else if e.WakeEntered? then Some((Negotiating, [ControlTimer()]))
      else None
    case Recovering =>
      if e.LinkBack? then Some((Negotiating, [ControlTimer()]))
      else if e.RecoveryExhausted?
      then Some((Terminated("recovery budget exceeded"), [Fatal("recovery budget exceeded")]))
      else None
    case Renegotiating => None
    case Terminated(_) => None
    case Error(_) => None
  }

  /** A reconnect timer that fires while recovering: one more attempt, unless the capped delay was used already. */
  function Retried(v: View): (View, seq<Effect>) {
    var prev := v.lastReconnectMs;
    if Longer(prev) > RECONNECT_CAP_MS && prev >= RECONNECT_CAP_MS then (v, [Done])
    else
      var ms := NextBackoff(prev);
      (v.(attempt := v.attempt + 1, lastReconnectMs := ms), [Recover(v.attempt + 1, ms), StartTimer("reconnect", ms)])
  }

  function Next(v: View, input: Input): (View, seq<Effect>) {
    match input
    case SetMode(mode) => (v.(mode := mode), [])
    case At(e, nowMs) =>
      if v.state.Recovering? && e == Timeout("reconnect") then Retried(v)
      else
        match Transition(v, e, nowMs)
        case None => (v, [Done])
        case Some((next, effects)) => (Entered(v, next, nowMs), effects)
  }

  // ---- The machine, updated in place ----

  class Session {
    var state: SessionState
    var mode: Option<string>
    var lastActivityMs: u64
    var attempt: nat
    var lastReconnectMs: u64

    function Fields(): View
      reads this
    {
      View(state, mode, lastActivityMs, attempt, lastReconnectMs)
    }

    constructor ()
      ensures Fields() == FRESH
    {
      state, mode, lastActivityMs, attempt, lastReconnectMs := Idle, None, 0, 0, 0;
    }

    method Advance(e: Event, nowMs: u64) returns (effects: seq<Effect>)
      modifies this
      ensures (Fields(), effects) == Next(old(Fields()), At(e, nowMs))
    {
      if state.Recovering? && e == Timeout("reconnect") {
        effects := Retry();
        return;
      }
      match Transition(Fields(), e, nowMs) {
        case None => return [Done];
        case Some((next, out)) =>
          TransitionTo(next, nowMs);
          return out;
      }
    }

    method Retry() returns (effects: seq<Effect>)
      modifies this`attempt, this`lastReconnectMs
      ensures (Fields(), effects) == Retried(old(Fields()))
    {
      var prev := lastReconnectMs;
      var raw := Longer(prev);
      if raw > RECONNECT_CAP_MS {
        if prev >= RECONNECT_CAP_MS {
          return [Done];
        }
        attempt := attempt + 1;
        lastReconnectMs := RECONNECT_CAP_MS;
        return [Recover(attempt, RECONNECT_CAP_MS), StartTimer("reconnect", RECONNECT_CAP_MS)];
      }
      attempt := attempt + 1;
      lastReconnectMs := raw;
      return [Recover(attempt, raw), StartTimer("reconnect", raw)];
    }

    /** Entering recovery starts a new backoff. */
    method TransitionTo(next: SessionState, nowMs: u64)
      modifies this
      ensures Fields() == Entered(old(Fields()), next, nowMs)
    {
      state := next;
      lastActivityMs := nowMs;
      if state.Recovering? {
        attempt := 1;
        lastReconnectMs := INITIAL_RECONNECT_MS;
      }
    }
  }

  // ---- No streaming without the whole handshake ----

  const REQUIRED: seq<Event> :=
    [Discovered, ConnectRequested, PairingStarted, PairingConfirmed, PairingConfirmed, NegotiationOk]

  function Events(inputs: seq<Input>): seq<Event> {
    if inputs == [] then []
    else
      var front, last := Events(inputs[..|inputs| - 1]), inputs[|inputs| - 1];
      if last.At? then front + [last.event] else front
  }

  /** `a` is what remains of `b` when some events are left out. */
  ghost predicate Subsequence(a: seq<Event>, b: seq<Event>) {
    if a == [] then true
    else if b == [] then false
    else
      var front, last := b[..|b| - 1], b[|b| - 1];
      Subsequence(a, front) || (a[|a| - 1] == last && Subsequence(a[..|a| - 1], front))
  }

  /** How many of the required events must have been seen to be in a state. */
  function Stage(s: SessionState): nat {
    match s
    case Idle => 0
    case Discover => 1
    case Connect => 2
    case Pairing(phase) => if phase.AwaitingSas? then 3 else 4
    case Negotiating => 5
    case Streaming => 6
    case Paused => 6
    case Renegotiating => 6
    case Recovering => 6
    case Terminated(_) => 6
    case Error(_) => 0
  }

  lemma {:induction false} ShorterSubsequence(a: seq<Event>, b: seq<Event>, k: nat)
    requires Subsequence(a, b) && k <= |a|
    ensures Subsequence(a[..k], b)
  {
    if k == |a| {
      assert a[..k] == a;
    } else {
      var front := b[..|b| - 1];
      if Subsequence(a, front) {
        ShorterSubsequence(a, front, k);
      } else {
        ShorterSubsequence(a[..|a| - 1], front, k);
        assert a[..|a| - 1][..k] == a[..k];
      }
    }
  }

  lemma SubsequenceSnoc(a: seq<Event>, b: seq<Event>, e: Event)
    requires Subsequence(a, b)
    ensures Subsequence(a, b + [e]) && Subsequence(a + [e], b + [e])
  {
    assert (b + [e])[..|b|] == b && (a + [e])[..|a|] == a;
  }

  /** The state a step leads to needs at most the next required event more than the state it leaves. */
  lemma StageSteps(v: View, e: Event, nowMs: u64)
    ensures var to := Next(v, At(e, nowMs)).0.state;
            Stage(to) <= Stage(v.state) || (Stage(to) == Stage(v.state) + 1 && e == REQUIRED[Stage(v.state)])
  {
  }

  lemma {:induction false} StageReached(inputs: seq<Input>)
    ensures Subsequence(REQUIRED[..Stage(StateAfter(Next, FRESH, inputs).state)], Events(inputs))
  {
    if inputs != [] {
      var front, last := inputs[..|inputs| - 1], inputs[|inputs| - 1];
      StageReached(front);
      var v := StateAfter(Next, FRESH, front);
      if last.At? {
        var from, to := Stage(v.state), Stage(Next(v, last).0.state);
        StageSteps(v, last.event, last.nowMs);
        SubsequenceSnoc(REQUIRED[..from], Events(front), last.event);
        if to <= from {
          ShorterSubsequence(REQUIRED[..from], Events(inputs), to);
          assert REQUIRED[..from][..to] == REQUIRED[..to];
        } else {
          assert REQUIRED[..to] == REQUIRED[..from] + [last.event];
        }
      }
    }
  }

  /** Whatever the events, their order and their times: streaming needs the whole handshake, in this order. */
  lemma StreamingNeedsHandshake(inputs: seq<Input>)
    requires StateAfter(Next, FRESH, inputs).state.Streaming?
    ensures Subsequence(REQUIRED, Events(inputs))
  {
    StageReached(inputs);
    assert REQUIRED[..6] == REQUIRED;
  }

  // ---- Absorbing states ----

  predicate Absorbing(s: SessionState) {
    s.Terminated? || s.Error? || s.Renegotiating?
  }

  /** Exactly these states are never left, by any event at any time. */
  lemma AbsorbingExactly(v: View)
    ensures (forall input: Input :: Next(v, input).0.state == v.state) <==> Absorbing(v.state)
  {
    var t := v.lastActivityMs;
    if !Absorbing(v.state) {
      var way := match v.state
                 case Idle => Discovered
                 case Discover => ConnectRequested
                 case Connect => PairingStarted
                 case Pairing(_) => FingerprintMismatch
                 case Negotiating => NegotiationOk
                 case Streaming => StreamPause
                 case Paused => StreamResume
                 case _ => LinkBack;
      assert Next(v, At(way, t)).0.state != v.state;
    }
  }

  lemma {:induction false} AbsorbedForever(v: View, inputs: seq<Input>)
    requires Absorbing(v.state)
    ensures StateAfter(Next, v, inputs).state == v.state
  {
    if inputs != [] {
      var front := inputs[..|inputs| - 1];
      AbsorbedForever(v, front);
      AbsorbingExactly(StateAfter(Next, v, front));
    }
  }

  // ---- Recovery episodes ----

  /** The `n`-fold backoff of the first delay. */
  function Backoff(n: nat): (ms: u64)
    ensures INITIAL_RECONNECT_MS <= ms <= RECONNECT_CAP_MS
  {
    if n == 0 then INITIAL_RECONNECT_MS else NextBackoff(Backoff(n - 1))
  }

  /** The delays never shrink, and reach the cap with the ninth attempt. */
  lemma {:induction false} BackoffShape(n: nat)
    ensures Backoff(n) <= Backoff(n + 1)
    ensures Backoff(n) == RECONNECT_CAP_MS <==> n >= 8
  {
    if n <= 8 {
      assert Backoff(1) == 2250 && Backoff(2) == 3375 && Backoff(3) == 5062 && Backoff(4) == 7593;
      assert Backoff(5) == 11389 && Backoff(6) == 17083 && Backoff(7) == 25624 && Backoff(8) == 30000;
    } else {
      BackoffShape(n - 1);
    }
  }

  /** The recovery attempts announced, in order. */
  function Recoveries(effects: seq<Effect>): (rs: seq<Effect>)
    ensures forall r <- rs :: r.Recover?
  {
    if effects == [] then []
    else
      var front, last := Recoveries(effects[..|effects| - 1]), effects[|effects| - 1];
      if last.Recover? then front + [last] else front
  }

  lemma {:induction false} RecoveriesAppend(a: seq<Effect>, b: seq<Effect>)
    ensures Recoveries(a + b) == Recoveries(a) + Recoveries(b)
  {
    if b == [] {
      assert a + b == a;
    } else {
      RecoveriesAppend(a, b[..|b| - 1]);
      assert (a + b)[..|a + b| - 1] == a + b[..|b| - 1];
    }
  }

  /** Attempts count up from one, at most to nine, each with its own delay; a new episode starts at one again. */
  predicate InEpisodes(rs: seq<Effect>) {
    forall i :: 0 <= i < |rs| ==> Announced(rs, i)
  }

  predicate Announced(rs: seq<Effect>, i: nat)
    requires i < |rs|
  {
    && rs[i].Recover? && 1 <= rs[i].attempt <= 9 && rs[i].nextMs == Backoff(rs[i].attempt - 1)
    && (rs[i].attempt == 1 || (i > 0 && rs[i - 1].Recover? && rs[i].attempt == rs[i - 1].attempt + 1))
  }

  predicate EpisodesKept(v: View, rs: seq<Effect>) {
    && InEpisodes(rs)
    && (v.state.Recovering? ==>
          && rs != [] && rs[|rs| - 1].Recover? && rs[|rs| - 1].attempt == v.attempt
          && 1 <= v.attempt <= 9 && v.lastReconnectMs == Backoff(v.attempt - 1))
  }

  /** One more announcement: the first of an episode, or the next after the last one. */
  lemma OneMoreAttempt(rs: seq<Effect>, a: nat)
    requires InEpisodes(rs) && 1 <= a <= 9
    requires a == 1 || (rs != [] && rs[|rs| - 1].Recover? && rs[|rs| - 1].attempt == a - 1)
    ensures InEpisodes(rs + [Recover(a, Backoff(a - 1))])
  {
    hide Backoff;
    var rs' := rs + [Recover(a, Backoff(a - 1))];
    forall i | 0 <= i < |rs'| ensures Announced(rs', i) {
      if i < |rs| {
        assert Announced(rs, i);
      } else if a > 1 {
        assert Announced(rs, |rs| - 1) && rs'[i - 1] == rs[|rs| - 1];
      }
    }
  }

  lemma RetryAnnounces(v: View)
    requires 1 <= v.attempt <= 9 && v.lastReconnectMs == Backoff(v.attempt - 1)
    ensures if v.attempt < 9
            then var ms := Backoff(v.attempt);
                 Retried(v) == (v.(attempt := v.attempt + 1, lastReconnectMs := ms),
                                [Recover(v.attempt + 1, ms), StartTimer("reconnect", ms)])
            else Retried(v) == (v, [Done])
  {
    BackoffShape(v.attempt - 1);
  }

  lemma RecoveriesOfTwo(e: Effect, f: Effect)
    requires e.Recover? && !f.Recover?
    ensures Recoveries([e, f]) == [e]
  {
    assert [e, f][..1] == [e] && [e][..0] == [];
    assert Recoveries([e]) == [] + [e];
  }

  lemma RecoveriesOfOne(e: Effect)
    requires !e.Recover?
    ensures Recoveries([e]) == []
  {
    assert [e][..0] == [];
  }

  lemma RetryKept(v: View, rs: seq<Effect>)
    requires v.state.Recovering? && EpisodesKept(v, rs)
    ensures EpisodesKept(Retried(v).0, rs + Recoveries(Retried(v).1))
  {
    hide Backoff, InEpisodes, Recoveries, Retried;
    RetryAnnounces(v);
    if v.attempt < 9 {
      var ms := Backoff(v.attempt);
      OneMoreAttempt(rs, v.attempt + 1);
      RecoveriesOfTwo(Recover(v.attempt + 1, ms), StartTimer("reconnect", ms));
    } else {
      RecoveriesOfOne(Done);
      assert rs + [] == rs;
    }
  }

  /** A step other than a retry: it starts an episode, or announces nothing. */
  lemma TransitionKept(v: View, rs: seq<Effect>, e: Event, nowMs: u64)
    requires EpisodesKept(v, rs) && !(v.state.Recovering? && e == Timeout("reconnect"))
    ensures EpisodesKept(Next(v, At(e, nowMs)).0, rs + Recoveries(Next(v, At(e, nowMs)).1))
  {
    hide InEpisodes, Recoveries, Retried;
    var effects := Next(v, At(e, nowMs)).1;
    if v.state.Streaming? && e.LinkLost? {
      OneMoreAttempt(rs, 1);
      assert effects == [Recover(1, Backoff(0)), StartTimer("reconnect", INITIAL_RECONNECT_MS)];
      RecoveriesOfTwo(effects[0], effects[1]);
    } else {
      assert effects == [effects[0]] && !effects[0].Recover?;
      RecoveriesOfOne(effects[0]);
      assert rs + [] == rs;
    }
  }

  lemma StepKept(v: View, rs: seq<Effect>, input: Input)
    requires EpisodesKept(v, rs)
    ensures EpisodesKept(Next(v, input).0, rs + Recoveries(Next(v, input).1))
  {
    if input.SetMode? {
      assert rs + [] == rs;
    } else if v.state.Recovering? && input.event == Timeout("reconnect") {
      RetryKept(v, rs);
    } else {
      TransitionKept(v, rs, input.event, input.nowMs);
    }
  }

  /** In every run, every recovery episode announces attempts 1, 2, and so on up to at most 9, with their delays. */
  lemma {:induction false} RecoveriesInEpisodes(inputs: seq<Input>)
    ensures EpisodesKept(StateAfter(Next, FRESH, inputs), Recoveries(OutputOf(Next, FRESH, inputs)))
  {
    if inputs != [] {
      var front, last := inputs[..|inputs| - 1], inputs[|inputs| - 1];
      RecoveriesInEpisodes(front);
      var v := StateAfter(Next, FRESH, front);
      StepKept(v, Recoveries(OutputOf(Next, FRESH, front)), last);
      RecoveriesAppend(OutputOf(Next, FRESH, front), Next(v, last).1);
    }
  }

  /** Within an episode the announced delays never shrink and stay within the cap. */
  lemma DelaysGrow(rs: seq<Effect>, i: nat)
    requires InEpisodes(rs) && i + 1 < |rs|
    ensures rs[i].Recover? && rs[i + 1].Recover?
    ensures rs[i].nextMs <= RECONNECT_CAP_MS && rs[i + 1].nextMs <= RECONNECT_CAP_MS
    ensures rs[i + 1].attempt == 1 || rs[i].nextMs <= rs[i + 1].nextMs
  {
    var from, to := rs[i], rs[i + 1];
    assert Announced(rs, i) && Announced(rs, i + 1);
    assert from.Recover? && from.nextMs == Backoff(from.attempt - 1);
    assert to.Recover? && to.nextMs == Backoff(to.attempt - 1);
    BackoffShape(from.attempt - 1);
  }
}
