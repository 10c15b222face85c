/**
 The per-direction session cipher: a status gate, an outbound index that is never used twice, and a replay window that
 records an inbound index before the ciphertext is authenticated. The AEAD (section 2.8 of RFC 8439, extended nonce)
 is an abstract keyed pair of functions.
 */
module DataCipher {
  import opened Prelude
  import opened Machines
  import opened Replay

  const TAG_BYTES: nat := 16

  datatype Aead = Aead(seal: (u64, seq<byte>) -> seq<byte>, open: (u64, seq<byte>) -> Option<seq<byte>>) {
    /** Opening succeeds on exactly what sealing under the same index yields; a tag is appended. */
    ghost predicate Sound() {
      && (forall i: u64, p: seq<byte> :: |seal(i, p)| == |p| + TAG_BYTES)
      && (forall i: u64, p: seq<byte> :: open(i, seal(i, p)) == Some(p))
      && (forall i: u64, c: seq<byte> :: open(i, c).Some? ==> c == seal(i, open(i, c).value))
    }
  }

  datatype SessionStatus = Handshaking | Confirmed | Refused | Terminated {
    predicate CanTransportMedia() { Confirmed? }
  }

  datatype Outcome = Plain(plaintext: seq<byte>) | Rejected | AuthFailed | NotReady

  /** The state of one cipher, with its bitmap replaced by the set of accepted indices. */
  datatype Cipher = Cipher(aead: Aead, outIndex: u64, accepted: set<u64>, status: SessionStatus)

  datatype Input =
    | SetStatus(status: SessionStatus)
    | Encrypt(plaintext: seq<byte>)
    | Decrypt(index: u64, ciphertext: seq<byte>)

  datatype Event =
    | Sealed(index: u64, plaintext: seq<byte>, ciphertext: seq<byte>)
    | SealRefused
    | Opened(index: u64, ciphertext: seq<byte>, outcome: Outcome)

  function Fresh(aead: Aead, status: SessionStatus): Cipher {
    Cipher(aead, 0, {}, status)
  }

  /** None: the gate is shut, or every index is used up. */
  function Encrypted(c: Cipher, plaintext: seq<byte>): (Cipher, Option<seq<byte>>) {
    if !c.status.CanTransportMedia() || c.outIndex == U64_LIMIT - 1 then (c, None)
    else (c.(outIndex := c.outIndex + 1), Some(c.aead.seal(c.outIndex, plaintext)))
  }

  function Decrypted(c: Cipher, index: u64, ciphertext: seq<byte>): (Cipher, Outcome) {
    if !c.status.CanTransportMedia() then (c, NotReady)
    else if Decide(c.accepted, index) == Reject then (c, Rejected)
    else
      (c.(accepted := Recorded(c.accepted, index)),
       match c.aead.open(index, ciphertext)
       case Some(plaintext) => Plain(plaintext)
       case None => AuthFailed)
  }

  function Next(c: Cipher, input: Input): (Cipher, seq<Event>) {
    match input
    case SetStatus(status) => (c.(status := status), [])
    case Encrypt(plaintext) =>
      var (c', sealed) := Encrypted(c, plaintext);
      (c', [if sealed.Some? then Sealed(c.outIndex, plaintext, sealed.value) else SealRefused])
    case Decrypt(index, ciphertext) =>
      var (c', outcome) := Decrypted(c, index, ciphertext);
      (c', [Opened(index, ciphertext, outcome)])
  }

  class SessionDataCipher {
    const aead: Aead
    var outIndex: u64
    const inbound: ReplayWindow
    var status: SessionStatus

    ghost predicate Valid()
      reads this, inbound, inbound.bitset
    {
      inbound.Valid()
    }

    ghost function State(): Cipher
      reads this, inbound
    {
      Cipher(aead, outIndex, inbound.accepted, status)
    }

    constructor (aead: Aead, status: SessionStatus)
      ensures Valid() && fresh(inbound) && fresh(inbound.bitset)
      ensures State() == Fresh(aead, status)
    {
      this.aead := aead;
      outIndex := 0;
      inbound := new ReplayWindow();
      this.status := status;
    }

    method ChangeStatus(status: SessionStatus)
      requires Valid()
      modifies this`status
      ensures Valid() && State() == Next(old(State()), SetStatus(status)).0
    {
      this.status := status;
    }

    method EncryptSessionData(plaintext: seq<byte>) returns (sealed: Option<seq<byte>>)
      requires Valid()
      modifies this`outIndex
      ensures Valid() && (State(), sealed) == Encrypted(old(State()), plaintext)
    {
      if !status.CanTransportMedia() {
        return None;
      }
      var index := outIndex;
      if index == U64_LIMIT - 1 {
        return None;
      }
      outIndex := index + 1;
      return Some(aead.seal(index, plaintext));
    }

    method NextOutIndex() returns (index: u64)
      ensures index == State().outIndex
    {
      index := outIndex;
    }

    /** The index is checked and recorded first; only then is the ciphertext authenticated. */
    method DecryptSessionData(index: u64, ciphertext: seq<byte>) returns (outcome: Outcome)
      requires Valid()
      modifies inbound, inbound.bitset
      ensures Valid() && (inbound.bitset == old(inbound.bitset) || fresh(inbound.bitset))
      ensures (State(), outcome) == Decrypted(old(State()), index, ciphertext)
    {
      if !status.CanTransportMedia() {
        return NotReady;
      }
      var decision := inbound.CheckAndRecord(index);
      if decision == Reject {
        return Rejected;
      }
      match aead.open(index, ciphertext) {
        case Some(plaintext) => return Plain(plaintext);
        case None => return AuthFailed;
      }
    }
  }

  // ---- Runs ----

  /** The indices that reached the replay window, in order. */
  function Checked(events: seq<Event>): seq<u64> {
    if events == [] then []
    else
      var front, e := Checked(events[..|events| - 1]), events[|events| - 1];
      if e.Opened? && !e.outcome.NotReady? then front + [e.index] else front
  }

  /** The records that were sealed, in order. */
  function Records(events: seq<Event>): seq<Event> {
    if events == [] then []
    else
      var front, e := Records(events[..|events| - 1]), events[|events| - 1];
      if e.Sealed? then front + [e] else front
  }

  lemma HistorySnoc(events: seq<Event>, e: Event)
    ensures Checked(events + [e]) ==
            if e.Opened? && !e.outcome.NotReady? then Checked(events) + [e.index] else Checked(events)
    ensures Records(events + [e]) == if e.Sealed? then Records(events) + [e] else Records(events)
  {
    assert (events + [e])[..|events|] == events;
  }

  /** The `k`-th record carries index `k`. */
  predicate Numbered(aead: Aead, records: seq<Event>) {
    forall k | 0 <= k < |records| ::
      records[k].Sealed? && records[k].index == k && records[k].ciphertext == aead.seal(k, records[k].plaintext)
  }

  ghost predicate Kept(aead: Aead, c: Cipher, events: seq<Event>) {
    && c.aead == aead
    && c.accepted == AcceptedBy(Checked(events))
    && c.outIndex == |Records(events)| && |Records(events)| < U64_LIMIT
    && Numbered(aead, Records(events))
  }

  lemma RecordedIsAccepted(indices: seq<u64>, index: u64)
    ensures AcceptedBy(indices + [index]) == Recorded(AcceptedBy(indices), index)
  {
    assert (indices + [index])[..|indices|] == indices;
  }

  /**
   In every run of a new cipher, whatever happens to its status, no outbound index is used twice: the records carry 0,
   1, 2 and so on. The window is the one that was fed exactly the indices checked while the gate was open.
   */
  lemma {:induction false} RunKept(aead: Aead, status: SessionStatus, inputs: seq<Input>)
    ensures var c := Fresh(aead, status);
            Kept(aead, StateAfter(Next, c, inputs), OutputOf(Next, c, inputs))
  {
    var c := Fresh(aead, status);
    if inputs != [] {
      var front, last := inputs[..|inputs| - 1], inputs[|inputs| - 1];
      RunKept(aead, status, front);
      StepKept(aead, StateAfter(Next, c, front), OutputOf(Next, c, front), last);
    }
  }

  lemma StepKept(aead: Aead, c: Cipher, events: seq<Event>, input: Input)
    requires Kept(aead, c, events)
    ensures Kept(aead, Next(c, input).0, events + Next(c, input).1)
  {
    match input
    case SetStatus(status) => assert events + [] == events;
    case Encrypt(plaintext) => EncryptKept(aead, c, events, plaintext);
    case Decrypt(index, ciphertext) => DecryptKept(aead, c, events, index, ciphertext);
  }

  lemma EncryptKept(aead: Aead, c: Cipher, events: seq<Event>, plaintext: seq<byte>)
    requires Kept(aead, c, events)
    ensures Kept(aead, Next(c, Encrypt(plaintext)).0, events + Next(c, Encrypt(plaintext)).1)
  {
    var e := Next(c, Encrypt(plaintext)).1[0];
    HistorySnoc(events, e);
  }

  lemma DecryptKept(aead: Aead, c: Cipher, events: seq<Event>, index: u64, ciphertext: seq<byte>)
    requires Kept(aead, c, events)
    ensures Kept(aead, Next(c, Decrypt(index, ciphertext)).0, events + Next(c, Decrypt(index, ciphertext)).1)
  {
    var (c', outcome) := Decrypted(c, index, ciphertext);
    HistorySnoc(events, Opened(index, ciphertext, outcome));
    RecordedIsAccepted(Checked(events), index);
  }

  /**
   When a ciphertext is opened: the gate must be open, the index must never have been checked before and none checked
   before may be 256 or more ahead. Recording comes first, so a check that failed to authenticate counts as well.
   */
  lemma OpenedExact(aead: Aead, status: SessionStatus, inputs: seq<Input>, index: u64, ciphertext: seq<byte>,
                    p: seq<byte>)
    requires aead.Sound()
    ensures var c := StateAfter(Next, Fresh(aead, status), inputs);
            var checked := Checked(OutputOf(Next, Fresh(aead, status), inputs));
            Decrypted(c, index, ciphertext).1 == Plain(p) <==>
              && c.status.Confirmed? && ciphertext == aead.seal(index, p)
              && index !in checked && forall i <- checked :: i < index + WINDOW_SIZE
  {
    RunKept(aead, status, inputs);
    var checked := Checked(OutputOf(Next, Fresh(aead, status), inputs));
    VerdictExact(checked + [index], |checked|);
    assert (checked + [index])[..|checked|] == checked;
    OpensOnly(aead, index, ciphertext, p);
  }

  /**
   What a refusal means: not ready exactly while the gate is shut; rejected exactly for an index checked before, or
   behind one by a window or more; and a failed authentication for everything else that is no seal under its index.
   */
  lemma RefusedExact(aead: Aead, status: SessionStatus, inputs: seq<Input>, index: u64, ciphertext: seq<byte>)
    requires aead.Sound()
    ensures var c := StateAfter(Next, Fresh(aead, status), inputs);
            var checked := Checked(OutputOf(Next, Fresh(aead, status), inputs));
            var stale := index in checked || exists i <- checked :: i >= index + WINDOW_SIZE;
            var (c', outcome) := Decrypted(c, index, ciphertext);
            && (outcome == NotReady <==> !c.status.Confirmed?)
            && (outcome == Rejected <==> c.status.Confirmed? && stale)
            && (outcome == AuthFailed <==>
                c.status.Confirmed? && !stale && forall p: seq<byte> :: ciphertext != aead.seal(index, p))
            && (outcome == NotReady || outcome == Rejected ==> c' == c)
  {
    RunKept(aead, status, inputs);
    var checked := Checked(OutputOf(Next, Fresh(aead, status), inputs));
    AdmissibleMeans(checked, index);
    if aead.open(index, ciphertext).Some? {
      OpensOnly(aead, index, ciphertext, aead.open(index, ciphertext).value);
    }
    forall p: seq<byte> | ciphertext == aead.seal(index, p) ensures aead.open(index, ciphertext) == Some(p) {
      OpensOnly(aead, index, ciphertext, p);
    }
  }

  lemma AdmissibleMeans(front: seq<u64>, last: u64)
    ensures Admissible(AcceptedBy(front), last)
       <==> last !in front && forall c <- front :: c < last + WINDOW_SIZE
  {
    VerdictExact(front + [last], |front|);
    assert (front + [last])[..|front|] == front;
  }

  lemma OpensOnly(aead: Aead, index: u64, ciphertext: seq<byte>, p: seq<byte>)
    requires aead.Sound()
    ensures aead.open(index, ciphertext) == Some(p) <==> ciphertext == aead.seal(index, p)
  {
  }

  predicate OpenedOk(e: Event) {
    e.Opened? && e.outcome.Plain?
  }

  /** What was opened was checked, and carries the one plaintext its ciphertext seals. */
  ghost predicate Genuine(aead: Aead, e: Event, checked: seq<u64>) {
    OpenedOk(e) ==> e.index in checked && e.ciphertext == aead.seal(e.index, e.outcome.plaintext)
  }

  ghost predicate AllGenuine(aead: Aead, events: seq<Event>) {
    forall k | 0 <= k < |events| :: Genuine(aead, events[k], Checked(events))
  }

  lemma {:induction false} OpenedWasChecked(aead: Aead, status: SessionStatus, inputs: seq<Input>)
    requires aead.Sound()
    ensures AllGenuine(aead, OutputOf(Next, Fresh(aead, status), inputs))
  {
    var c := Fresh(aead, status);
    if inputs != [] {
      var front, last := inputs[..|inputs| - 1], inputs[|inputs| - 1];
      OpenedWasChecked(aead, status, front);
      RunKept(aead, status, front);
      StepGenuine(aead, StateAfter(Next, c, front), OutputOf(Next, c, front), last);
    }
  }

  lemma StepGenuine(aead: Aead, c: Cipher, events: seq<Event>, input: Input)
    requires aead.Sound() && c.aead == aead && AllGenuine(aead, events)
    ensures AllGenuine(aead, events + Next(c, input).1)
  {
    var more := Next(c, input).1;
    if more == [] {
      assert events + more == events;
    } else {
      HistorySnoc(events, more[0]);
      forall k | 0 <= k < |events + more| ensures Genuine(aead, (events + more)[k], Checked(events + more)) {
        if k < |events| {
          assert Genuine(aead, events[k], Checked(events));
        } else if OpenedOk(more[0]) {
          OpensOnly(aead, more[0].index, more[0].ciphertext, more[0].outcome.plaintext);
        }
      }
    }
  }

  /** In every run, no index is opened twice. */
  lemma {:induction false} OpenedOnce(aead: Aead, status: SessionStatus, inputs: seq<Input>, j: nat, k: nat)
    requires aead.Sound()
    requires var events := OutputOf(Next, Fresh(aead, status), inputs);
             j < k < |events| && OpenedOk(events[j]) && OpenedOk(events[k])
    ensures var events := OutputOf(Next, Fresh(aead, status), inputs);
            events[j].index != events[k].index
  {
    var c := Fresh(aead, status);
    var front, last := inputs[..|inputs| - 1], inputs[|inputs| - 1];
    var before := OutputOf(Next, c, front);
    if k < |before| {
      OpenedOnce(aead, status, front, j, k);
    } else {
      OpenedWasChecked(aead, status, front);
      assert Genuine(aead, before[j], Checked(before));
      OpenedExact(aead, status, front, last.index, last.ciphertext, OutputOf(Next, c, inputs)[k].outcome.plaintext);
    }
  }

  /** Nothing but sealed records authenticates under their indices. */
  ghost predicate Unforged(records: seq<Event>, events: seq<Event>) {
    forall e <- events :: OpenedOk(e) ==>
      e.index < |records| && records[e.index].Sealed? && e.ciphertext == records[e.index].ciphertext
  }

  /**
   A sender and a receiver on one key. Whatever the network drops, repeats, reorders or invents, as long as nothing but
   sealed records authenticates, what the receiver opens is what the sender sealed, each record at most once.
   */
  lemma ExactlyOnce(aead: Aead, status: SessionStatus, sends: seq<Input>, deliveries: seq<Input>, j: nat, k: nat)
    requires aead.Sound()
    requires var records := Records(OutputOf(Next, Fresh(aead, status), sends));
             var events := OutputOf(Next, Fresh(aead, status), deliveries);
             && Unforged(records, events)
             && j < k < |events| && OpenedOk(events[j]) && OpenedOk(events[k])
    ensures var records := Records(OutputOf(Next, Fresh(aead, status), sends));
            var events := OutputOf(Next, Fresh(aead, status), deliveries);
            && events[j].index != events[k].index
            && events[j].index < |records| && events[j].outcome.plaintext == records[events[j].index].plaintext
            && events[k].index < |records| && events[k].outcome.plaintext == records[events[k].index].plaintext
  {
    var records := Records(OutputOf(Next, Fresh(aead, status), sends));
    var events := OutputOf(Next, Fresh(aead, status), deliveries);
    RunKept(aead, status, sends);
    OpenedOnce(aead, status, deliveries, j, k);
    OpenedWasChecked(aead, status, deliveries);
    assert Genuine(aead, events[j], Checked(events)) && Genuine(aead, events[k], Checked(events));
    assert events[j] in events && events[k] in events;
    SealsOne(aead, events[j].index, events[j].outcome.plaintext, records[events[j].index].plaintext);
    SealsOne(aead, events[k].index, events[k].outcome.plaintext, records[events[k].index].plaintext);
  }

  /** Two plaintexts never share a ciphertext under one index. */
  lemma SealsOne(aead: Aead, i: u64, p: seq<byte>, q: seq<byte>)
    requires aead.Sound() && aead.seal(i, p) == aead.seal(i, q)
    ensures p == q
  {
    assert aead.open(i, aead.seal(i, p)) == Some(p);
    assert aead.open(i, aead.seal(i, q)) == Some(q);
  }

  // ---- At an input ----

  /** A toy cipher that appends sixteen zero bytes. */
  function ZeroTag(): Aead {
    var tag: seq<byte> := seq(TAG_BYTES, i => 0);
    Aead((i, p) => p + tag,
         (i, c) => if |c| >= TAG_BYTES && c[|c| - TAG_BYTES..] == tag then Some(c[..|c| - TAG_BYTES]) else None)
  }

  /** What is asked of the AEAD can be met. */
  lemma ZeroTagIsSound()
    ensures ZeroTag().Sound()
  {
    var aead := ZeroTag();
    var tag: seq<byte> := seq(TAG_BYTES, i => 0);
    forall i: u64, p: seq<byte>
      ensures |aead.seal(i, p)| == |p| + TAG_BYTES && aead.open(i, aead.seal(i, p)) == Some(p)
    {
      var c := p + tag;
      assert c[|c| - TAG_BYTES..] == tag && c[..|c| - TAG_BYTES] == p;
    }
    forall i: u64, c: seq<byte> | aead.open(i, c).Some? ensures c == aead.seal(i, aead.open(i, c).value) {
      assert c == c[..|c| - TAG_BYTES] + c[|c| - TAG_BYTES..];
    }
  }

  /** A forgery is refused and spends its index: the genuine record that comes after it is refused as well. */
  lemma ForgerySpendsIndex(aead: Aead, index: u64, forged: seq<byte>, p: seq<byte>)
    requires aead.Sound() && aead.open(index, forged).None?
    ensures var c := Fresh(aead, Confirmed);
            && OutputOf(Next, c, [Decrypt(index, aead.seal(index, p))])
            == [Opened(index, aead.seal(index, p), Plain(p))]
            && OutputOf(Next, c, [Decrypt(index, forged), Decrypt(index, aead.seal(index, p))])
            == [Opened(index, forged, AuthFailed), Opened(index, aead.seal(index, p), Rejected)]
  {
    hide Next;
    var c := Fresh(aead, Confirmed);
    var forgery, genuine := Decrypt(index, forged), Decrypt(index, aead.seal(index, p));
    ForgeryThenGenuine(aead, index, forged, p);
    TwoInputs(Next, c, genuine, genuine);
    TwoInputs(Next, c, forgery, genuine);
  }

  lemma ForgeryThenGenuine(aead: Aead, index: u64, forged: seq<byte>, p: seq<byte>)
    requires aead.Sound() && aead.open(index, forged).None?
    ensures var c, genuine := Fresh(aead, Confirmed), Decrypt(index, aead.seal(index, p));
            var (spent, refused) := Next(c, Decrypt(index, forged));
            && Next(c, genuine).1 == [Opened(index, aead.seal(index, p), Plain(p))]
            && refused == [Opened(index, forged, AuthFailed)]
            && Next(spent, genuine).1 == [Opened(index, aead.seal(index, p), Rejected)]
  {
    OpensOnly(aead, index, aead.seal(index, p), p);
  }

  /** There is such a forgery. */
  lemma EmptyIsForged(index: u64, p: seq<byte>)
    ensures var c := Fresh(ZeroTag(), Confirmed);
            OutputOf(Next, c, [Decrypt(index, []), Decrypt(index, ZeroTag().seal(index, p))])
            == [Opened(index, [], AuthFailed), Opened(index, ZeroTag().seal(index, p), Rejected)]
  {
    ZeroTagIsSound();
    ForgerySpendsIndex(ZeroTag(), index, [], p);
  }
}
