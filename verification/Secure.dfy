/**
 The secure lane: both media ciphers of a session share one flow key, every media payload is sealed under its frame's
 sequence number, and sealing refuses as soon as the cipher's index and the sequence number part ways.
 */
module Secure {
  import opened Prelude
  import opened Frames
  import opened Machines
  import opened Replay
  import opened DataCipher

  datatype SecError = ReplayedIndex | BadTag | GateShut | IndexDivergence(expected: u64, got: u64) | PayloadTooLarge

  class SecureSession {
    const tx: SessionDataCipher
    const rx: SessionDataCipher

    ghost predicate Valid()
      reads this, tx, rx, tx.inbound, rx.inbound, tx.inbound.bitset, rx.inbound.bitset
    {
      && tx.Valid() && rx.Valid() && tx != rx && tx.inbound != rx.inbound && tx.inbound.bitset != rx.inbound.bitset
      && tx.aead == rx.aead
    }

    /** Both ciphers on the same key, both confirmed. */
    constructor FinishSession(mediaTx: Aead)
      ensures Valid() && fresh(tx) && fresh(rx)
      ensures tx.State() == Fresh(mediaTx, Confirmed) && rx.State() == Fresh(mediaTx, Confirmed)
    {
      tx := new SessionDataCipher(mediaTx, Confirmed);
      rx := new SessionDataCipher(mediaTx, Confirmed);
    }

    /** The size is checked before anything is sealed, and a refused frame uses up no index. */
    method SealFrame(seqNo: u64, payload: seq<byte>) returns (r: Result<seq<byte>, SecError>)
      requires Valid()
      modifies tx`outIndex
      ensures Valid() && (tx.State(), r) == Seal(old(tx.State()), seqNo, payload)
    {
      if |payload| + TAG_BYTES > MAX_FRAME_PAYLOAD {
        return Err(PayloadTooLarge);
      }
      var expected := tx.NextOutIndex();
      if expected != seqNo {
        return Err(IndexDivergence(expected, seqNo));
      }
      var sealed := tx.EncryptSessionData(payload);
      match sealed {
        case Some(bytes) => return Ok(bytes);
        case None => return Err(GateShut);
      }
    }

    method OpenFrame(seqNo: u64, ciphertext: seq<byte>) returns (r: Result<seq<byte>, SecError>)
      requires Valid()
      modifies rx.inbound, rx.inbound.bitset
      ensures Valid() && (rx.State(), r) == Open(old(rx.State()), seqNo, ciphertext)
    {
      var outcome := rx.DecryptSessionData(seqNo, ciphertext);
      match outcome {
        case Plain(plaintext) => return Ok(plaintext);
        case Rejected => return Err(ReplayedIndex);
        case AuthFailed => return Err(BadTag);
        case NotReady => return Err(GateShut);
      }
    }
  }

  function Seal(c: Cipher, seqNo: u64, payload: seq<byte>): (Cipher, Result<seq<byte>, SecError>) {
    if |payload| + TAG_BYTES > MAX_FRAME_PAYLOAD then (c, Err(PayloadTooLarge))
    else if c.outIndex != seqNo then (c, Err(IndexDivergence(c.outIndex, seqNo)))
    else
      var (c', sealed) := Encrypted(c, payload);
      (c', if sealed.Some? then Ok(sealed.value) else Err(GateShut))
  }

  function Open(c: Cipher, seqNo: u64, ciphertext: seq<byte>): (Cipher, Result<seq<byte>, SecError>) {
    var (c', outcome) := Decrypted(c, seqNo, ciphertext);
    (c', match outcome
         case Plain(plaintext) => Ok(plaintext)
         case Rejected => Err(ReplayedIndex)
         case AuthFailed => Err(BadTag)
         case NotReady => Err(GateShut))
  }

  /** Every outcome of sealing: what is refused leaves the cipher as it was, what is sealed uses up one index. */
  lemma SealExactly(c: Cipher, seqNo: u64, payload: seq<byte>)
    ensures var (c', r) := Seal(c, seqNo, payload);
            var fits := |payload| + TAG_BYTES <= MAX_FRAME_PAYLOAD;
            && (r == Err(PayloadTooLarge) <==> !fits)
            && (r == Err(IndexDivergence(c.outIndex, seqNo)) <==> fits && c.outIndex != seqNo)
            && (r == Err(GateShut) <==>
                fits && c.outIndex == seqNo && !(c.status.Confirmed? && seqNo < U64_LIMIT - 1))
            && (r.Err? ==> c' == c)
            && (r.Ok? ==> r.value == c.aead.seal(seqNo, payload) && c' == c.(outIndex := seqNo + 1))
  {
  }

  /** Every outcome of opening, told apart for the caller. */
  lemma OpenExactly(c: Cipher, seqNo: u64, ciphertext: seq<byte>)
    ensures var r := Open(c, seqNo, ciphertext).1;
            && (r == Err(GateShut) <==> !c.status.Confirmed?)
            && (r == Err(ReplayedIndex) <==> c.status.Confirmed? && !Admissible(c.accepted, seqNo))
            && (r == Err(BadTag) <==>
                c.status.Confirmed? && Admissible(c.accepted, seqNo) && c.aead.open(seqNo, ciphertext).None?)
            && (r.Ok? <==>
                c.status.Confirmed? && Admissible(c.accepted, seqNo) && c.aead.open(seqNo, ciphertext).Some?)
            && (r.Ok? ==> Some(r.value) == c.aead.open(seqNo, ciphertext))
  {
  }

  // ---- The emitter on the secure lane ----

  /** The emitter's next sequence number beside the cipher it seals with. */
  datatype Lane = Lane(tx: Cipher, seqNo: u64)

  /** One frame to send; `sent` is whether the transport takes the packed bytes. */
  datatype Offer = Offer(payload: seq<byte>, sent: bool)

  datatype Step = Sent(seqNo: u64, sealed: seq<byte>) | SealFailed(error: SecError) | SendFailed(seqNo: u64)

  /** Seal, then send; only a frame that was sent advances the sequence number. */
  function Emit(l: Lane, o: Offer): (Lane, seq<Step>) {
    var (tx, r) := Seal(l.tx, l.seqNo, o.payload);
    match r
    case Err(e) => (l.(tx := tx), [SealFailed(e)])
    case Ok(sealed) =>
      if o.sent && l.seqNo < U64_LIMIT - 1
      then (Lane(tx, l.seqNo + 1), [Sent(l.seqNo, sealed)])
      else (l.(tx := tx), [SendFailed(l.seqNo)])
  }

  function StartLane(aead: Aead): Lane {
    Lane(Fresh(aead, Confirmed), 0)
  }

  /** Index and sequence number are equal until a sealed frame fails to be sent, and one apart ever after. */
  predicate Aligned(l: Lane, steps: seq<Step>) {
    && l.tx.status == Confirmed
    && l.tx.outIndex == l.seqNo + (if exists s <- steps :: s.SendFailed? then 1 else 0)
  }

  lemma {:induction false} LaneRun(aead: Aead, offers: seq<Offer>)
    ensures Aligned(StateAfter(Emit, StartLane(aead), offers), OutputOf(Emit, StartLane(aead), offers))
    ensures StateAfter(Emit, StartLane(aead), offers).tx.aead == aead
  {
    if offers != [] {
      var front, last := offers[..|offers| - 1], offers[|offers| - 1];
      LaneRun(aead, front);
      EmitAligned(StateAfter(Emit, StartLane(aead), front), OutputOf(Emit, StartLane(aead), front), last);
    }
  }

  lemma EmitAligned(l: Lane, steps: seq<Step>, o: Offer)
    requires Aligned(l, steps)
    ensures Aligned(Emit(l, o).0, steps + Emit(l, o).1)
  {
    var more := Emit(l, o).1;
    assert more[0] in steps + more;
    assert forall s <- steps :: s in steps + more;
    assert forall s <- steps + more :: s in steps || s == more[0];
  }

  /**
   In every run, a frame is sealed if and only if it leaves room for the tag, no sealed frame before it failed to be
   sent, and an index is left. Once a sealed frame is lost on the way out, every later frame of legal size is refused
   for divergence.
   */
  lemma SealsWhileAligned(aead: Aead, offers: seq<Offer>, payload: seq<byte>)
    ensures var l := StateAfter(Emit, StartLane(aead), offers);
            var steps := OutputOf(Emit, StartLane(aead), offers);
            var lost := exists s <- steps :: s.SendFailed?;
            var fits := |payload| + TAG_BYTES <= MAX_FRAME_PAYLOAD;
            var r := Seal(l.tx, l.seqNo, payload).1;
            && (r.Ok? <==> fits && !lost && l.seqNo < U64_LIMIT - 1)
            && (r.Ok? ==> r.value == aead.seal(l.seqNo, payload))
            && (fits && lost ==> l.tx.outIndex == l.seqNo + 1 && r == Err(IndexDivergence(l.tx.outIndex, l.seqNo)))
  {
    LaneRun(aead, offers);
  }

  /** A sealed payload fits a frame, crosses the wire in it, and opens to the original under the frame's number. */
  lemma SealedFrameCrosses(aead: Aead, tx: Cipher, rx: Cipher, f: Frame, payload: seq<byte>)
    requires aead.Sound() && tx.aead == aead && rx.aead == aead && rx.status == Confirmed
    requires Seal(tx, f.seqNo, payload).1 == Ok(f.payload) && f.flags.reserved < 64
    ensures Pack(f).Ok? && Unpack(Pack(f).value) == Ok(f)
    ensures Open(rx, f.seqNo, f.payload).1
         == if Admissible(rx.accepted, f.seqNo) then Ok(payload) else Err(ReplayedIndex)
  {
    assert f.payload == aead.seal(f.seqNo, payload);
    FrameRoundTrip(f);
    EncodedDecodes(f);
  }
}
