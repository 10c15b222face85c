/**
 The DTLS-style anti-replay window (section 4.1.2.6 of RFC 6347): the newest index and a 256-bit bitmap kept in four
 64-bit words. The bitmap is proved to be the set of accepted indices, and the verdicts of whole runs are characterised.
 */
module Replay {
  import opened Prelude
  import opened Bits

  const WINDOW_SIZE: nat := 256

  datatype Decision = Accept | Reject

  // ---- The set of accepted indices ----

  /** No member is a window or more ahead of `index`. */
  predicate InReach(members: set<u64>, index: u64) {
    forall a <- members :: a < index + WINDOW_SIZE
  }

  predicate Admissible(accepted: set<u64>, index: u64) {
    index !in accepted && InReach(accepted, index)
  }

  function Decide(accepted: set<u64>, index: u64): Decision {
    if Admissible(accepted, index) then Accept else Reject
  }

  function Recorded(accepted: set<u64>, index: u64): set<u64> {
    if Admissible(accepted, index) then accepted + {index} else accepted
  }

  /** What is accepted after `indices` were checked in order. */
  function AcceptedBy(indices: seq<u64>): set<u64> {
    if indices == [] then {}
    else Recorded(AcceptedBy(indices[..|indices| - 1]), indices[|indices| - 1])
  }

  /** The verdict on the index at position `k` of a run. */
  function Verdict(indices: seq<u64>, k: nat): Decision
    requires k < |indices|
  {
    Decide(AcceptedBy(indices[..k]), indices[k])
  }

  lemma {:induction false} AcceptedWasChecked(indices: seq<u64>, a: u64)
    requires a in AcceptedBy(indices)
    ensures a in indices
  {
    var front := indices[..|indices| - 1];
    if a in AcceptedBy(front) {
      AcceptedWasChecked(front, a);
    }
  }

  /** Rejected indices do not count: what was accepted reaches as far ahead as what was checked. */
  lemma {:induction false} AcceptedReach(indices: seq<u64>, i: u64)
    requires InReach(AcceptedBy(indices), i)
    ensures forall c <- indices :: c < i + WINDOW_SIZE
  {
    if indices != [] {
      var front, last := indices[..|indices| - 1], indices[|indices| - 1];
      var before, after := AcceptedBy(front), AcceptedBy(indices);
      assert before <= after;
      AcceptedReach(front, i);
      assert indices == front + [last];
      if last >= i + WINDOW_SIZE {
        assert last !in after;
        assert InReach(before, last);
      }
    }
  }

  /** An index checked before is by now accepted, or a window or more behind something accepted. */
  lemma {:induction false} CheckedStaysDecided(indices: seq<u64>, i: u64)
    requires i in indices
    ensures !Admissible(AcceptedBy(indices), i)
  {
    var front, last := indices[..|indices| - 1], indices[|indices| - 1];
    assert indices == front + [last];
    assert AcceptedBy(front) <= AcceptedBy(indices);
    if i != last {
      CheckedStaysDecided(front, i);
    }
  }

  /**
   The verdict of every check in every run, from the history of checks alone: an index is accepted if and only if it was
   never checked before and no index checked before is 256 or more ahead of it.
   */
  lemma VerdictExact(indices: seq<u64>, k: nat)
    requires k < |indices|
    ensures Verdict(indices, k) == Accept <==>
              indices[k] !in indices[..k] && forall c <- indices[..k] :: c < indices[k] + WINDOW_SIZE
  {
    var before, i := indices[..k], indices[k];
    if i in before {
      CheckedStaysDecided(before, i);
    }
    if InReach(AcceptedBy(before), i) {
      AcceptedReach(before, i);
    }
    forall a <- AcceptedBy(before) ensures a in before {
      AcceptedWasChecked(before, a);
    }
  }

  /** No index is accepted twice in any run. */
  lemma NeverTwice(indices: seq<u64>, j: nat, k: nat)
    requires j < k < |indices| && indices[j] == indices[k]
    ensures Verdict(indices, j) == Accept ==> Verdict(indices, k) == Reject
  {
    VerdictExact(indices, k);
    assert indices[..k][j] == indices[k];
  }

  // ---- The bitmap ----

  predicate Words(words: seq<nat>) {
    |words| == 4 && forall w | 0 <= w < 4 :: words[w] < Pow2(64)
  }

  /** Bit `q = 64 * w + b` of the four words is set if and only if `newest - q` was accepted. */
  ghost predicate Spells(words: seq<nat>, newest: int, accepted: set<u64>)
    requires |words| == 4
  {
    forall w: nat, b: nat | w < 4 && b < 64 :: TestBit(words[w], b) <==> newest - (64 * w + b) in accepted
  }

  ghost predicate Refines(newest: u64, words: seq<nat>, accepted: set<u64>)
    requires |words| == 4
  {
    newest in accepted && (forall a <- accepted :: a <= newest) && Spells(words, newest, accepted)
  }

  /** The lowest `64 * upTo` bits that `newest` and `accepted` spell, moved up by `shift`, and no others. */
  ghost predicate Moved(words: seq<nat>, newest: int, accepted: set<u64>, upTo: nat, shift: nat)
    requires |words| == 4
  {
    forall w: nat, b: nat | w < 4 && b < 64 ::
      TestBit(words[w], b) <==>
        0 <= 64 * w + b - shift < 64 * upTo && newest - (64 * w + b - shift) in accepted
  }

  /** `value` moved up by `bitShift` in a double word: the low word and what spills into the next one. */
  function SplitShifted(value: nat, bitShift: nat): (parts: (nat, nat))
    requires bitShift < 64 && value < Pow2(64)
  {
    if bitShift == 0 then (value, 0) else (Shl(value, bitShift, 64), Shr(value, 64 - bitShift))
  }

  lemma {:induction false} ShrSmaller(v: nat, n: nat)
    ensures Shr(v, n) <= v
    decreases n
  {
    if n > 0 { ShrSmaller(v / 2, n - 1); }
  }

  /** The two parts hold every bit of `value`, `bitShift` places up, and both are words. */
  lemma SplitBits(value: nat, bitShift: nat, b: nat)
    requires bitShift < 64 && value < Pow2(64) && b < 64
    ensures var (low, carry) := SplitShifted(value, bitShift);
            && low < Pow2(64) && carry < Pow2(64)
            && (TestBit(low, b) <==> b >= bitShift && TestBit(value, b - bitShift))
            && (TestBit(carry, b) <==> b < bitShift && TestBit(value, b + 64 - bitShift))
  {
    if bitShift == 0 {
      ZeroHasNoBits(b);
    } else {
      ShlBit(value, bitShift, 64, b);
      ShrBit(value, 64 - bitShift, b);
      ShrSmaller(value, 64 - bitShift);
      if b >= bitShift { BitsAboveWidth(value, 64, b + 64 - bitShift); }
    }
  }

  /** The words after one round of the loop, which adds the two parts of source word `src`. */
  function Added(words: seq<nat>, parts: (nat, nat), dst: nat, bitShift: nat): (added: seq<nat>)
    requires |words| == 4
    ensures |added| == 4
  {
    var first := if dst < 4 then words[dst := Or(words[dst], parts.0)] else words;
    if bitShift != 0 && dst + 1 < 4 then first[dst + 1 := Or(first[dst + 1], parts.1)] else first
  }

  /** Where a destination bit comes from. */
  lemma AddedBit(words: seq<nat>, value: nat, dst: nat, bitShift: nat, w: nat, b: nat)
    requires Words(words) && value < Pow2(64) && bitShift < 64 && w < 4 && b < 64
    ensures var added := Added(words, SplitShifted(value, bitShift), dst, bitShift);
            && added[w] < Pow2(64)
            && (TestBit(added[w], b) <==>
                  || TestBit(words[w], b)
                  || (w == dst && b >= bitShift && TestBit(value, b - bitShift))
                  || (w == dst + 1 && b < bitShift && TestBit(value, b + 64 - bitShift)))
  {
    var (low, carry) := SplitShifted(value, bitShift);
    SplitBits(value, bitShift, b);
    OrBit(words[w], low, b);
    OrBit(words[w], carry, b);
    OrBelow(words[w], low, 64);
    OrBelow(words[w], carry, 64);
  }

  /** Adding one source word moves exactly the 64 bits of that word. */
  lemma AddedMoves(words: seq<nat>, source: seq<nat>, newest: int, accepted: set<u64>, src: nat, wordShift: nat,
                   bitShift: nat)
    requires Words(words) && Words(source) && Spells(source, newest, accepted) && src < 4 && bitShift < 64
    requires Moved(words, newest, accepted, src, 64 * wordShift + bitShift)
    ensures var added := Added(words, SplitShifted(source[src], bitShift), src + wordShift, bitShift);
            Words(added) && Moved(added, newest, accepted, src + 1, 64 * wordShift + bitShift)
  {
    var shift, dst := 64 * wordShift + bitShift, src + wordShift;
    var added := Added(words, SplitShifted(source[src], bitShift), dst, bitShift);
    forall w | 0 <= w < 4 ensures added[w] < Pow2(64) {
      AddedBit(words, source[src], dst, bitShift, w, 0);
    }
    forall w: nat, b: nat | w < 4 && b < 64
      ensures TestBit(added[w], b) <==>
                0 <= 64 * w + b - shift < 64 * (src + 1) && newest - (64 * w + b - shift) in accepted
    {
      assert TestBit(words[w], b) <==>
               0 <= 64 * w + b - shift < 64 * src && newest - (64 * w + b - shift) in accepted;
      AddedBit(words, source[src], dst, bitShift, w, b);
      FromSource(source, newest, accepted, src, wordShift, bitShift, w, b);
    }
  }

  /** Whether destination bit `64 * w + b` comes out of source word `src`, and with which meaning. */
  lemma FromSource(source: seq<nat>, newest: int, accepted: set<u64>, src: nat, wordShift: nat, bitShift: nat, w: nat,
                   b: nat)
    requires |source| == 4 && Spells(source, newest, accepted) && src < 4 && bitShift < 64 && b < 64
    ensures var q := 64 * w + b - (64 * wordShift + bitShift);
            var dst := src + wordShift;
            (|| (w == dst && b >= bitShift && TestBit(source[src], b - bitShift))
             || (w == dst + 1 && b < bitShift && TestBit(source[src], b + 64 - bitShift)))
            <==> 64 * src <= q < 64 * (src + 1) && newest - q in accepted
  {
    var q := 64 * w + b - (64 * wordShift + bitShift);
    if 64 * src <= q < 64 * (src + 1) {
      SourceBit(source, newest, accepted, src, q - 64 * src);
    }
  }

  lemma SourceBit(source: seq<nat>, newest: int, accepted: set<u64>, src: nat, b: nat)
    requires |source| == 4 && Spells(source, newest, accepted) && src < 4 && b < 64
    ensures TestBit(source[src], b) <==> newest - (64 * src + b) in accepted
  {
  }

  lemma NothingMoved(words: seq<nat>, newest: int, accepted: set<u64>, shift: nat)
    requires words == [0, 0, 0, 0]
    ensures Words(words) && Moved(words, newest, accepted, 0, shift)
    ensures shift >= WINDOW_SIZE ==> Moved(words, newest, accepted, 4, shift)
  {
    forall w: nat, b: nat | w < 4 && b < 64 ensures !TestBit(words[w], b) { ZeroHasNoBits(b); }
  }

  /** On an empty bitmap the lowest bit alone stands for the only index accepted. */
  lemma FirstBit(words: seq<nat>, index: u64)
    requires Words(words) && Spells(words, 0, {})
    ensures Words(words[0 := 1]) && Refines(index, words[0 := 1], {index})
  {
    Pow2Monotone(1, 64);
    var words' := words[0 := 1];
    forall w: nat, b: nat | w < 4 && b < 64 ensures TestBit(words'[w], b) <==> w == 0 && b == 0 {
      SingleBit(0, b);
    }
  }

  /** Sliding to a newer index and setting bit 0 accepts that index and forgets nothing still in the window. */
  lemma SlideRefines(newest: u64, accepted: set<u64>, index: u64, moved: seq<nat>)
    requires (forall a <- accepted :: a <= newest) && index > newest
    requires Words(moved) && Moved(moved, newest, accepted, 4, index - newest)
    ensures Words(moved[0 := Or(moved[0], 1)])
    ensures Refines(index, moved[0 := Or(moved[0], 1)], accepted + {index})
  {
    var shift := index - newest;
    var words' := moved[0 := Or(moved[0], 1)];
    Pow2Monotone(1, 64);
    OrBelow(moved[0], 1, 64);
    forall w: nat, b: nat | w < 4 && b < 64
      ensures TestBit(words'[w], b) <==> index - (64 * w + b) in accepted + {index}
    {
      OrBit(moved[0], 1, b);
      SingleBit(0, b);
      assert newest - (64 * w + b - shift) == index - (64 * w + b);
    }
  }

  /** Setting the bit of an index inside the window accepts that index and no other. */
  lemma MarkRefines(newest: u64, words: seq<nat>, accepted: set<u64>, index: u64, word: nat, bit: nat)
    requires Words(words) && Refines(newest, words, accepted)
    requires word < 4 && bit < 64 && newest - index == 64 * word + bit
    ensures var words' := words[word := Or(words[word], Pow2(bit))];
            Words(words') && Refines(newest, words', accepted + {index})
  {
    var words' := words[word := Or(words[word], Pow2(bit))];
    Pow2Monotone(bit + 1, 64);
    OrBelow(words[word], Pow2(bit), 64);
    forall w: nat, b: nat | w < 4 && b < 64
      ensures TestBit(words'[w], b) <==> newest - (64 * w + b) in accepted + {index}
    {
      OrBit(words[word], Pow2(bit), b);
      SingleBit(bit, b);
      assert TestBit(words[w], b) <==> newest - (64 * w + b) in accepted;
    }
  }

  /** The three cases of the check, against the newest index alone where that is enough. */
  lemma ByNewest(newest: u64, accepted: set<u64>, index: u64)
    requires newest in accepted && forall a <- accepted :: a <= newest
    ensures index > newest ==> Admissible(accepted, index)
    ensures newest - index >= WINDOW_SIZE ==> !Admissible(accepted, index)
    ensures newest - index < WINDOW_SIZE ==> (Admissible(accepted, index) <==> index !in accepted)
  {
  }

  // ---- The window ----

  class ReplayWindow {
    var newest: Option<u64>
    var bitset: array<nat>
    /** Every index accepted so far. */
    ghost var accepted: set<u64>

    ghost predicate Valid()
      reads this, bitset
    {
      && bitset.Length == 4 && Words(bitset[..])
      && match newest
         case None => accepted == {} && Spells(bitset[..], 0, {})
         case Some(n) => Refines(n, bitset[..], accepted)
    }

    constructor ()
      ensures Valid() && fresh(bitset) && accepted == {}
    {
      newest := None;
      bitset := new nat[4](_ => 0);
      accepted := {};
      new;
      assert bitset[..] == [0, 0, 0, 0];
      NothingMoved(bitset[..], 0, {}, 0);
      forall w: nat, b: nat | w < 4 && b < 64 ensures !TestBit(bitset[..][w], b) { ZeroHasNoBits(b); }
    }

    /** The verdict is that of the set of accepted indices, and an accepted index joins the set. */
    method CheckAndRecord(index: u64) returns (decision: Decision)
      requires Valid()
      modifies this, bitset
      ensures Valid() && (bitset == old(bitset) || fresh(bitset))
      ensures decision == Decide(old(accepted), index)
      ensures accepted == Recorded(old(accepted), index)
    {
      match newest {
        case None =>
          FirstBit(bitset[..], index);
          newest := Some(index);
          bitset[0] := 1;
          accepted := {index};
          return Accept;
        case Some(n) =>
          ByNewest(n, accepted, index);
          if index > n {
            SlideTo(n, index);
            return Accept;
          } else if n - index >= WINDOW_SIZE {
            return Reject;
          } else {
            decision := Mark(n, index);
          }
      }
    }

    /** An index above the newest one: the whole window slides forward. */
    method SlideTo(n: u64, index: u64)
      requires Valid() && newest == Some(n) && index > n
      modifies this
      ensures Valid() && fresh(bitset) && newest == Some(index)
      ensures accepted == old(accepted) + {index}
    {
      var slid := Slide(n, index - n);
      SlideRefines(n, accepted, index, slid[..]);
      slid[0] := Or(slid[0], 1);
      bitset := slid;
      newest := Some(index);
      accepted := accepted + {index};
    }

    /** The bitmap moved up by `shift`, word by word. */
    method Slide(n: u64, shift: u64) returns (slid: array<nat>)
      requires bitset.Length == 4 && Words(bitset[..]) && Spells(bitset[..], n, accepted)
      ensures fresh(slid) && slid.Length == 4 && Words(slid[..])
      ensures Moved(slid[..], n, accepted, 4, shift)
    {
      slid := new nat[4](_ => 0);
      ghost var source := bitset[..];
      assert slid[..] == [0, 0, 0, 0];
      NothingMoved(slid[..], n, accepted, shift);
      if shift < 256 {
        var wordShift, bitShift := shift / 64, shift % 64;
        assert 64 * wordShift + bitShift == shift;
        for src := 0 to 4
          invariant bitset[..] == source && slid.Length == 4 && fresh(slid)
          invariant Words(slid[..]) && Moved(slid[..], n, accepted, src, 64 * wordShift + bitShift)
        {
          AddedMoves(slid[..], source, n, accepted, src, wordShift, bitShift);
          AddWord(slid, bitset[src], src + wordShift, bitShift);
        }
      }
    }

    /** An index inside the window: accepted exactly if its bit was clear. */
    method Mark(n: u64, index: u64) returns (decision: Decision)
      requires Valid() && newest == Some(n) && index <= n < index + WINDOW_SIZE
      modifies this`accepted, bitset
      ensures Valid()
      ensures decision == Accept <==> index !in old(accepted)
      ensures accepted == old(accepted) + {index}
    {
      var pos := n - index;
      var word, bit := pos / 64, pos % 64;
      var mask := Pow2(bit);
      MaskTest(bitset[word], bit);
      SourceBit(bitset[..], n, accepted, word, bit);
      if And(bitset[word], mask) != 0 {
        return Reject;
      }
      MarkRefines(n, bitset[..], accepted, index, word, bit);
      bitset[word] := Or(bitset[word], mask);
      accepted := accepted + {index};
      return Accept;
    }
  }

  /** One round of the sliding loop: the two shifted parts of a word join the words they fall into. */
  method AddWord(slid: array<nat>, value: nat, dst: nat, bitShift: nat)
    requires slid.Length == 4 && bitShift < 64 && value < Pow2(64)
    modifies slid
    ensures slid[..] == Added(old(slid[..]), SplitShifted(value, bitShift), dst, bitShift)
  {
    var (val, carry) := SplitShifted(value, bitShift);
    if dst < 4 {
      slid[dst] := Or(slid[dst], val);
    }
    if bitShift != 0 && dst + 1 < 4 {
      slid[dst + 1] := Or(slid[dst + 1], carry);
    }
  }
}
