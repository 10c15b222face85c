/** The per-frame checksum: CRC-32 of clause 3.2.9 of IEEE 802.3, bitwise and reflected. */
module Crc32 {
  import opened Prelude
  import opened Bits

  const POLY: u32 := 0xEDB8_8320
  const ALL_ONES: u32 := 0xFFFF_FFFF

  /** One turn of the inner loop: shift right, and fold the polynomial in when a one falls out. */
  function BitStep(crc: nat): nat {
    Xor(crc / 2, if crc % 2 == 1 then POLY else 0)
  }

  function BitSteps(crc: nat, n: nat): nat {
    if n == 0 then crc else BitStep(BitSteps(crc, n - 1))
  }

  /** The register after absorbing one byte. */
  function ByteStep(crc: nat, b: byte): nat {
    BitSteps(Xor(crc, b), 8)
  }

  /** The register after absorbing `data`. */
  function Register(crc: nat, data: seq<byte>): nat {
    if data == [] then crc else ByteStep(Register(crc, data[..|data| - 1]), data[|data| - 1])
  }

  /** The published checksum: all-ones start and complemented result. */
  function Checksum(data: seq<byte>): nat {
    Xor(Register(ALL_ONES, data), ALL_ONES)
  }

  /** The two nested loops over bytes and bits. */
  method Crc32(data: seq<byte>) returns (crc: nat)
    ensures crc == Checksum(data)
    ensures crc < U32_LIMIT
  {
    crc := ALL_ONES;
    for i := 0 to |data|
      invariant crc == Register(ALL_ONES, data[..i])
    {
      crc := Xor(crc, data[i]);
      ghost var start := crc;
      for k := 0 to 8
        invariant crc == BitSteps(start, k)
      {
        var mask := if crc % 2 == 1 then POLY else 0;
        crc := Xor(crc / 2, mask);
      }
      assert data[..i + 1][..i] == data[..i];
    }
    assert data[..|data|] == data;
    crc := Xor(crc, ALL_ONES);
    ChecksumFits(data);
  }

  lemma XorFits(a: nat, b: nat)
    requires a < U32_LIMIT && b < U32_LIMIT
    ensures Xor(a, b) < U32_LIMIT
  {
    WordWidths();
    XorBelow(a, b, 32);
  }

  lemma BitStepFits(crc: nat)
    requires crc < U32_LIMIT
    ensures BitStep(crc) < U32_LIMIT
  {
    XorFits(crc / 2, if crc % 2 == 1 then POLY else 0);
  }

  lemma {:induction false} BitStepsFit(crc: nat, n: nat)
    requires crc < U32_LIMIT
    ensures BitSteps(crc, n) < U32_LIMIT
  {
    if n > 0 {
      BitStepsFit(crc, n - 1);
      BitStepFits(BitSteps(crc, n - 1));
    }
  }

  lemma {:induction false} RegisterFits(crc: nat, data: seq<byte>)
    requires crc < U32_LIMIT
    ensures Register(crc, data) < U32_LIMIT
  {
    if data != [] {
      var front, last := data[..|data| - 1], data[|data| - 1];
      RegisterFits(crc, front);
      XorFits(Register(crc, front), last);
      BitStepsFit(Xor(Register(crc, front), last), 8);
    }
  }

  lemma ChecksumFits(data: seq<byte>)
    ensures Checksum(data) < U32_LIMIT
  {
    RegisterFits(ALL_ONES, data);
    XorFits(Register(ALL_ONES, data), ALL_ONES);
  }

  // ---- The bit step is linear and bijective ----

  lemma XorExchange(a: nat, b: nat, c: nat, d: nat)
    ensures Xor(Xor(a, b), Xor(c, d)) == Xor(Xor(a, c), Xor(b, d))
  {
    XorAssoc(a, b, Xor(c, d));
    XorAssoc(b, c, d);
    XorComm(b, c);
    XorAssoc(c, b, d);
    XorAssoc(a, c, Xor(b, d));
  }

  lemma BitStepLinear(a: nat, b: nat)
    ensures BitStep(Xor(a, b)) == Xor(BitStep(a), BitStep(b))
  {
    var pa := if a % 2 == 1 then POLY else 0;
    var pb := if b % 2 == 1 then POLY else 0;
    XorHalves(a, b);
    XorSelf(POLY);
    XorExchange(a / 2, pa, b / 2, pb);
  }

  lemma {:induction false} BitStepsLinear(a: nat, b: nat, n: nat)
    ensures BitSteps(Xor(a, b), n) == Xor(BitSteps(a, n), BitSteps(b, n))
  {
    if n > 0 {
      BitStepsLinear(a, b, n - 1);
      BitStepLinear(BitSteps(a, n - 1), BitSteps(b, n - 1));
    }
  }

  /** The top bit of the polynomial tells afterwards which bit fell out, so no two states merge. */
  lemma BitStepInjective(a: nat, b: nat)
    requires a < U32_LIMIT && b < U32_LIMIT
    requires BitStep(a) == BitStep(b)
    ensures a == b
  {
    TopBit(a);
    TopBit(b);
    XorCancel(a / 2, b / 2, if a % 2 == 1 then POLY else 0);
  }

  lemma TopBit(a: nat)
    requires a < U32_LIMIT
    ensures TestBit(BitStep(a), 31) <==> a % 2 == 1
  {
    WordWidths();
    BitsAboveWidth(a / 2, 31, 31);
    XorBit(a / 2, if a % 2 == 1 then POLY else 0, 31);
    ZeroHasNoBits(31);
    PolyTopBit();
  }

  lemma PolyTopBit()
    ensures TestBit(POLY, 31)
  {
    WordWidths();
    assert Pow2(32) == 2 * Pow2(31);
    TopBitSet(POLY, 31);
  }

  lemma {:induction false} BitStepsInjective(a: nat, b: nat, n: nat)
    requires a < U32_LIMIT && b < U32_LIMIT
    requires BitSteps(a, n) == BitSteps(b, n)
    ensures a == b
  {
    if n > 0 {
      BitStepsFit(a, n - 1);
      BitStepsFit(b, n - 1);
      BitStepInjective(BitSteps(a, n - 1), BitSteps(b, n - 1));
      BitStepsInjective(a, b, n - 1);
    }
  }

  // ---- A payload is absorbed as one long word ----

  /** The number that the bytes spell in little-endian order: bit `8 * i + k` is bit `k` of byte `i`. */
  function Word(data: seq<byte>): nat {
    if data == [] then 0 else data[0] + 256 * Word(data[1..])
  }

  /** Bit `j` of a payload, counted in the order in which the checksum consumes the bits. */
  predicate PayloadBit(data: seq<byte>, j: nat)
    requires j < 8 * |data|
  {
    TestBit(data[j / 8], j % 8)
  }

  lemma {:induction false} WordBit(data: seq<byte>, j: nat)
    ensures TestBit(Word(data), j) <==> j < 8 * |data| && PayloadBit(data, j)
    decreases |data|
  {
    if data == [] {
      ZeroHasNoBits(j);
    } else {
      UpByte(Word(data[1..]));
      JoinBit(data[0], Word(data[1..]), 8, j);
      if j >= 8 {
        WordBit(data[1..], j - 8);
        assert j < 8 * |data| ==> data[1..][(j - 8) / 8] == data[j / 8];
      }
    }
  }

  lemma {:induction false} WordInjective(p: seq<byte>, q: seq<byte>)
    requires |p| == |q| && Word(p) == Word(q)
    ensures p == q
  {
    if p != [] {
      assert p[0] == Word(p) % 256 && q[0] == Word(q) % 256;
      WordInjective(p[1..], q[1..]);
      assert p == [p[0]] + p[1..] && q == [q[0]] + q[1..];
    }
  }

  /** Steps on a multiple of a power of two only shift: no one falls out. */
  lemma {:induction false} ShiftOnly(y: nat, n: nat)
    ensures BitSteps(Up(y, n), n) == y
    decreases n
  {
    if n > 0 {
      var z := Up(y, n - 1);
      StepsAdd(2 * z, 1, n - 1);
      assert BitSteps(2 * z, 1) == BitStep(BitSteps(2 * z, 0)) == BitStep(2 * z) == z;
      ShiftOnly(y, n - 1);
    }
  }

  lemma {:induction false} StepsAdd(c: nat, m: nat, n: nat)
    ensures BitSteps(c, m + n) == BitSteps(BitSteps(c, m), n)
  {
    if n > 0 {
      StepsAdd(c, m, n - 1);
      assert m + n - 1 == m + (n - 1);
    }
  }

  lemma {:induction false} RegisterFromFront(crc: nat, data: seq<byte>)
    requires data != []
    ensures Register(crc, data) == Register(ByteStep(crc, data[0]), data[1..])
  {
    if |data| > 1 {
      RegisterFromFront(crc, data[..|data| - 1]);
      assert data[..|data| - 1][1..] == data[1..][..|data| - 2];
    }
  }

  /** `n` steps consume the low `n` bits of the folded word and leave the rest of it in the register. */
  lemma LowBitsThenRest(crc: nat, low: nat, high: nat, n: nat)
    requires low < Pow2(n)
    ensures BitSteps(Xor(crc, low + Up(high, n)), n) == Xor(BitSteps(Xor(crc, low), n), high)
  {
    var moved := Up(high, n);
    assert low + moved == Xor(low, moved) by { XorDisjoint(low, high, n); }
    XorAssoc(crc, low, moved);
    MovedWordReturns(Xor(crc, low), high, n);
  }

  lemma MovedWordReturns(crc: nat, high: nat, n: nat)
    ensures BitSteps(Xor(crc, Up(high, n)), n) == Xor(BitSteps(crc, n), high)
  {
    BitStepsLinear(crc, Up(high, n), n);
    ShiftOnly(high, n);
  }

  /** Absorbing byte by byte is folding the whole payload in at once and then stepping bit by bit. */
  lemma {:induction false} AbsorbsAsWord(crc: nat, data: seq<byte>)
    ensures Register(crc, data) == BitSteps(Xor(crc, Word(data)), 8 * |data|)
    decreases |data|
  {
    if data == [] {
      assert 8 * |data| == 0;
    } else {
      var b, rest := data[0], data[1..];
      hide Register, Xor, BitSteps, ByteStep;
      calc {
        Register(crc, data);
      ==  { RegisterFromFront(crc, data); }
        Register(ByteStep(crc, b), rest);
      ==  { AbsorbsAsWord(ByteStep(crc, b), rest); }
        BitSteps(Xor(ByteStep(crc, b), Word(rest)), 8 * |rest|);
      ==  { UpByte(Word(rest)); LowBitsThenRest(crc, b, Word(rest), 8); }
        BitSteps(BitSteps(Xor(crc, Word(data)), 8), 8 * |rest|);
      ==  { StepsAdd(Xor(crc, Word(data)), 8, 8 * |rest|); }
        BitSteps(Xor(crc, Word(data)), 8 + 8 * |rest|);
      }
    }
  }

  // ---- Burst detection ----

  /** `p` and `q` have equal length and may differ only in the 32 consecutive bits from bit `from`. */
  ghost predicate DifferInBurst(p: seq<byte>, q: seq<byte>, from: nat) {
    |p| == |q| && forall j: nat :: j < 8 * |p| && !(from <= j < from + 32) ==> PayloadBit(p, j) == PayloadBit(q, j)
  }

  /** The difference of two such payloads, as a word, is a 32-bit pattern moved up to the burst. */
  lemma BurstPattern(p: seq<byte>, q: seq<byte>, from: nat) returns (pattern: nat)
    requires DifferInBurst(p, q, from)
    ensures pattern < U32_LIMIT
    ensures Xor(Word(p), Word(q)) == Up(pattern, from)
  {
    var d := Xor(Word(p), Word(q));
    forall j: nat ensures TestBit(d, j) ==> from <= j < from + 32 {
      XorBit(Word(p), Word(q), j);
      WordBit(p, j);
      WordBit(q, j);
    }
    pattern := ConfinedBits(d, from, 32);
    WordWidths();
  }

  /** A number whose ones all lie in `width` positions from `low` on is a short pattern moved up. */
  lemma ConfinedBits(d: nat, low: nat, width: nat) returns (pattern: nat)
    requires forall j: nat :: TestBit(d, j) ==> low <= j < low + width
    ensures pattern < Pow2(width)
    ensures d == Up(pattern, low)
  {
    pattern := Shr(d, low);
    NoLowBits(d, low);
    ShrDivides(d, low);
    forall j: nat | j >= width ensures !TestBit(pattern, j) { ShrBit(d, low, j); }
    NoHighBits(pattern, width);
  }

  lemma {:induction false} ZeroStays(n: nat)
    ensures BitSteps(0, n) == 0
  {
    if n > 0 { ZeroStays(n - 1); }
  }

  /** Equal-length payloads share a checksum exactly when the bit steps wipe out their word difference. */
  lemma SameChecksum(p: seq<byte>, q: seq<byte>)
    requires |p| == |q|
    ensures Checksum(p) == Checksum(q) <==> BitSteps(Xor(Word(p), Word(q)), 8 * |p|) == 0
  {
    var n := 8 * |p|;
    var rp, rq := Register(ALL_ONES, p), Register(ALL_ONES, q);
    AbsorbsAsWord(ALL_ONES, p);
    AbsorbsAsWord(ALL_ONES, q);
    BitStepsLinear(Xor(ALL_ONES, Word(p)), Xor(ALL_ONES, Word(q)), n);
    XorExchange(ALL_ONES, Word(p), ALL_ONES, Word(q));
    XorSelf(ALL_ONES);
    assert Xor(rp, rq) == BitSteps(Xor(Word(p), Word(q)), n);
    XorSelf(rq);
    if Xor(rp, rq) == 0 { XorCancel(rp, rq, rq); }
    if Checksum(p) == Checksum(q) { XorCancel(rp, rq, ALL_ONES); }
  }

  /**
   Payloads of any length that differ only inside one burst of 32 consecutive bits, wherever it starts,
   share a checksum only when they are equal.
   */
  lemma BurstDetected(p: seq<byte>, q: seq<byte>, from: nat)
    requires DifferInBurst(p, q, from)
    ensures Checksum(p) == Checksum(q) <==> p == q
  {
    if Checksum(p) == Checksum(q) {
      var pattern := BurstPattern(p, q, from);
      var n := 8 * |p|;
      SameChecksum(p, q);
      if from < n {
        StepsAdd(Up(pattern, from), from, n - from);
        ShiftOnly(pattern, from);
        ZeroStays(n - from);
        BitStepsInjective(pattern, 0, n - from);
        UpZero(from);
      } else {
        BurstOutside(p, q, from);
      }
      WordsAgree(p, q);
    }
  }

  lemma {:induction false} UpZero(n: nat)
    ensures Up(0, n) == 0
  {
    if n > 0 { UpZero(n - 1); }
  }

  lemma BurstOutside(p: seq<byte>, q: seq<byte>, from: nat)
    requires DifferInBurst(p, q, from) && from >= 8 * |p|
    ensures Xor(Word(p), Word(q)) == 0
  {
    forall j: nat ensures !TestBit(Xor(Word(p), Word(q)), j) {
      XorBit(Word(p), Word(q), j);
      WordBit(p, j);
      WordBit(q, j);
    }
    NoHighBits(Xor(Word(p), Word(q)), 0);
  }

  lemma WordsAgree(p: seq<byte>, q: seq<byte>)
    requires |p| == |q| && Xor(Word(p), Word(q)) == 0
    ensures p == q
  {
    XorSelf(Word(q));
    XorCancel(Word(p), Word(q), Word(q));
    WordInjective(p, q);
  }

  /** The polynomial, read as a 33-bit word, is wiped out by its first bit step. */
  lemma PolynomialVanishes(n: nat)
    requires n >= 1
    ensures BitSteps(2 * POLY + 1, n) == 0
  {
    var g := 2 * POLY + 1;
    assert g / 2 == POLY && g % 2 == 1;
    XorSelf(POLY);
    assert BitSteps(g, 1) == BitStep(BitSteps(g, 0)) == BitStep(g) == 0;
    StepsAdd(g, 1, n - 1);
    ZeroStays(n - 1);
  }

  lemma WordOfFive(a: byte, b: byte, c: byte, d: byte, e: byte)
    ensures Word([a, b, c, d, e]) == a + 256 * (b + 256 * (c + 256 * (d + 256 * e)))
  {
    var w := [a, b, c, d, e];
    assert w[1..] == [b, c, d, e] && [b, c, d, e][1..] == [c, d, e];
    assert [c, d, e][1..] == [d, e] && [d, e][1..] == [e];
    assert Word([e]) == e + 256 * Word([e][1..]) == e;
    assert Word([d, e]) == d + 256 * e;
    assert Word([c, d, e]) == c + 256 * (d + 256 * e);
  }

  /** The bound of 32 is sharp: the polynomial itself is a burst of 33 bits that goes unseen. */
  lemma BurstBoundIsSharp()
    ensures Checksum([0, 0, 0, 0, 0]) == Checksum([0x41, 0x06, 0x71, 0xDB, 0x01])
  {
    WordOfFive(0, 0, 0, 0, 0);
    WordOfFive(0x41, 0x06, 0x71, 0xDB, 0x01);
    PolynomialVanishes(40);
    SameChecksum([0, 0, 0, 0, 0], [0x41, 0x06, 0x71, 0xDB, 0x01]);
  }

  /** `p` and `q` may differ only at the four byte positions `at .. at + 4`. */
  ghost predicate DifferOnlyWithin(p: seq<byte>, q: seq<byte>, at: nat) {
    |p| == |q| && forall i :: 0 <= i < |p| && !(at <= i < at + 4) ==> p[i] == q[i]
  }

  /** Four damaged consecutive bytes are one such burst. */
  lemma ByteBurstDetected(p: seq<byte>, q: seq<byte>, at: nat)
    requires DifferOnlyWithin(p, q, at)
    ensures Checksum(p) == Checksum(q) <==> p == q
  {
    forall j: nat | j < 8 * |p| && !(8 * at <= j < 8 * at + 32)
      ensures PayloadBit(p, j) == PayloadBit(q, j)
    {
      assert p[j / 8] == q[j / 8];
    }
    BurstDetected(p, q, 8 * at);
  }
}
