/**
 What pins the checksum down to the published one: the residue that every checksummed message leaves, and the values
 of the standard test messages. Values are computed on machine words and carried over to the naturals.
 */
module Crc32Vectors {
  import opened Prelude
  import opened Bits
  import opened Crc32
  import opened Deframing

  // ---- Machine words and their values ----

  predicate LowBit(v: bv32) {
    v & 1 == 1
  }

  function Half(v: bv32): bv32 {
    v >> 1
  }

  function XorWord(a: bv32, b: bv32): bv32 {
    a ^ b
  }

  function Joined(high: nat, bit: bool): nat {
    2 * high + (if bit then 1 else 0)
  }

  /** The number spelled by the low `n` bits. */
  function Value(v: bv32, n: nat): nat {
    if n == 0 then 0 else Joined(Value(Half(v), n - 1), LowBit(v))
  }

  lemma HalfXor(a: bv32, b: bv32)
    ensures Half(XorWord(a, b)) == XorWord(Half(a), Half(b))
    ensures LowBit(XorWord(a, b)) <==> LowBit(a) != LowBit(b)
  {
  }

  lemma XorJoined(h: nat, k: nat, x: bool, y: bool)
    ensures Xor(Joined(h, x), Joined(k, y)) == Joined(Xor(h, k), x != y)
  {
    DoublePlus(h, if x then 1 else 0);
    DoublePlus(k, if y then 1 else 0);
    XorHalves(Joined(h, x), Joined(k, y));
  }

  lemma {:induction false} ValueXor(a: bv32, b: bv32, n: nat)
    ensures Value(XorWord(a, b), n) == Xor(Value(a, n), Value(b, n))
    decreases n
  {
    hide LowBit, Half, XorWord, Joined, Xor;
    if n == 0 {
      XorSelf(0);
    } else {
      HalfXor(a, b);
      ValueXor(Half(a), Half(b), n - 1);
      XorJoined(Value(Half(a), n - 1), Value(Half(b), n - 1), LowBit(a), LowBit(b));
    }
  }

  lemma ZeroWord()
    ensures Half(0) == 0 && !LowBit(0)
  {
  }

  lemma {:induction false} ValueZero(n: nat)
    ensures Value(0, n) == 0
  {
    hide LowBit, Half;
    if n > 0 {
      ZeroWord();
      ValueZero(n - 1);
    }
  }

  // ---- The number of a 32-bit word, byte by byte ----

  function LowByte(v: bv32): nat {
    Eight(0, v & 1 != 0, v & 2 != 0, v & 4 != 0, v & 8 != 0, v & 16 != 0, v & 32 != 0, v & 64 != 0, v & 128 != 0)
  }

  function NextByte(v: bv32): bv32 {
    v >> 8
  }

  function Number(v: bv32): nat {
    var b, c := NextByte(v), NextByte(NextByte(v));
    LowByte(v) + 256 * (LowByte(b) + 256 * (LowByte(c) + 256 * LowByte(NextByte(c))))
  }

  /** Eight bits in front of `high`, lowest first. */
  function Eight(high: nat, a: bool, b: bool, c: bool, d: bool, e: bool, f: bool, g: bool, h: bool): nat {
    Joined(Joined(Joined(Joined(Joined(Joined(Joined(Joined(high, h), g), f), e), d), c), b), a)
  }

  lemma EightLinear(high: nat, a: bool, b: bool, c: bool, d: bool, e: bool, f: bool, g: bool, h: bool)
    ensures Eight(high, a, b, c, d, e, f, g, h) == 256 * high + Eight(0, a, b, c, d, e, f, g, h)
  {
  }

  lemma BitsOfByte(v: bv32)
    ensures var h := Half(v);
            var i, j := Half(h), Half(Half(h));
            var k, l := Half(j), Half(Half(j));
            var m, n := Half(l), Half(Half(l));
            && NextByte(v) == Half(n)
            && LowBit(v) == (v & 1 != 0) && LowBit(h) == (v & 2 != 0) && LowBit(i) == (v & 4 != 0)
            && LowBit(j) == (v & 8 != 0) && LowBit(k) == (v & 16 != 0) && LowBit(l) == (v & 32 != 0)
            && LowBit(m) == (v & 64 != 0) && LowBit(n) == (v & 128 != 0)
  {
  }

  lemma Halves(v: bv32)
    ensures var h := Half(v);
            var i, j := Half(h), Half(Half(h));
            var k, l := Half(j), Half(Half(j));
            var m, n := Half(l), Half(Half(l));
            && NextByte(v) == Half(n)
            && LowByte(v) == Eight(0, LowBit(v), LowBit(h), LowBit(i), LowBit(j), LowBit(k), LowBit(l), LowBit(m),
                                   LowBit(n))
  {
    hide LowBit, Half, NextByte, Joined;
    BitsOfByte(v);
  }

  lemma EightBits(v: bv32, r: nat)
    ensures Value(v, r + 8) == LowByte(v) + 256 * Value(NextByte(v), r)
  {
    hide LowBit, Half, NextByte, LowByte, Joined;
    Halves(v);
    var h := Half(v);
    var i, j := Half(h), Half(Half(h));
    var k, l := Half(j), Half(Half(j));
    var m, n := Half(l), Half(Half(l));
    assert Value(n, r + 1) == Joined(Value(NextByte(v), r), LowBit(n));
    assert Value(m, r + 2) == Joined(Value(n, r + 1), LowBit(m));
    assert Value(l, r + 3) == Joined(Value(m, r + 2), LowBit(l));
    assert Value(k, r + 4) == Joined(Value(l, r + 3), LowBit(k));
    assert Value(j, r + 5) == Joined(Value(k, r + 4), LowBit(j));
    assert Value(i, r + 6) == Joined(Value(j, r + 5), LowBit(i));
    assert Value(h, r + 7) == Joined(Value(i, r + 6), LowBit(h));
    assert Value(v, r + 8) == Joined(Value(h, r + 7), LowBit(v));
    EightLinear(Value(NextByte(v), r), LowBit(v), LowBit(h), LowBit(i), LowBit(j), LowBit(k), LowBit(l), LowBit(m),
                LowBit(n));
  }

  lemma LastByte(v: bv32)
    ensures Value(v, 8) == LowByte(v)
  {
    hide LowByte, NextByte;
    EightBits(v, 0);
  }

  lemma ValueIsNumber(v: bv32)
    ensures Value(v, 32) == Number(v)
  {
    hide LowByte, NextByte, Value;
    var b, c := NextByte(v), NextByte(NextByte(v));
    EightBits(v, 24);
    EightBits(b, 16);
    EightBits(c, 8);
    LastByte(NextByte(c));
  }

  // ---- The steps on machine words ----

  const POLY_WORD: bv32 := 0xEDB8_8320
  const ONES_WORD: bv32 := 0xFFFF_FFFF

  function StepWord(crc: bv32): bv32 {
    XorWord(Half(crc), if LowBit(crc) then POLY_WORD else 0)
  }

  lemma FromBytes(v: bv32, b: bv32, c: bv32, d: bv32, p: nat, q: nat, r: nat, s: nat)
    requires NextByte(v) == b && NextByte(b) == c && NextByte(c) == d
    requires LowByte(v) == p && LowByte(b) == q && LowByte(c) == r && LowByte(d) == s
    ensures Value(v, 32) == p + 256 * q + 0x1_0000 * r + 0x100_0000 * s
  {
    hide LowByte, NextByte;
    ValueIsNumber(v);
  }

  lemma PolyNumber()
    ensures Value(POLY_WORD, 32) == 0xEDB8_8320
  {
    FromBytes(POLY_WORD, 0xEDB883, 0xEDB8, 0xED, 0x20, 0x83, 0xB8, 0xED);
  }

  lemma OnesNumber()
    ensures Value(ONES_WORD, 32) == 0xFFFF_FFFF
  {
    FromBytes(ONES_WORD, 0xFFFFFF, 0xFFFF, 0xFF, 0xFF, 0xFF, 0xFF, 0xFF);
  }

  /** The word without its low `n` bits. */
  function Rest(v: bv32, n: nat): bv32 {
    if n == 0 then v else Rest(Half(v), n - 1)
  }

  lemma RestOfByte(v: bv32, r: nat)
    ensures Rest(v, r + 8) == Rest(NextByte(v), r)
  {
    hide LowBit, Half, NextByte, LowByte;
    Halves(v);
    var h := Half(v);
    var i, j := Half(h), Half(Half(h));
    var k, l := Half(j), Half(Half(j));
    var m, n := Half(l), Half(Half(l));
    assert Rest(v, r + 8) == Rest(h, r + 7) == Rest(i, r + 6) == Rest(j, r + 5) == Rest(k, r + 4);
    assert Rest(k, r + 4) == Rest(l, r + 3) == Rest(m, r + 2) == Rest(n, r + 1) == Rest(NextByte(v), r);
  }

  lemma FourBytes(v: bv32)
    ensures NextByte(NextByte(NextByte(NextByte(v)))) == 0
  {
  }

  lemma NothingLeft(v: bv32)
    ensures Rest(v, 32) == 0
  {
    hide NextByte, Half;
    FourBytes(v);
    RestOfByte(v, 24);
    RestOfByte(NextByte(v), 16);
    RestOfByte(NextByte(NextByte(v)), 8);
    RestOfByte(NextByte(NextByte(NextByte(v))), 0);
  }

  /** Where nothing is left, one more bit adds nothing. */
  lemma {:induction false} NoMoreBits(v: bv32, n: nat)
    requires Rest(v, n) == 0
    ensures Value(v, n + 1) == Value(v, n)
    decreases n
  {
    hide Half, LowBit;
    if n == 0 {
      ValueZero(1);
    } else {
      NoMoreBits(Half(v), n - 1);
    }
  }

  lemma StepAgrees(crc: bv32)
    ensures BitStep(Value(crc, 32)) == Value(StepWord(crc), 32)
  {
    hide LowBit, Half, XorWord, Value, Xor;
    var half := Half(crc);
    NothingLeft(crc);
    NoMoreBits(half, 31);
    HalfOfValue(crc);
    ValueZero(32);
    PolyNumber();
    ValueXor(half, if LowBit(crc) then POLY_WORD else 0, 32);
  }

  lemma HalfOfValue(v: bv32)
    ensures Value(v, 32) / 2 == Value(Half(v), 31)
    ensures Value(v, 32) % 2 == 1 <==> LowBit(v)
  {
    hide LowBit, Half;
    DoublePlus(Value(Half(v), 31), if LowBit(v) then 1 else 0);
  }

  function StepsWord(crc: bv32, n: nat): bv32 {
    if n == 0 then crc else StepWord(StepsWord(crc, n - 1))
  }

  lemma {:induction false} StepsAgree(crc: bv32, n: nat)
    ensures BitSteps(Value(crc, 32), n) == Value(StepsWord(crc, n), 32)
  {
    hide StepWord;
    if n > 0 {
      StepsAgree(crc, n - 1);
      StepAgrees(StepsWord(crc, n - 1));
    }
  }

  function EightSteps(crc: bv32): bv32 {
    StepWord(StepWord(StepWord(StepWord(StepWord(StepWord(StepWord(StepWord(crc))))))))
  }

  lemma EightStepsAgree(crc: bv32)
    ensures BitSteps(Value(crc, 32), 8) == Value(EightSteps(crc), 32)
  {
    hide StepWord;
    StepsAgree(crc, 8);
    assert StepsWord(crc, 1) == StepWord(StepsWord(crc, 0)) == StepWord(crc);
    assert StepsWord(crc, 2) == StepWord(StepsWord(crc, 1));
    assert StepsWord(crc, 4) == StepWord(StepWord(StepsWord(crc, 2)));
    assert StepsWord(crc, 6) == StepWord(StepWord(StepsWord(crc, 4)));
    assert StepsWord(crc, 8) == StepWord(StepWord(StepsWord(crc, 6)));
  }

  lemma ByteAgrees(crc: bv32, b: bv32)
    requires Value(b, 32) < 256
    ensures ByteStep(Value(crc, 32), Value(b, 32)) == Value(EightSteps(XorWord(crc, b)), 32)
  {
    hide EightSteps, XorWord;
    ValueXor(crc, b, 32);
    EightStepsAgree(XorWord(crc, b));
  }

  // ---- The residue ----

  /** Thirty-two steps from all ones. */
  lemma AllOnesSteps()
    ensures BitSteps(ALL_ONES, 32) == 0xDEBB_20E3
  {
    hide EightSteps;
    OnesNumber();
    FourTimesEight(ONES_WORD);
    OnesRun();
    ResidueNumber();
  }

  lemma FourTimesEight(crc: bv32)
    ensures BitSteps(Value(crc, 32), 32) == Value(EightSteps(EightSteps(EightSteps(EightSteps(crc)))), 32)
  {
    hide EightSteps, Value;
    var s := Value(crc, 32);
    StepsAdd(s, 8, 24);
    StepsAdd(BitSteps(s, 8), 8, 16);
    StepsAdd(BitSteps(BitSteps(s, 8), 8), 8, 8);
    EightStepsAgree(crc);
    EightStepsAgree(EightSteps(crc));
    EightStepsAgree(EightSteps(EightSteps(crc)));
    EightStepsAgree(EightSteps(EightSteps(EightSteps(crc))));
  }

  lemma OnesRun()
    ensures EightSteps(EightSteps(EightSteps(EightSteps(ONES_WORD)))) == 0xDEBB_20E3
  {
    assert EightSteps(ONES_WORD) == 0x2DFD1072;
    assert EightSteps(0x2DFD1072) == 0xBE26ED00;
    assert EightSteps(0xBE26ED00) == 0x00BE26ED;
    assert EightSteps(0x00BE26ED) == 0xDEBB20E3;
  }

  lemma ResidueNumber()
    ensures Value(0xDEBB_20E3, 32) == 0xDEBB_20E3
  {
    FromBytes(0xDEBB_20E3, 0xDEBB20, 0xDEBB, 0xDE, 0xE3, 0x20, 0xBB, 0xDE);
  }

  /** The complement of a known register. */
  lemma Complement(v: bv32, c: bv32)
    requires c == XorWord(v, ONES_WORD)
    ensures Xor(Value(v, 32), ALL_ONES) == Value(c, 32)
  {
    hide XorWord;
    OnesNumber();
    ValueXor(v, ONES_WORD, 32);
  }

  lemma {:induction false} RegisterAppend(crc: nat, a: seq<byte>, b: seq<byte>)
    ensures Register(crc, a + b) == Register(Register(crc, a), b)
  {
    if b == [] {
      assert a + b == a;
    } else {
      RegisterAppend(crc, a, b[..|b| - 1]);
      assert (a + b)[..|a + b| - 1] == a + b[..|b| - 1];
    }
  }

  /** The checksum as it is appended to a message. */
  function Trailer(data: seq<byte>): (tail: seq<byte>)
    ensures |tail| == 4
  {
    LittleEndian(Checksum(data), 4)
  }

  const RESIDUE: nat := 0x2144_DF1C

  /** Whatever the message, followed by its checksum it has the one checksum 0x2144_DF1C. */
  lemma ResidueLaw(data: seq<byte>)
    ensures Checksum(data + Trailer(data)) == RESIDUE
  {
    hide Register, Xor, BitSteps;
    var r, c, tail := Register(ALL_ONES, data), Checksum(data), Trailer(data);
    ChecksumFits(data);
    WordWidths();
    LittleEndianRoundTrip(c, 4);
    RegisterAppend(ALL_ONES, data, tail);
    AbsorbsAsWord(r, tail);
    XorAssoc(r, r, ALL_ONES);
    XorSelf(r);
    ZeroXor(ALL_ONES);
    AllOnesSteps();
    Complement(0xDEBB_20E3, 0x2144_DF1C);
    ResidueNumber();
    ResidueComplement();
  }

  lemma ZeroXor(a: nat)
    ensures Xor(0, a) == a
  {
  }

  lemma ResidueComplement()
    ensures Value(0x2144_DF1C, 32) == 0x2144_DF1C
  {
    FromBytes(0x2144_DF1C, 0x2144DF, 0x2144, 0x21, 0x1C, 0xDF, 0x44, 0x21);
  }

  /** Of all four-byte tails only the checksum leaves the residue, so checking for it checks the checksum. */
  lemma ResidueExactly(data: seq<byte>, tail: seq<byte>)
    requires |tail| == 4
    ensures Checksum(data + tail) == RESIDUE <==> tail == Trailer(data)
  {
    hide Checksum;
    var p, q := data + tail, data + Trailer(data);
    ResidueLaw(data);
    ByteBurstDetected(p, q, |data|);
    assert p[|data|..] == tail && q[|data|..] == Trailer(data);
  }

  // ---- Test messages ----

  lemma EmptyChecksum()
    ensures Checksum([]) == 0
  {
    XorSelf(ALL_ONES);
  }

  lemma SmallWord(b: bv32, v: nat)
    requires NextByte(b) == 0 && LowByte(b) == v
    ensures Value(b, 32) == v
  {
    NoByte();
    FromBytes(b, 0, 0, 0, v, 0, 0, 0);
  }

  lemma NoByte()
    ensures NextByte(0) == 0 && LowByte(0) == 0
  {
  }

  /** One more byte moves the register by eight steps. */
  lemma NextDigit(data: seq<byte>, v: bv32, b: bv32, d: byte, after: bv32)
    requires Register(ALL_ONES, data) == Value(v, 32)
    requires NextByte(b) == 0 && LowByte(b) == d && EightSteps(XorWord(v, b)) == after
    ensures Register(ALL_ONES, data + [d]) == Value(after, 32)
  {
    hide EightSteps, XorWord, ByteStep, NextByte, LowByte, Value;
    SmallWord(b, d);
    ByteAgrees(v, b);
    assert (data + [d])[..|data|] == data;
  }

  /** The nine bytes "123456789" on machine words. */
  lemma DigitRegisters()
    ensures EightSteps(XorWord(ONES_WORD, 0x31)) == 0x7C231048
    ensures EightSteps(XorWord(0x7C231048, 0x32)) == 0xB0ACBB32
    ensures EightSteps(XorWord(0xB0ACBB32, 0x33)) == 0x77B79C2D
    ensures EightSteps(XorWord(0x77B79C2D, 0x34)) == 0x641C1F5C
    ensures EightSteps(XorWord(0x641C1F5C, 0x35)) == 0x340AC5E3
    ensures EightSteps(XorWord(0x340AC5E3, 0x36)) == 0xF68D2C9E
    ensures EightSteps(XorWord(0xF68D2C9E, 0x37)) == 0xAFFC9660
    ensures EightSteps(XorWord(0xAFFC9660, 0x38)) == 0x651F2550
    ensures EightSteps(XorWord(0x651F2550, 0x39)) == 0x340BC6D9
  {
  }

  lemma DigitBytes()
    ensures NextByte(0x31) == 0 && LowByte(0x31) == 0x31
    ensures NextByte(0x32) == 0 && LowByte(0x32) == 0x32
    ensures NextByte(0x33) == 0 && LowByte(0x33) == 0x33
    ensures NextByte(0x34) == 0 && LowByte(0x34) == 0x34
    ensures NextByte(0x35) == 0 && LowByte(0x35) == 0x35
    ensures NextByte(0x36) == 0 && LowByte(0x36) == 0x36
    ensures NextByte(0x37) == 0 && LowByte(0x37) == 0x37
    ensures NextByte(0x38) == 0 && LowByte(0x38) == 0x38
    ensures NextByte(0x39) == 0 && LowByte(0x39) == 0x39
  {
  }

  lemma FirstDigits()
    ensures Register(ALL_ONES, [0x31, 0x32, 0x33]) == Value(0x77B79C2D, 32)
  {
    DigitBytes();
    DigitRegisters();
    hide EightSteps, XorWord, NextByte, LowByte, Value, Register;
    OnesNumber();
    NothingAbsorbed();
    NextDigit([], ONES_WORD, 0x31, 0x31, 0x7C231048);
    assert [] + [0x31] == [0x31];
    NextDigit([0x31], 0x7C231048, 0x32, 0x32, 0xB0ACBB32);
    assert [0x31] + [0x32] == [0x31, 0x32];
    NextDigit([0x31, 0x32], 0xB0ACBB32, 0x33, 0x33, 0x77B79C2D);
    assert [0x31, 0x32] + [0x33] == [0x31, 0x32, 0x33];
  }

  lemma MiddleDigits()
    requires Register(ALL_ONES, [0x31, 0x32, 0x33]) == Value(0x77B79C2D, 32)
    ensures Register(ALL_ONES, [0x31, 0x32, 0x33, 0x34, 0x35, 0x36]) == Value(0xF68D2C9E, 32)
  {
    DigitBytes();
    DigitRegisters();
    hide EightSteps, XorWord, NextByte, LowByte, Value, Register;
    NextDigit([0x31, 0x32, 0x33], 0x77B79C2D, 0x34, 0x34, 0x641C1F5C);
    assert [0x31, 0x32, 0x33] + [0x34] == [0x31, 0x32, 0x33, 0x34];
    NextDigit([0x31, 0x32, 0x33, 0x34], 0x641C1F5C, 0x35, 0x35, 0x340AC5E3);
    assert [0x31, 0x32, 0x33, 0x34] + [0x35] == [0x31, 0x32, 0x33, 0x34, 0x35];
    NextDigit([0x31, 0x32, 0x33, 0x34, 0x35], 0x340AC5E3, 0x36, 0x36, 0xF68D2C9E);
    assert [0x31, 0x32, 0x33, 0x34, 0x35] + [0x36] == [0x31, 0x32, 0x33, 0x34, 0x35, 0x36];
  }

  lemma LastDigits()
    requires Register(ALL_ONES, [0x31, 0x32, 0x33, 0x34, 0x35, 0x36]) == Value(0xF68D2C9E, 32)
    ensures Register(ALL_ONES, [0x31, 0x32, 0x33, 0x34, 0x35, 0x36, 0x37, 0x38, 0x39]) == Value(0x340BC6D9, 32)
  {
    DigitBytes();
    DigitRegisters();
    hide EightSteps, XorWord, NextByte, LowByte, Value, Register;
    NextDigit([0x31, 0x32, 0x33, 0x34, 0x35, 0x36], 0xF68D2C9E, 0x37, 0x37, 0xAFFC9660);
    assert [0x31, 0x32, 0x33, 0x34, 0x35, 0x36] + [0x37] == [0x31, 0x32, 0x33, 0x34, 0x35, 0x36, 0x37];
    NextDigit([0x31, 0x32, 0x33, 0x34, 0x35, 0x36, 0x37], 0xAFFC9660, 0x38, 0x38, 0x651F2550);
    assert [0x31, 0x32, 0x33, 0x34, 0x35, 0x36, 0x37] + [0x38] == [0x31, 0x32, 0x33, 0x34, 0x35, 0x36, 0x37, 0x38];
    NextDigit([0x31, 0x32, 0x33, 0x34, 0x35, 0x36, 0x37, 0x38], 0x651F2550, 0x39, 0x39, 0x340BC6D9);
    assert [0x31, 0x32, 0x33, 0x34, 0x35, 0x36, 0x37, 0x38] + [0x39]
        == [0x31, 0x32, 0x33, 0x34, 0x35, 0x36, 0x37, 0x38, 0x39];
  }

  lemma NothingAbsorbed()
    ensures Register(ALL_ONES, []) == ALL_ONES
  {
  }

  /** The check value of the nine bytes "123456789". */
  lemma CheckValue()
    ensures Checksum([0x31, 0x32, 0x33, 0x34, 0x35, 0x36, 0x37, 0x38, 0x39]) == 0xCBF4_3926
  {
    hide Register, Xor, Value;
    FirstDigits();
    MiddleDigits();
    LastDigits();
    Complement(0x340BC6D9, 0xCBF4_3926);
    CheckNumber();
  }

  lemma CheckNumber()
    ensures Value(0xCBF4_3926, 32) == 0xCBF4_3926
  {
    FromBytes(0xCBF4_3926, 0xCBF439, 0xCBF4, 0xCB, 0x26, 0x39, 0xF4, 0xCB);
  }

  function Zeros(n: nat): (data: seq<byte>)
    ensures |data| == n
  {
    seq(n, _ => 0)
  }

  lemma {:induction false} WordOfZeros(n: nat)
    ensures Word(Zeros(n)) == 0
  {
    if n > 0 {
      assert Zeros(n)[1..] == Zeros(n - 1);
      WordOfZeros(n - 1);
    }
  }

  /** Zero bytes only step the register. */
  lemma ZerosOnlyStep(crc: bv32, n: nat)
    ensures Register(Value(crc, 32), Zeros(n)) == Value(StepsWord(crc, 8 * n), 32)
  {
    hide Value, StepsWord;
    WordOfZeros(n);
    AbsorbsAsWord(Value(crc, 32), Zeros(n));
    StepsAgree(crc, 8 * n);
  }

  lemma EightMore(crc: bv32, n: nat)
    ensures StepsWord(crc, n + 8) == EightSteps(StepsWord(crc, n))
  {
    hide StepWord;
    var s := StepsWord(crc, n);
    assert StepsWord(crc, n + 1) == StepWord(s);
    assert StepsWord(crc, n + 2) == StepWord(StepsWord(crc, n + 1));
    assert StepsWord(crc, n + 3) == StepWord(StepsWord(crc, n + 2));
    assert StepsWord(crc, n + 4) == StepWord(StepsWord(crc, n + 3));
    assert StepsWord(crc, n + 5) == StepWord(StepsWord(crc, n + 4));
    assert StepsWord(crc, n + 6) == StepWord(StepsWord(crc, n + 5));
    assert StepsWord(crc, n + 7) == StepWord(StepsWord(crc, n + 6));
  }

  /** The registers after every four zero bytes. */
  lemma ZeroRegisters()
    ensures EightSteps(EightSteps(EightSteps(EightSteps(ONES_WORD)))) == 0xDEBB20E3
    ensures EightSteps(EightSteps(EightSteps(EightSteps(0xDEBB20E3)))) == 0x9ADD2096
    ensures EightSteps(EightSteps(EightSteps(EightSteps(0x9ADD2096)))) == 0x842A3990
    ensures EightSteps(EightSteps(EightSteps(EightSteps(0x842A3990)))) == 0x1344B4AA
    ensures EightSteps(EightSteps(EightSteps(EightSteps(0x1344B4AA)))) == 0xF02A6472
    ensures EightSteps(EightSteps(EightSteps(EightSteps(0xF02A6472)))) == 0x5C3E35DF
    ensures EightSteps(EightSteps(EightSteps(EightSteps(0x5C3E35DF)))) == 0x7F8F8816
    ensures EightSteps(EightSteps(EightSteps(EightSteps(0x7F8F8816)))) == 0xE6F5AA52
  {
    assert EightSteps(ONES_WORD) == 0x2DFD1072;
    assert EightSteps(0x2DFD1072) == 0xBE26ED00;
    assert EightSteps(0xBE26ED00) == 0x00BE26ED;
    assert EightSteps(0x00BE26ED) == 0xDEBB20E3;
    assert EightSteps(0xDEBB20E3) == 0x39DD08E2;
    assert EightSteps(0x39DD08E2) == 0x4E3D5E5C;
    assert EightSteps(0x4E3D5E5C) == 0x62932081;
    assert EightSteps(0x62932081) == 0x9ADD2096;
    assert EightSteps(0x9ADD2096) == 0x19F6EB51;
    assert EightSteps(0x19F6EB51) == 0x1C759789;
    assert EightSteps(0x1C759789) == 0x94784E13;
    assert EightSteps(0x94784E13) == 0x842A3990;
    assert EightSteps(0x842A3990) == 0xF08BB97D;
    assert EightSteps(0xF08BB97D) == 0x2E448638;
    assert EightSteps(0x2E448638) == 0x282CFC18;
    assert EightSteps(0x282CFC18) == 0x1344B4AA;
    assert EightSteps(0x1344B4AA) == 0x36100E42;
    assert EightSteps(0x36100E42) == 0x98E430B2;
    assert EightSteps(0x98E430B2) == 0x25F73690;
    assert EightSteps(0x25F73690) == 0xF02A6472;
    assert EightSteps(0xF02A6472) == 0xBEFB3A74;
    assert EightSteps(0xBEFB3A74) == 0x57D64E1F;
    assert EightSteps(0x57D64E1F) == 0x8D5FDBBB;
    assert EightSteps(0x8D5FDBBB) == 0x5C3E35DF;
    assert EightSteps(0x5C3E35DF) == 0x1630F170;
    assert EightSteps(0x1630F170) == 0x501341CD;
    assert EightSteps(0x501341CD) == 0xE585AD4C;
    assert EightSteps(0xE585AD4C) == 0x7F8F8816;
    assert EightSteps(0x7F8F8816) == 0xF4AB3AD9;
    assert EightSteps(0xF4AB3AD9) == 0xFFFBC14A;
    assert EightSteps(0xFFFBC14A) == 0x96F6534F;
    assert EightSteps(0x96F6534F) == 0xE6F5AA52;
  }

  lemma FourMore(crc: bv32, n: nat)
    ensures StepsWord(crc, n + 32) == EightSteps(EightSteps(EightSteps(EightSteps(StepsWord(crc, n)))))
  {
    hide EightSteps, StepsWord;
    EightMore(crc, n);
    EightMore(crc, n + 8);
    EightMore(crc, n + 16);
    EightMore(crc, n + 24);
  }

  lemma ZeroSteps()
    ensures StepsWord(ONES_WORD, 256) == 0xE6F5AA52
  {
    ZeroRegisters();
    hide EightSteps, StepsWord;
    NoSteps(ONES_WORD);
    FourMore(ONES_WORD, 0);
    FourMore(ONES_WORD, 32);
    FourMore(ONES_WORD, 64);
    FourMore(ONES_WORD, 96);
    FourMore(ONES_WORD, 128);
    FourMore(ONES_WORD, 160);
    FourMore(ONES_WORD, 192);
    FourMore(ONES_WORD, 224);
  }

  lemma NoSteps(crc: bv32)
    ensures StepsWord(crc, 0) == crc
  {
  }

  /** The checksum of thirty-two zero bytes. */
  lemma ZerosValue()
    ensures Checksum(Zeros(32)) == 0x190A_55AD
  {
    hide Register, Xor, Value, StepsWord, Zeros;
    OnesNumber();
    ZeroSteps();
    ZerosOnlyStep(ONES_WORD, 32);
    OneZero();
    Complement(0xE6F5AA52, 0x190A_55AD);
    ZerosNumber();
  }

  /** The checksum of one zero byte. */
  lemma ZeroValue()
    ensures Checksum([0]) == 0xD202_EF8D
  {
    hide Register, Xor, Value, StepsWord;
    OnesNumber();
    NoSteps(ONES_WORD);
    EightMore(ONES_WORD, 0);
    ZerosOnlyStep(ONES_WORD, 1);
    OneZero();
    assert Zeros(1) == [0];
    Complement(0x2DFD1072, 0xD202_EF8D);
    ZeroNumber();
  }

  lemma OneZero()
    ensures EightSteps(ONES_WORD) == 0x2DFD1072
    ensures XorWord(0x2DFD1072, ONES_WORD) == 0xD202_EF8D && XorWord(0xE6F5AA52, ONES_WORD) == 0x190A_55AD
  {
  }

  lemma ZerosNumber()
    ensures Value(0x190A_55AD, 32) == 0x190A_55AD
  {
    FromBytes(0x190A_55AD, 0x190A55, 0x190A, 0x19, 0xAD, 0x55, 0x0A, 0x19);
  }

  lemma ZeroNumber()
    ensures Value(0xD202_EF8D, 32) == 0xD202_EF8D
  {
    FromBytes(0xD202_EF8D, 0xD202EF, 0xD202, 0xD2, 0x8D, 0xEF, 0x02, 0xD2);
  }
}
