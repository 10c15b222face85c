/**
 Bitwise operators on machine words, with the words taken as natural numbers. A word of `n` bits is a
 natural number below `Pow2(n)`; every operator is fixed by what it does to each single bit.
 */
module Bits {
  import opened Prelude

  function Pow2(n: nat): (p: nat)
    ensures p >= 1
  {
    if n == 0 then 1 else 2 * Pow2(n - 1)
  }

  predicate TestBit(v: nat, j: nat) {
    if j == 0 then v % 2 == 1 else TestBit(v / 2, j - 1)
  }

  function And(a: nat, b: nat): nat {
    if a == 0 || b == 0 then 0 else 2 * And(a / 2, b / 2) + (if a % 2 == 1 && b % 2 == 1 then 1 else 0)
  }

  function Or(a: nat, b: nat): nat {
    if a == 0 then b else if b == 0 then a
    else 2 * Or(a / 2, b / 2) + (if a % 2 == 1 || b % 2 == 1 then 1 else 0)
  }

  function Xor(a: nat, b: nat): nat {
    if a == 0 then b else if b == 0 then a
    else 2 * Xor(a / 2, b / 2) + (if a % 2 != b % 2 then 1 else 0)
  }

  /** The number moved up by `count` bits, with room for every bit. */
  function Up(v: nat, count: nat): nat {
    if count == 0 then v else 2 * Up(v, count - 1)
  }

  /** Left shift of a `width`-bit word: the bits that leave the word are lost. */
  function Shl(v: nat, count: nat, width: nat): nat {
    Up(v, count) % Pow2(width)
  }

  /** Right shift, zero filling. */
  function Shr(v: nat, count: nat): nat {
    if count == 0 then v else Shr(v / 2, count - 1)
  }

  lemma {:induction false} ZeroHasNoBits(j: nat)
    ensures !TestBit(0, j)
  {
    if j > 0 { ZeroHasNoBits(j - 1); }
  }

  lemma {:induction false} AndBit(a: nat, b: nat, j: nat)
    ensures TestBit(And(a, b), j) <==> TestBit(a, j) && TestBit(b, j)
  {
    if a == 0 || b == 0 {
      ZeroHasNoBits(j);
    } else if j > 0 {
      AndBit(a / 2, b / 2, j - 1);
    }
  }

  lemma {:induction false} OrBit(a: nat, b: nat, j: nat)
    ensures TestBit(Or(a, b), j) <==> TestBit(a, j) || TestBit(b, j)
  {
    if a == 0 || b == 0 {
      ZeroHasNoBits(j);
    } else if j > 0 {
      OrBit(a / 2, b / 2, j - 1);
    }
  }

  lemma {:induction false} XorBit(a: nat, b: nat, j: nat)
    ensures TestBit(Xor(a, b), j) <==> TestBit(a, j) != TestBit(b, j)
  {
    if a == 0 || b == 0 {
      ZeroHasNoBits(j);
    } else if j > 0 {
      XorBit(a / 2, b / 2, j - 1);
    }
  }

  lemma {:induction false} OrBelow(a: nat, b: nat, n: nat)
    requires a < Pow2(n) && b < Pow2(n)
    ensures Or(a, b) < Pow2(n)
  {
    if a != 0 && b != 0 { OrBelow(a / 2, b / 2, n - 1); }
  }

  lemma {:induction false} XorBelow(a: nat, b: nat, n: nat)
    requires a < Pow2(n) && b < Pow2(n)
    ensures Xor(a, b) < Pow2(n)
  {
    if a != 0 && b != 0 { XorBelow(a / 2, b / 2, n - 1); }
  }

  /** Exclusive or is an Abelian group in which every word is its own inverse. */
  lemma {:induction false} XorSelf(a: nat)
    ensures Xor(a, a) == 0
  {
    if a != 0 { XorSelf(a / 2); }
  }

  lemma {:induction false} XorComm(a: nat, b: nat)
    ensures Xor(a, b) == Xor(b, a)
  {
    if a != 0 && b != 0 { XorComm(a / 2, b / 2); }
  }

  lemma {:induction false} XorHalves(a: nat, b: nat)
    ensures Xor(a, b) / 2 == Xor(a / 2, b / 2)
    ensures Xor(a, b) % 2 == (if a % 2 != b % 2 then 1 else 0)
  {
    if a == 0 {
    } else if b == 0 {
      assert Xor(a / 2, 0) == a / 2;
    } else {
      DoublePlus(Xor(a / 2, b / 2), if a % 2 != b % 2 then 1 else 0);
    }
  }

  lemma DoublePlus(x: nat, bit: nat)
    requires bit <= 1
    ensures (2 * x + bit) / 2 == x && (2 * x + bit) % 2 == bit
  {
  }

  lemma {:induction false} XorAssoc(a: nat, b: nat, c: nat)
    ensures Xor(Xor(a, b), c) == Xor(a, Xor(b, c))
    decreases a + b + c
  {
    if a != 0 && b != 0 && c != 0 {
      XorHalves(a, b);
      XorHalves(b, c);
      XorHalves(Xor(a, b), c);
      XorHalves(a, Xor(b, c));
      XorAssoc(a / 2, b / 2, c / 2);
    }
  }

  lemma XorCancel(a: nat, b: nat, c: nat)
    requires Xor(a, c) == Xor(b, c)
    ensures a == b
  {
    XorAssoc(a, c, c);
    XorAssoc(b, c, c);
    XorSelf(c);
  }

  /** A mask of `k` low ones reads off the remainder modulo `2^k`. */
  lemma {:induction false} MaskIsRemainder(v: nat, k: nat)
    ensures And(v, Pow2(k) - 1) == v % Pow2(k)
  {
    if v != 0 && k > 0 {
      MaskIsRemainder(v / 2, k - 1);
      var m := Pow2(k - 1);
      assert Pow2(k) == 2 * m;
      assert (2 * m - 1) / 2 == m - 1 && (2 * m - 1) % 2 == 1;
      HalveRemainder(v, m);
    }
  }

  lemma HalveRemainder(v: nat, m: nat)
    requires m > 0
    ensures v % (2 * m) == 2 * (v / 2 % m) + v % 2
  {
    var q, r := v / 2 / m, v / 2 % m;
    assert v / 2 == q * m + r;
    assert v == (2 * m) * q + (2 * r + v % 2) by {
      assert 2 * (q * m) == (2 * m) * q;
    }
    RemainderUnique(v, 2 * m, q, 2 * r + v % 2);
  }

  lemma RemainderUnique(v: int, m: nat, q: int, r: int)
    requires m > 0 && v == m * q + r && 0 <= r < m
    ensures v % m == r && v / m == q
  {
    var d := v / m - q;
    assert v == m * (v / m) + v % m;
    assert m * d == r - v % m by {
      assert m * d == m * (v / m) - m * q;
    }
    MultiplesLeaveTheInterval(m, d);
  }

  lemma MultiplesLeaveTheInterval(m: int, d: int)
    requires m > 0
    ensures d >= 1 ==> m * d >= m
    ensures d <= -1 ==> m * d <= -m
  {
    if d >= 1 { assert m * (d - 1) >= 0; }
    if d <= -1 { assert m * (-1 - d) >= 0; }
  }

  lemma {:induction false} Pow2Monotone(a: nat, b: nat)
    requires a <= b
    ensures Pow2(a) <= Pow2(b)
  {
    if a < b { Pow2Monotone(a, b - 1); }
  }

  lemma {:induction false} Pow2Add(a: nat, b: nat)
    ensures Pow2(a + b) == Pow2(a) * Pow2(b)
  {
    if a > 0 { Pow2Add(a - 1, b); }
  }

  lemma {:induction false} ShrBit(v: nat, count: nat, j: nat)
    ensures TestBit(Shr(v, count), j) <==> TestBit(v, j + count)
    decreases count
  {
    if count > 0 { ShrBit(v / 2, count - 1, j); }
  }

  /** A right shift drops the low bits and keeps the others: it is division by a power of two. */
  lemma {:induction false} ShrDivides(v: nat, count: nat)
    ensures v == Up(Shr(v, count), count) + v % Pow2(count)
    decreases count
  {
    if count > 0 {
      ShrDivides(v / 2, count - 1);
      HalveRemainder(v, Pow2(count - 1));
    } else {
      assert v % 1 == 0;
    }
  }

  lemma {:induction false} TruncateBit(v: nat, n: nat, j: nat)
    ensures TestBit(v % Pow2(n), j) <==> j < n && TestBit(v, j)
  {
    if n == 0 {
      assert v % 1 == 0;
      ZeroHasNoBits(j);
    } else {
      HalveRemainder(v, Pow2(n - 1));
      if j > 0 { TruncateBit(v / 2, n - 1, j - 1); }
    }
  }

  lemma {:induction false} UpBit(v: nat, count: nat, j: nat)
    ensures TestBit(Up(v, count), j) <==> j >= count && TestBit(v, j - count)
    decreases count
  {
    if count > 0 && j > 0 { UpBit(v, count - 1, j - 1); }
  }

  lemma ShlBit(v: nat, count: nat, width: nat, j: nat)
    ensures TestBit(Shl(v, count, width), j) <==> count <= j < width && TestBit(v, j - count)
  {
    TruncateBit(Up(v, count), width, j);
    UpBit(v, count, j);
  }

  lemma {:induction false} SingleBit(k: nat, j: nat)
    ensures TestBit(Pow2(k), j) <==> j == k
  {
    if k > 0 && j > 0 { SingleBit(k - 1, j - 1); }
    else if k == 0 && j > 0 { ZeroHasNoBits(j - 1); }
  }

  lemma {:induction false} BitsAboveWidth(v: nat, n: nat, j: nat)
    requires v < Pow2(n) && j >= n
    ensures !TestBit(v, j)
  {
    if n == 0 { ZeroHasNoBits(j); } else { BitsAboveWidth(v / 2, n - 1, j - 1); }
  }

  /** Testing a word against a one-bit mask reads that bit. */
  lemma {:induction false} MaskTest(v: nat, k: nat)
    ensures And(v, Pow2(k)) != 0 <==> TestBit(v, k)
  {
    if v == 0 {
      ZeroHasNoBits(k);
    } else if k > 0 {
      MaskTest(v / 2, k - 1);
    } else {
      assert And(v / 2, 0) == 0;
    }
  }

  lemma {:induction false} NoLowBits(v: nat, n: nat)
    requires forall j: nat :: j < n ==> !TestBit(v, j)
    ensures v % Pow2(n) == 0
  {
    if n > 0 {
      assert !TestBit(v, 0);
      forall j: nat | j < n - 1 ensures !TestBit(v / 2, j) { assert !TestBit(v, j + 1); }
      NoLowBits(v / 2, n - 1);
      HalveRemainder(v, Pow2(n - 1));
    } else {
      assert v % 1 == 0;
    }
  }

  lemma {:induction false} NoHighBits(v: nat, n: nat)
    requires forall j: nat :: j >= n ==> !TestBit(v, j)
    ensures v < Pow2(n)
    decreases v
  {
    if v > 0 {
      if n == 0 {
        assert !TestBit(v, 0);
        forall j: nat ensures !TestBit(v / 2, j) { assert !TestBit(v, j + 1); }
        NoHighBits(v / 2, 0);
      } else {
        forall j: nat | j >= n - 1 ensures !TestBit(v / 2, j) { assert !TestBit(v, j + 1); }
        NoHighBits(v / 2, n - 1);
      }
    }
  }

  lemma {:induction false} TopBitSet(v: nat, n: nat)
    requires Pow2(n) <= v < 2 * Pow2(n)
    ensures TestBit(v, n)
  {
    if n > 0 { TopBitSet(v / 2, n - 1); }
  }

  lemma UpByte(v: nat)
    ensures Up(v, 8) == 256 * v && Pow2(8) == 256
  {
    assert Up(v, 1) == 2 * v;
    assert Up(v, 2) == 4 * v;
    assert Up(v, 3) == 8 * v;
    assert Up(v, 4) == 16 * v;
    assert Up(v, 5) == 32 * v;
    assert Up(v, 6) == 64 * v;
    assert Up(v, 7) == 128 * v;
  }

  /** The bits of two words laid end to end. */
  lemma {:induction false} JoinBit(low: nat, high: nat, n: nat, j: nat)
    requires low < Pow2(n)
    ensures TestBit(low + Up(high, n), j) <==> if j < n then TestBit(low, j) else TestBit(high, j - n)
    decreases n
  {
    if n > 0 {
      var z := Up(high, n - 1);
      assert (low + 2 * z) / 2 == low / 2 + z && (low + 2 * z) % 2 == low % 2;
      if j > 0 { JoinBit(low / 2, high, n - 1, j - 1); }
    }
  }

  lemma {:induction false} XorDisjoint(low: nat, high: nat, n: nat)
    requires low < Pow2(n)
    ensures Xor(low, Up(high, n)) == low + Up(high, n)
    decreases n
  {
    if n > 0 {
      XorDisjoint(low / 2, high, n - 1);
      XorWithEven(low, Up(high, n - 1));
    }
  }

  lemma XorWithEven(low: nat, z: nat)
    requires Xor(low / 2, z) == low / 2 + z
    ensures Xor(low, 2 * z) == low + 2 * z
  {
    DoublePlus(z, 0);
    XorHalves(low, 2 * z);
    HalvesAdd(Xor(low, 2 * z), low, z);
  }

  lemma HalvesAdd(x: nat, low: nat, z: nat)
    requires x / 2 == low / 2 + z && x % 2 == low % 2
    ensures x == low + 2 * z
  {
  }

  /** The machine words in use. */
  lemma WordWidths()
    ensures Pow2(8) == 256 && Pow2(32) == U32_LIMIT && Pow2(64) == U64_LIMIT
  {
    assert Pow2(4) == 16;
    Pow2Add(4, 4);
    Pow2Add(8, 8);
    Pow2Add(16, 16);
    Pow2Add(32, 32);
  }
}
