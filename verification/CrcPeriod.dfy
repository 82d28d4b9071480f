/** The order of x modulo the generator polynomial, and with it the detection of two and of three
    flipped bits. */
module CrcPeriod {
  import opened Bits
  import opened Gf2
  import opened Crc

  // ----- registers as bit vectors, for calculations

  /** The number in the low `n` bits of a register. */
  function Value(v: bv16, n: nat): nat
  {
    if n == 0 then 0 else 2 * Value(v >> 1, n - 1) + Digit(v & 1 == 1)
  }

  lemma ValueStep(v: bv16, n: nat)
    ensures Value(v, n + 1) == 2 * Value(v >> 1, n) + Digit(v & 1 == 1)
  {
  }

  lemma NoneLeft(v: bv16)
    ensures Value(v, 0) == 0
  {
  }

  lemma ShiftXor(a: bv16, b: bv16)
    ensures (a ^ b) >> 1 == (a >> 1) ^ (b >> 1)
    ensures (a ^ b) & 1 == 1 <==> (a & 1 == 1) != (b & 1 == 1)
  {
  }

  lemma ShiftAnd(a: bv16, b: bv16)
    ensures (a & b) >> 1 == (a >> 1) & (b >> 1)
    ensures b & 1 == 1 ==> (a & b) & 1 == a & 1
    ensures b & 1 == 0 ==> (a & b == 0 <==> (a >> 1) & (b >> 1) == 0)
  {
  }

  lemma XorOfSums(a: nat, b: nat, p: bool, q: bool)
    ensures Xor(2 * a + Digit(p), 2 * b + Digit(q)) == 2 * Xor(a, b) + Digit(p != q)
  {
    var x, y := 2 * a + Digit(p), 2 * b + Digit(q);
    XorStep(x, y);
    assert x / 2 == a && y / 2 == b;
    hide Xor;
  }

  lemma {:induction false} ValueXor(a: bv16, b: bv16, n: nat)
    ensures Value(a ^ b, n) == Xor(Value(a, n), Value(b, n))
    decreases n
  {
    hide Xor, Digit, Value;
    if n == 0 {
      NoneLeft(a);
      NoneLeft(b);
      NoneLeft(a ^ b);
      XorZero(0);
    } else {
      ValueXor(a >> 1, b >> 1, n - 1);
      ShiftXor(a, b);
      ValueStep(a, n - 1);
      ValueStep(b, n - 1);
      ValueStep(a ^ b, n - 1);
      XorOfSums(Value(a >> 1, n - 1), Value(b >> 1, n - 1), a & 1 == 1, b & 1 == 1);
    }
  }

  lemma {:induction false} ValueBound(v: bv16, n: nat)
    ensures Value(v, n) < Pow2(n)
  {
    if n > 0 {
      ValueBound(v >> 1, n - 1);
    }
  }

  lemma {:induction false} ValueZero(n: nat)
    ensures Value(0, n) == 0
  {
    if n > 0 {
      ValueZero(n - 1);
    }
  }

  /** The low `n` bits of `mask` are ones. */
  predicate Ones(mask: bv16, n: nat)
  {
    n == 0 || (mask & 1 == 1 && Ones(mask >> 1, n - 1))
  }

  lemma {:induction false} ValueMasked(v: bv16, mask: bv16, n: nat)
    requires Ones(mask, n)
    ensures Value(v & mask, n) == Value(v, n)
    decreases n
  {
    if n > 0 {
      ShiftAnd(v, mask);
      ValueMasked(v >> 1, mask >> 1, n - 1);
    }
  }

  /** `bit` is the bit number `n` alone. */
  predicate IsBit(bit: bv16, n: nat)
  {
    if n == 0 then bit == 1 else bit & 1 == 0 && IsBit(bit >> 1, n - 1)
  }

  lemma OneBit(v: bv16)
    ensures v & 1 == 0 || v & 1 == 1
  {
  }

  lemma {:induction false} ValueTop(v: bv16, bit: bv16, n: nat)
    requires IsBit(bit, n)
    ensures Value(v, n + 1) == Value(v, n) + if v & bit == 0 then 0 else Pow2(n)
    decreases n
  {
    if n == 0 {
      OneBit(v);
      assert Value(v >> 1, 0) == 0;
    } else {
      ShiftAnd(v, bit);
      ValueTop(v >> 1, bit >> 1, n - 1);
    }
  }

  lemma OnesNext(mask: bv16, n: nat)
    requires mask & 15 == 15 && Ones(mask >> 4, n)
    ensures Ones(mask, n + 4)
  {
    assert (((mask >> 1) >> 1) >> 1) >> 1 == mask >> 4;
    assert mask & 1 == 1 && (mask >> 1) & 1 == 1 && ((mask >> 1) >> 1) & 1 == 1 && (((mask >> 1) >> 1) >> 1) & 1 == 1;
    assert Ones(((mask >> 1) >> 1) >> 1, n + 1);
    assert Ones((mask >> 1) >> 1, n + 2);
    assert Ones(mask >> 1, n + 3);
  }

  lemma IsBitNext(bit: bv16, n: nat)
    requires bit & 15 == 0 && IsBit(bit >> 4, n)
    ensures IsBit(bit, n + 4)
  {
    assert (((bit >> 1) >> 1) >> 1) >> 1 == bit >> 4;
    assert bit & 1 == 0 && (bit >> 1) & 1 == 0 && ((bit >> 1) >> 1) & 1 == 0 && (((bit >> 1) >> 1) >> 1) & 1 == 0;
    assert IsBit(((bit >> 1) >> 1) >> 1, n + 1);
    assert IsBit((bit >> 1) >> 1, n + 2);
    assert IsBit(bit >> 1, n + 3);
  }

  lemma Masks()
    ensures Ones(0x7FFF, 15) && IsBit(0x8000, 15)
  {
    assert Ones(1, 1);
    assert Ones(3, 2);
    assert Ones(7, 3);
    OnesNext(0x7F, 3);
    OnesNext(0x7FF, 7);
    OnesNext(0x7FFF, 11);
    assert IsBit(2, 1);
    assert IsBit(4, 2);
    assert IsBit(8, 3);
    IsBitNext(0x80, 3);
    IsBitNext(0x800, 7);
    IsBitNext(0x8000, 11);
  }

  /** The number in four bits. */
  function Nibble(v: bv16): nat
  {
    8 * Digit(v & 8 != 0) + 4 * Digit(v & 4 != 0) + 2 * Digit(v & 2 != 0) + Digit(v & 1 != 0)
  }

  lemma ValueNibble(v: bv16, n: nat)
    ensures Value(v, n + 4) == 16 * Value(v >> 4, n) + Nibble(v)
  {
    assert (((v >> 1) >> 1) >> 1) >> 1 == v >> 4;
    assert v & 1 == 1 <==> v & 1 != 0;
    assert (v >> 1) & 1 == 1 <==> v & 2 != 0;
    assert ((v >> 1) >> 1) & 1 == 1 <==> v & 4 != 0;
    assert (((v >> 1) >> 1) >> 1) & 1 == 1 <==> v & 8 != 0;
    assert Value(((v >> 1) >> 1) >> 1, n + 1) == 2 * Value(v >> 4, n) + Digit(v & 8 != 0);
    assert Value((v >> 1) >> 1, n + 2) == 4 * Value(v >> 4, n) + 2 * Digit(v & 8 != 0) + Digit(v & 4 != 0);
  }

  /** The polynomial in a register. */
  function P(v: bv16): (p: uint16)
  {
    ValueBound(v, 16); Pow2Values(); Value(v, 16)
  }

  lemma Quarters(v: bv16)
    ensures (v >> 4) >> 4 == v >> 8 && (v >> 8) >> 4 == v >> 12
  {
  }

  lemma PNibbles(v: bv16)
    ensures P(v) as int == 0x1000 * Nibble(v >> 12) + 0x100 * Nibble(v >> 8) + 0x10 * Nibble(v >> 4) + Nibble(v)
  {
    hide Nibble, Value;
    Quarters(v);
    NoneLeft((v >> 12) >> 4);
    ValueNibble(v, 12);
    ValueNibble(v >> 4, 8);
    ValueNibble(v >> 8, 4);
    ValueNibble(v >> 12, 0);
  }

  lemma Constants()
    ensures P(0x1021) == 0x1021 && P(2) == 2 && P(1) == 1
  {
    PNibbles(0x1021);
    PNibbles(2);
    PNibbles(1);
  }

  // ----- the division step and multiplication on registers

  function Sum(a: bv16, b: bv16): bv16
  {
    a ^ b
  }

  function Twice(r: bv16): bv16
  {
    r << 1
  }

  function Step(r: bv16): bv16
  {
    if r & 0x8000 == 0 then Twice(r) else Sum(Twice(r), 0x1021)
  }

  lemma ShiftedOut(r: bv16)
    ensures (r << 1) >> 1 == r & 0x7FFF && (r << 1) & 1 == 0
  {
  }

  lemma Doubled(r: bv16)
    ensures P(Twice(r)) as int == 2 * Value(r, 15)
    ensures P(r) as int == Value(r, 15) + if r & 0x8000 == 0 then 0 else 0x8000
  {
    hide Value, Ones, IsBit;
    Masks();
    Pow2Values();
    ValueMasked(r, 0x7FFF, 15);
    ValueTop(r, 0x8000, 15);
    ShiftedOut(r);
    ValueStep(r << 1, 15);
  }

  lemma PXor(a: bv16, b: bv16)
    ensures P(Sum(a, b)) == Xor(P(a), P(b))
  {
    hide Value, Xor;
    ValueXor(a, b, 16);
  }

  lemma StepIsShift(r: bv16)
    ensures P(Step(r)) == ShiftStep(P(r))
  {
    Doubled(r);
    ValueBound(r, 15);
    Pow2Values();
    Constants();
    PXor(Twice(r), 0x1021);
    hide Xor, Value, P, Twice, Sum, ShiftStep;
    ShiftStepOf(P(r), Value(r, 15));
  }

  lemma ShiftStepOf(p: uint16, low: nat)
    requires low < 0x8000
    ensures p as int == low ==> ShiftStep(p) as int == 2 * low
    ensures p as int == low + 0x8000 ==> ShiftStep(p) as int == Xor(2 * low, POLYNOMIAL)
  {
    hide Xor;
  }

  /** One bit of a multiplication by Horner's rule. */
  function Pass(acc: bv16, r: bv16, b: bool): bv16
  {
    if b then Sum(Step(acc), r) else Step(acc)
  }

  function FourPasses(acc: bv16, r: bv16, s: bv16): bv16
  {
    Pass(Pass(Pass(Pass(acc, r, s & 8 != 0), r, s & 4 != 0), r, s & 2 != 0), r, s & 1 != 0)
  }

  /** The product of two remainders. */
  function Product(r: bv16, s: bv16): bv16
  {
    FourPasses(FourPasses(FourPasses(FourPasses(0, r, s >> 12), r, s >> 8), r, s >> 4), r, s)
  }

  /** The polynomial x^k. */
  function X(k: nat): Poly
  {
    Shl(1, k)
  }

  /** `r` is the remainder of x^k. */
  ghost predicate Power(k: nat, r: bv16)
  {
    Congruent(X(k), P(r))
  }

  lemma StepCongruence(t: Poly, a: nat, acc: bv16)
    requires Congruent(Shl(t, a), P(acc))
    ensures Congruent(Shl(2 * t, a), P(Step(acc)))
  {
    hide Shl, P, Step, ShiftStep, Congruent;
    ShlNone(t);
    ShlShl(t, 1, a);
    ShlShl(t, a, 1);
    CongruentShl(Shl(t, a), P(acc), 1);
    StepCongruent(P(acc));
    StepIsShift(acc);
    CongruentTrans(Shl(2 * t, a), Shl(P(acc), 1), P(Step(acc)));
  }

  lemma PassCongruent(t: Poly, a: nat, acc: bv16, r: bv16, b: bool)
    requires Congruent(Shl(t, a), P(acc)) && Power(a, r)
    ensures Congruent(Shl(2 * t + Digit(b), a), P(Pass(acc, r, b)))
  {
    hide Shl, P, Step, Congruent, Power, Xor, Sum;
    StepCongruence(t, a, acc);
    if b {
      PXor(Step(acc), r);
      PassOne(t, a, Step(acc), r, Sum(Step(acc), r));
    }
  }

  lemma PassOne(t: Poly, a: nat, acc: bv16, r: bv16, sum: bv16)
    requires Congruent(Shl(2 * t, a), P(acc)) && Power(a, r) && P(sum) == Xor(P(acc), P(r))
    ensures Congruent(Shl(2 * t + 1, a), P(sum))
  {
    hide Shl, P, Congruent, Xor, X;
    PlusPower(t, a);
    CongruentSum(Shl(2 * t, a), P(acc), X(a), P(r));
  }

  lemma PlusPower(t: Poly, a: nat)
    ensures Shl(2 * t + 1, a) == Xor(Shl(2 * t, a), X(a))
  {
    Pow2Values();
    ShlNone(t);
    hide Shl, Xor;
    XorIsSum(t, 1, 1);
    XorShl(2 * t, 1, a);
  }

  lemma CongruentSum(a: Poly, b: Poly, c: Poly, d: Poly)
    requires Congruent(a, b) && Congruent(c, d)
    ensures Congruent(Xor(a, c), Xor(b, d))
  {
    hide Xor, Congruent;
    CongruentXor(a, b, c);
    CongruentXor(c, d, b);
    XorComm(c, b);
    XorComm(d, b);
    CongruentTrans(Xor(a, c), Xor(b, c), Xor(b, d));
  }

  lemma FourCongruent(t: Poly, a: nat, acc: bv16, r: bv16, s: bv16)
    requires Congruent(Shl(t, a), P(acc)) && Power(a, r)
    ensures Congruent(Shl(16 * t + Nibble(s), a), P(FourPasses(acc, r, s)))
  {
    hide Shl, P, Step, Congruent, Pass, Power;
    var b3, b2, b1, b0 := s & 8 != 0, s & 4 != 0, s & 2 != 0, s & 1 != 0;
    var t1 := 2 * t + Digit(b3);
    var t2 := 2 * t1 + Digit(b2);
    var t3 := 2 * t2 + Digit(b1);
    var acc1 := Pass(acc, r, b3);
    var acc2 := Pass(acc1, r, b2);
    PassCongruent(t, a, acc, r, b3);
    PassCongruent(t1, a, acc1, r, b2);
    PassCongruent(t2, a, acc2, r, b1);
    PassCongruent(t3, a, Pass(acc2, r, b1), r, b0);
    assert 2 * t3 + Digit(b0) == 16 * t + Nibble(s);
  }

  /** Multiplying remainders multiplies powers. */
  lemma PowerProduct(a: nat, b: nat, r: bv16, s: bv16)
    requires Power(a, r) && Power(b, s)
    ensures Power(a + b, Product(r, s))
  {
    hide Shl, P, Congruent, FourPasses, Nibble;
    ShlZero(a);
    CongruentRefl(0);
    PZero();
    var acc1 := FourPasses(0, r, s >> 12);
    var acc2 := FourPasses(acc1, r, s >> 8);
    var t1 := Nibble(s >> 12);
    var t2 := 16 * t1 + Nibble(s >> 8);
    var t3 := 16 * t2 + Nibble(s >> 4);
    FourCongruent(0, a, 0, r, s >> 12);
    FourCongruent(t1, a, acc1, r, s >> 8);
    FourCongruent(t2, a, acc2, r, s >> 4);
    FourCongruent(t3, a, FourPasses(acc2, r, s >> 4), r, s);
    PNibbles(s);
    assert 16 * t3 + Nibble(s) == P(s);
    CongruentShl(X(b), P(s), a);
    ShlShl(1, b, a);
    CongruentTrans(X(a + b), Shl(P(s), a), P(Product(r, s)));
  }

  lemma PZero()
    ensures P(0) == 0
  {
    ValueZero(16);
    hide Value;
  }

  lemma Multiplied(a: nat, b: nat, r: bv16, s: bv16, q: bv16)
    requires Power(a, r) && Power(b, s) && Product(r, s) == q
    ensures Power(a + b, q)
  {
    hide Power, Product;
    PowerProduct(a, b, r, s);
  }

  // ----- powers of x

  lemma Squares()
    ensures Product(0x2, 0x2) == 0x4 && Product(0x4, 0x4) == 0x10 && Product(0x10, 0x10) == 0x100
    ensures Product(0x100, 0x100) == 0x1021 && Product(0x1021, 0x1021) == 0x3730
    ensures Product(0x3730, 0x3730) == 0xB861 && Product(0xB861, 0xB861) == 0xAEFC
    ensures Product(0xAEFC, 0xAEFC) == 0x8E29
  {
  }

  lemma LaterSquares()
    ensures Product(0x8E29, 0x8E29) == 0x13FC && Product(0x13FC, 0x13FC) == 0x36C4
    ensures Product(0x36C4, 0x36C4) == 0xFD50 && Product(0xFD50, 0xFD50) == 0xAA9E
    ensures Product(0xAA9E, 0xAA9E) == 0x881C && Product(0x881C, 0x881C) == 0x4458
    ensures Product(0x4458, 0x4458) == 0x2
  {
  }

  /** The remainders of x^(2^n), by squaring. */
  lemma PowersOfTwo()
    ensures Power(1, 0x2) && Power(8, 0x100) && Power(16, 0x1021) && Power(32, 0x3730) && Power(64, 0xB861)
    ensures Power(128, 0xAEFC) && Power(512, 0x13FC) && Power(1024, 0x36C4) && Power(4096, 0xAA9E)
    ensures Power(32768, 0x2)
  {
    hide Product, Power;
    FirstPower();
    Squares();
    LaterSquares();
    Multiplied(1, 1, 0x2, 0x2, 0x4);
    Multiplied(2, 2, 0x4, 0x4, 0x10);
    Multiplied(4, 4, 0x10, 0x10, 0x100);
    Multiplied(8, 8, 0x100, 0x100, 0x1021);
    Multiplied(16, 16, 0x1021, 0x1021, 0x3730);
    Multiplied(32, 32, 0x3730, 0x3730, 0xB861);
    Multiplied(64, 64, 0xB861, 0xB861, 0xAEFC);
    Multiplied(128, 128, 0xAEFC, 0xAEFC, 0x8E29);
    Multiplied(256, 256, 0x8E29, 0x8E29, 0x13FC);
    Multiplied(512, 512, 0x13FC, 0x13FC, 0x36C4);
    Multiplied(1024, 1024, 0x36C4, 0x36C4, 0xFD50);
    Multiplied(2048, 2048, 0xFD50, 0xFD50, 0xAA9E);
    Multiplied(4096, 4096, 0xAA9E, 0xAA9E, 0x881C);
    Multiplied(8192, 8192, 0x881C, 0x881C, 0x4458);
    Multiplied(16384, 16384, 0x4458, 0x4458, 0x2);
  }

  lemma FirstPower()
    ensures Power(1, 0x2)
  {
    Constants();
    ShlNone(1);
    hide Shl, P, Congruent;
    CongruentRefl(2);
  }

  lemma MixedProducts()
    ensures Product(0x2, 0x100) == 0x200 && Product(0x200, 0x1021) == 0x6662
    ensures Product(0x6662, 0xB861) == 0xDE8A && Product(0xDE8A, 0xAEFC) == 0x48E3
    ensures Product(0x2, 0x3730) == 0x6E60 && Product(0x6E60, 0x36C4) == 0xF2AF
    ensures Product(0x200, 0xB861) == 0x8FA6 && Product(0x8FA6, 0x13FC) == 0x4500
    ensures Product(0x4500, 0xAA9E) == 0x2C42
  {
  }

  /** x^217, x^1057 and x^4681, the exponents being 32767 without one of its primes 151, 31 and 7. */
  lemma Cofactors()
    ensures Power(217, 0x48E3) && Power(1057, 0xF2AF) && Power(4681, 0x2C42)
  {
    hide Product, Power;
    PowersOfTwo();
    MixedProducts();
    Multiplied(1, 8, 0x2, 0x100, 0x200);
    Multiplied(9, 16, 0x200, 0x1021, 0x6662);
    Multiplied(25, 64, 0x6662, 0xB861, 0xDE8A);
    Multiplied(89, 128, 0xDE8A, 0xAEFC, 0x48E3);
    Multiplied(1, 32, 0x2, 0x3730, 0x6E60);
    Multiplied(33, 1024, 0x6E60, 0x36C4, 0xF2AF);
    Multiplied(9, 64, 0x200, 0xB861, 0x8FA6);
    Multiplied(73, 512, 0x8FA6, 0x13FC, 0x4500);
    Multiplied(585, 4096, 0x4500, 0xAA9E, 0x2C42);
  }

  // ----- the exponents with remainder one

  const ORDER := 32767

  ghost predicate One(k: nat)
  {
    Congruent(X(k), 1)
  }

  lemma OneAdd(a: nat, b: nat)
    requires One(a)
    ensures One(b) <==> One(a + b)
  {
    hide Shl, Xor, Congruent;
    ShlShl(1, a, b);
    CongruentShl(X(a), 1, b);
    if One(b) {
      CongruentTrans(X(a + b), X(b), 1);
    }
    if One(a + b) {
      CongruentSym(X(a + b), X(b));
      CongruentTrans(X(b), X(a + b), 1);
    }
  }

  lemma NotOne(k: nat, r: bv16)
    requires Power(k, r) && P(r) != 1
    ensures !One(k)
  {
    hide Shl, Congruent, P, X;
    Pow2Values();
    if One(k) {
      RemainderUnique(X(k), P(r), 1);
    }
  }

  lemma CofactorsAreNotOne()
    ensures !One(217) && !One(1057) && !One(4681)
  {
    hide Power, One;
    Cofactors();
    PNibbles(0x48E3);
    PNibbles(0xF2AF);
    PNibbles(0x2C42);
    hide P;
    NotOne(217, 0x48E3);
    NotOne(1057, 0xF2AF);
    NotOne(4681, 0x2C42);
  }

  lemma OrderIsOne()
    ensures One(0) && One(ORDER)
  {
    hide Power, P, Congruent;
    PowersOfTwo();
    Constants();
    ShlNone(1);
    hide Shl;
    CongruentRefl(1);
    OneOfPower(ORDER);
  }

  /** The constant term of the generator lets x be cancelled. */
  lemma OneOfPower(k: nat)
    requires Power(k + 1, 0x2)
    ensures One(k)
  {
    Constants();
    ShlNone(1);
    hide P, Xor;
    XorShl(X(k), 1, 1);
    ShlShl(1, k, 1);
    hide Shl;
    CancelX(Xor(X(k), 1));
  }

  lemma {:induction false} OneTimes(d: nat, m: nat)
    requires One(d)
    ensures One(d * m)
    decreases m
  {
    hide One;
    if m == 0 {
      OrderIsOne();
    } else {
      OneTimes(d, m - 1);
      OneAdd(d, d * (m - 1));
      assert d * m == d + d * (m - 1);
    }
  }

  lemma {:induction false} OneModulo(d: nat, k: nat)
    requires d > 0 && One(d)
    ensures One(k % d) <==> One(k)
    decreases k
  {
    hide One;
    if k >= d {
      OneModulo(d, k - d);
      OneAdd(d, k - d);
      ModuloLess(k, d);
    }
  }

  lemma ModuloLess(k: nat, d: nat)
    requires 0 < d <= k
    ensures k % d == (k - d) % d
  {
    var q, r := (k - d) / d, (k - d) % d;
    assert k == d * (q + 1) + r;
    ModuloIs(k, d, q + 1, r);
  }

  lemma ModuloIs(k: nat, d: nat, q: nat, r: nat)
    requires r < d && k == d * q + r
    ensures k % d == r
  {
    var e := k / d - q;
    assert d * e == r - k % d;
    OneMultiple(d, e);
  }

  lemma OneMultiple(d: nat, e: int)
    ensures e > 0 ==> d * e >= d
    ensures e < 0 ==> d * e + d <= 0
  {
    if e > 0 {
      assert d * e == d + d * (e - 1);
    }
    if e < 0 {
      assert d * e + d == -(d * (-e - 1));
    }
  }

  lemma {:induction false} LeastOne(n: nat) returns (d: nat)
    requires n > 0 && One(n)
    ensures 0 < d <= n && One(d) && forall m: nat :: 0 < m < d ==> !One(m)
    decreases n
  {
    hide One;
    if m: nat :| 0 < m < n && One(m) {
      d := LeastOne(m);
    } else {
      d := n;
    }
  }

  predicate SmallDivisor(x: nat)
  {
    x == 1 || x == 7 || x == 31 || x == 151
  }

  /** The divisors of 32767 below its square root. */
  lemma SmallDivisors(x: nat)
    requires 1 <= x <= 181 && ORDER % x == 0
    ensures SmallDivisor(x)
  {
  }

  lemma NotBothLarge(d: nat, q: nat)
    ensures d > 181 && q > 181 ==> d * q > ORDER
  {
    if d > 181 && q > 181 {
      assert d * q == 182 * 182 + (d - 182) * q + 182 * (q - 182);
    }
  }

  lemma Positive(d: nat, q: nat)
    ensures d * q > 0 ==> d > 0 && q > 0
  {
  }

  lemma Factors(d: nat, q: nat)
    requires d * q == ORDER && d != ORDER
    ensures SmallDivisor(d) || d == 217 || d == 1057 || d == 4681
  {
    Positive(d, q);
    if d <= 181 {
      ModuloIs(ORDER, d, q, 0);
      SmallDivisors(d);
    } else {
      NotBothLarge(d, q);
      ModuloIs(ORDER, q, d, 0);
      SmallDivisors(q);
    }
  }

  /** x has order 32767 modulo the generator: x^k leaves the remainder one exactly when `k` is a
      multiple of it. */
  lemma OneExactly(k: nat)
    ensures One(k) <==> k % ORDER == 0
  {
    hide One;
    OrderIsOne();
    OneModulo(ORDER, k);
    if One(k) {
      var d := LeastOne(ORDER);
      OneModulo(d, ORDER);
      OneModulo(d, k);
      assert ORDER % d == 0 && k % d == 0;
      LeastIsOrder(d, ORDER / d);
    }
  }

  lemma LeastIsOrder(d: nat, q: nat)
    requires One(d) && d * q == ORDER
    ensures d == ORDER
  {
    hide One;
    CofactorsAreNotOne();
    if d != ORDER {
      Factors(d, q);
      OneTimes(d, 217 / d);
      OneTimes(d, 1057 / d);
    }
  }

  // ----- two flipped bits

  /** `a` and `b` differ in the bits `i` and `j` of the stream and in no other. */
  ghost predicate DifferAt(a: seq<byte>, b: seq<byte>, i: nat, j: nat)
    requires |a| == |b|
  {
    forall k: nat :: k < 8 * |a| ==> ((StreamBit(a, k) != StreamBit(b, k)) <==> k == i || k == j)
  }

  /** Two terms, `k` places apart. */
  lemma TwoTermsMultiple(k: nat, e: nat)
    ensures Multiple(Shl(Xor(X(k), 1), e)) <==> One(k)
  {
    hide Shl, Xor, X, Multiple;
    var t := Xor(X(k), 1);
    assert One(k) <==> Multiple(t);
    if Multiple(t) {
      XorZero(t);
      CongruentShl(t, 0, e);
      ShlZero(e);
      XorZero(Shl(t, e));
    }
    if Multiple(Shl(t, e)) {
      CancelPower(t, e);
    }
  }

  lemma XBit(k: nat, e: nat)
    ensures Bit(X(k), e) <==> e == k
  {
    ShlBit(1, k, e);
    if e > k {
      Pow2Values();
      HighBit(1, 1, e - k);
    }
    hide Shl;
  }

  lemma DifferenceOfTwo(a: seq<byte>, b: seq<byte>, i: nat, j: nat)
    requires |a| == |b| && i < j < 8 * |a| && DifferAt(a, b, i, j)
    ensures Xor(BigEndian(a), BigEndian(b)) == Shl(Xor(X(j - i), 1), 8 * |a| - 1 - j)
  {
    hide Bit, Shl, Xor, X, BigEndian;
    var d, t, e := Xor(BigEndian(a), BigEndian(b)), Xor(X(j - i), 1), 8 * |a| - 1 - j;
    forall k: nat
      ensures Bit(d, k) <==> Bit(Shl(t, e), k)
    {
      XorBit(BigEndian(a), BigEndian(b), k);
      BigEndianBit(a, k);
      BigEndianBit(b, k);
      ShlBit(t, e, k);
      if k >= e {
        XorBit(X(j - i), 1, k - e);
        XBit(j - i, k - e);
        XBit(0, k - e);
        XZero();
      }
    }
    SameBits(d, Shl(t, e));
  }

  lemma XZero()
    ensures X(0) == 1
  {
  }

  /** Two flipped bits, in a frame of any length, leave the CRC the same exactly when a multiple of
      32767 bits lies between them. */
  lemma TwoFlippedBits(a: seq<byte>, b: seq<byte>, i: nat, j: nat)
    requires |a| == |b| && i < j < 8 * |a| && DifferAt(a, b, i, j)
    ensures Crc16(a) == Crc16(b) <==> (j - i) % ORDER == 0
  {
    hide Shl, Xor, X, BigEndian, Multiple, One, Crc16;
    EqualCrc(a, b);
    DifferenceOfTwo(a, b, i, j);
    TwoTermsMultiple(j - i, 8 * |a| - 1 - j);
    OneExactly(j - i);
  }

  // ----- any two bits, and any three

  lemma {:induction false} TermsSum(a: Poly, b: Poly, n: nat)
    requires b < Pow2(n)
    ensures Terms(Shl(a, n) + b) == Terms(a) + Terms(b)
    decreases n
  {
    if n > 0 {
      var x := Shl(a, n) + b;
      TermsSum(a, b / 2, n - 1);
      assert x / 2 == Shl(a, n - 1) + b / 2 && x % 2 == b % 2;
      hide Shl;
      TermsStep(x);
      TermsStep(b);
    }
  }

  lemma LastByteDiffers(p: Poly, q: Poly, x: byte, y: byte)
    ensures Terms(Xor(0x100 * p + x, 0x100 * q + y)) == Terms(Xor(p, q)) + Terms(Xor(x, y))
  {
    Pow2Values();
    hide Xor, Terms, Shl;
    XorIsSum(p, x, 8);
    XorIsSum(q, y, 8);
    Shl8(p);
    Shl8(q);
    XorSwap(Shl(p, 8), x, Shl(q, 8), y);
    XorShl(p, q, 8);
    XorBound(x, y, 8);
    XorIsSum(Xor(p, q), Xor(x, y), 8);
    TermsSum(Xor(p, q), Xor(x, y), 8);
  }

  /** The difference of two messages has one term for each differing bit. */
  lemma {:induction false} DistanceExact(a: seq<byte>, b: seq<byte>)
    requires |a| == |b|
    ensures Terms(Xor(BigEndian(a), BigEndian(b))) == Distance(a, b)
    decreases |a|
  {
    hide Xor, Terms;
    if a == [] {
      XorSelf(0);
      NoTerms();
    } else {
      var n := |a| - 1;
      DistanceExact(a[..n], b[..n]);
      LastByteDiffers(BigEndian(a[..n]), BigEndian(b[..n]), a[n], b[n]);
    }
  }

  lemma NoTerms()
    ensures Terms(0) == 0
  {
  }

  lemma {:induction false} SomeTerm(d: Poly)
    ensures Terms(d) == 0 ==> d == 0
    decreases d
  {
    if d > 0 {
      SomeTerm(d / 2);
    }
  }

  lemma {:induction false} OneTerm(d: Poly) returns (e: nat)
    requires Terms(d) == 1
    ensures d == X(e)
    decreases d
  {
    if d % 2 == 1 {
      SomeTerm(d / 2);
      e := 0;
    } else {
      var f := OneTerm(d / 2);
      e := f + 1;
    }
  }

  lemma {:induction false} TwoTerms(d: Poly) returns (k: nat, e: nat)
    requires Terms(d) == 2
    ensures k > 0 && d == Shl(Xor(X(k), 1), e)
    decreases d
  {
    hide Xor;
    if d % 2 == 1 {
      var f := OneTerm(d / 2);
      k, e := f + 1, 0;
      SumWithOne(f);
    } else {
      k, e := TwoTerms(d / 2);
      e := e + 1;
    }
  }

  lemma SumWithOne(f: nat)
    ensures Xor(X(f + 1), 1) == 2 * X(f) + 1
  {
    Pow2Values();
    ShlNone(X(f));
    hide Xor;
    XorIsSum(X(f), 1, 1);
  }

  lemma TermsApart(k: nat, e: nat, n: nat)
    requires k > 0 && Shl(Xor(X(k), 1), e) < Pow2(n)
    ensures k + e < n
  {
    hide Bit, Xor, Shl, Pow2, X;
    var d := Shl(Xor(X(k), 1), e);
    ShlBit(Xor(X(k), 1), e, k + e);
    XorBit(X(k), 1, k);
    XBit(k, k);
    XBit(0, k);
    XZero();
    if k + e >= n {
      HighBit(d, n, k + e);
    }
  }

  lemma {:induction false} BigEndianBound(m: seq<byte>)
    ensures BigEndian(m) < Pow2(8 * |m|)
    decreases |m|
  {
    if m != [] {
      BigEndianBound(m[..|m| - 1]);
      Pow2Byte(8 * (|m| - 1));
      hide Pow2;
    }
  }

  /** In a frame of at most 32767 bits two flipped bits change the CRC; a composed packet has at most
      1043 bytes. */
  lemma TwoErrorsDetected(a: seq<byte>, b: seq<byte>)
    requires |a| == |b| && 8 * |a| <= ORDER && Distance(a, b) == 2
    ensures Crc16(a) != Crc16(b)
  {
    hide Xor, BigEndian, Crc16, Distance, Terms, Shl, X, Pow2, One, Multiple;
    DistanceExact(a, b);
    var k, e := TwoTerms(Xor(BigEndian(a), BigEndian(b)));
    BigEndianBound(a);
    BigEndianBound(b);
    XorBound(BigEndian(a), BigEndian(b), 8 * |a|);
    TermsApart(k, e, 8 * |a|);
    EqualCrc(a, b);
    TwoTermsMultiple(k, e);
    OneExactly(k);
  }

  /** One, two or three flipped bits anywhere in such a frame change the CRC. */
  lemma ThreeErrorsDetected(a: seq<byte>, b: seq<byte>)
    requires |a| == |b| && 8 * |a| <= ORDER && 1 <= Distance(a, b) <= 3
    ensures Crc16(a) != Crc16(b)
  {
    hide Crc16, Distance;
    if Distance(a, b) == 2 {
      TwoErrorsDetected(a, b);
    } else {
      OddErrorsDetected(a, b);
    }
  }
}
