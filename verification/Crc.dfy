/** The bit-serial CRC-16 of Annex B of ECSS-E-ST-70-41C. */
module Crc {
  import opened Bits
  import opened Gf2

  const INITIAL_SHIFT_REGISTER: uint16 := 0xFFFF
  const POLYNOMIAL: uint16 := 0x1021
  const MSB_MASK: uint16 := 0x8000

  // ----- the shift register as a function

  /** One step of long division: drop the leading bit, and subtract the generator if it was set. */
  function ShiftStep(r: uint16): uint16
  {
    if r < 0x8000 then 2 * r as int
    else Pow2Values(); XorBound(2 * r as int - 0x1_0000, POLYNOMIAL, 16); Xor(2 * r as int - 0x1_0000, POLYNOMIAL)
  }

  function ShiftSteps(r: uint16, n: nat): uint16
  {
    if n == 0 then r else ShiftStep(ShiftSteps(r, n - 1))
  }

  function LoadByte(r: uint16, b: byte): uint16
  {
    Pow2Values(); Shl8(b); XorBound(r, Shl(b, 8), 16); Xor(r, Shl(b, 8))
  }

  /** The register after all of `m`. */
  function Crc16(m: seq<byte>): uint16
  {
    if m == [] then INITIAL_SHIFT_REGISTER
    else ShiftSteps(LoadByte(Crc16(m[..|m| - 1]), m[|m| - 1]), 8)
  }

  // ----- messages as polynomials

  /** The dividend of Annex B: M(x) x^16, M(x) having the last transmitted bit as constant term,
      with the all-ones preset added to the first 16 bits. */
  function Dividend(m: seq<byte>): Poly
  {
    Xor(Shl(0xFFFF, 8 * |m|), Shl(BigEndian(m), 16))
  }

  lemma {:induction false} BigEndianBit(m: seq<byte>, e: nat)
    ensures Bit(BigEndian(m), e) <==> e < 8 * |m| && StreamBit(m, 8 * |m| - 1 - e)
    decreases |m|
  {
    hide Xor, Shl, Bit;
    if m == [] {
      ZeroBit(e);
    } else {
      var init, b := m[..|m| - 1], m[|m| - 1];
      Pow2Values();
      Shl8(BigEndian(init));
      XorIsSum(BigEndian(init), b, 8);
      XorBit(Shl(BigEndian(init), 8), b, e);
      ShlBit(BigEndian(init), 8, e);
      if e < 8 {
        var i := 8 * |m| - 1 - e;
        assert i / 8 == |m| - 1 && i % 8 == 7 - e;
      } else {
        HighBit(b, 8, e);
        BigEndianBit(init, e - 8);
      }
    }
  }

  lemma {:induction false} BigEndianInjective(a: seq<byte>, b: seq<byte>)
    requires |a| == |b| && BigEndian(a) == BigEndian(b)
    ensures a == b
    decreases |a|
  {
    if a != [] {
      BigEndianInjective(a[..|a| - 1], b[..|b| - 1]);
      assert a == a[..|a| - 1] + [a[|a| - 1]];
      assert b == b[..|b| - 1] + [b[|b| - 1]];
    }
  }

  /** Adding a value into clear digits. */
  lemma {:induction false} XorIsSum(a: Poly, b: nat, n: nat)
    requires b < Pow2(n)
    ensures Xor(Shl(a, n), b) == Shl(a, n) + b
    decreases n
  {
    if n == 0 {
      XorZero(a);
    } else {
      XorIsSum(a, b / 2, n - 1);
      assert Shl(a, n) / 2 == Shl(a, n - 1);
    }
  }

  lemma DividendAppend(m: seq<byte>, b: byte)
    ensures Dividend(m + [b]) == Xor(Shl(Dividend(m), 8), Shl(b, 16))
  {
    hide Xor, Shl;
    var p, f := BigEndian(m), Shl(0xFFFF, 8 * |m|);
    assert (m + [b])[..|m|] == m;
    Pow2Values();
    XorIsSum(p, b, 8);
    Shl8(p);
    assert BigEndian(m + [b]) == Xor(Shl(p, 8), b);
    XorShl(Shl(p, 8), b, 16);
    ShlShl(p, 8, 16);
    ShlShl(p, 16, 8);
    ShlShl(0xFFFF, 8 * |m|, 8);
    XorShl(f, Shl(p, 16), 8);
    XorAssoc(Shl(f, 8), Shl(Shl(p, 16), 8), Shl(b, 16));
  }

  lemma XorAssoc(a: Poly, b: Poly, c: Poly)
    ensures Xor(Xor(a, b), c) == Xor(a, Xor(b, c))
  {
    hide *;
    XorZero(c);
    XorZero(a);
    XorSwap(a, b, 0, c);
  }

  // ----- one register step divides by the generator

  lemma StepCongruent(r: uint16)
    ensures Congruent(Shl(r, 1), ShiftStep(r))
  {
    hide Xor, Shl;
    ShlNone(r);
    if r < 0x8000 {
      CongruentRefl(Shl(r, 1));
    } else {
      Pow2Values();
      XorTop(Shl(r, 1) - 0x1_0000, POLYNOMIAL, 16);
      GeneratorMultiple();
    }
  }

  lemma MsbTest(r: uint16)
    ensures And(r, MSB_MASK) != 0 <==> r >= 0x8000
  {
    Pow2Values();
    AndPow2(r, 15);
    TopBit(r, 15);
  }

  /** The source's shift, on a 16-bit register, is the division step. */
  lemma SourceStep(r: uint16)
    ensures And(r, MSB_MASK) != 0 <==> r >= 0x8000
    ensures r >= 0x8000 ==> Xor(2 * r as int, POLYNOMIAL) % 0x1_0000 == ShiftStep(r)
  {
    MsbTest(r);
    if r >= 0x8000 {
      Pow2Values();
      XorTop(2 * r as int - 0x1_0000, POLYNOMIAL, 16);
      XorBound(2 * r as int - 0x1_0000, POLYNOMIAL, 16);
    }
  }

  lemma {:induction false} XorTop(t: nat, p: nat, n: nat)
    requires t < Pow2(n) && p < Pow2(n)
    ensures Xor(Pow2(n) + t, p) == Pow2(n) + Xor(t, p)
    ensures Xor(Pow2(n) + t, Xor(t, p)) == Pow2(n) + p
  {
    ShlOne(n);
    hide *;
    XorBound(t, p, n);
    XorIsSum(1, t, n);
    XorIsSum(1, p, n);
    XorIsSum(1, Xor(t, p), n);
    XorAssoc(Pow2(n), t, p);
    XorAssoc(Pow2(n), t, Xor(t, p));
    XorZero(t);
    XorZero(p);
    XorTelescope(0, t, p);
  }

  /** The constant in the source is the generator without its x^16 term. */
  lemma GeneratorMultiple()
    ensures Multiple(0x1_0000 + POLYNOMIAL)
  {
    Pow2Values();
    assert Shl(1, 5) == 0x20 && Shl(1, 12) == 0x1000 && Shl(0x11, 12) == 0x1_1000;
    Shl8(1);
    hide Xor, Shl;
    XorIsSum(1, 1, 5);
    XorIsSum(1, 0x1000, 16);
    XorIsSum(0x11, 0x21, 12);
    assert MulG(1) == 0x1_0000 + POLYNOMIAL;
  }

  lemma {:induction false} StepsCongruent(r: uint16, n: nat)
    ensures Congruent(Shl(r, n), ShiftSteps(r, n))
    decreases n
  {
    hide Xor, Shl;
    if n == 0 {
      ShlNone(r);
      CongruentRefl(r);
    } else {
      var t := ShiftSteps(r, n - 1);
      StepsCongruent(r, n - 1);
      CongruentShl(Shl(r, n - 1), t, 1);
      ShlShl(r, n - 1, 1);
      StepCongruent(t);
      CongruentTrans(Shl(r, n), Shl(t, 1), ShiftSteps(r, n));
    }
  }

  // ----- main results

  /** The register always holds the remainder of the dividend: Annex B, division form. */
  lemma {:induction false} CrcIsRemainder(m: seq<byte>)
    ensures Congruent(Dividend(m), Crc16(m))
    decreases |m|
  {
    hide Xor, Shl;
    if m == [] {
      ShlZero(16);
      ShlNone(INITIAL_SHIFT_REGISTER);
      XorZero(INITIAL_SHIFT_REGISTER);
      CongruentRefl(Dividend(m));
    } else {
      var init, b := m[..|m| - 1], m[|m| - 1];
      assert m == init + [b];
      var r, d := Crc16(init), Dividend(init);
      CrcIsRemainder(init);
      DividendAppend(init, b);
      CongruentShl(d, r, 8);
      CongruentXor(Shl(d, 8), Shl(r, 8), Shl(b, 16));
      ShlShl(b, 8, 8);
      XorShl(r, Shl(b, 8), 8);
      var x := LoadByte(r, b);
      StepsCongruent(x, 8);
      CongruentTrans(Dividend(m), Shl(x, 8), Crc16(m));
    }
  }

  /** The preset to ones, in terms of messages: two leading bytes of ones cancel it, and what is left is
      the plain remainder of the message. */
  lemma {:induction false} PresetCancelled(m: seq<byte>)
    ensures Dividend([0xFF, 0xFF] + m) == Shl(BigEndian(m), 16)
    ensures Congruent(Shl(BigEndian(m), 16), Crc16([0xFF, 0xFF] + m))
    decreases |m|
  {
    hide Xor, Shl, Dividend, BigEndian, Crc16;
    CrcIsRemainder([0xFF, 0xFF] + m);
    if m == [] {
      OnesCancel();
      assert [0xFF, 0xFF] + m == [0xFF, 0xFF];
    } else {
      var init, b := m[..|m| - 1], m[|m| - 1];
      PresetCancelled(init);
      assert [0xFF, 0xFF] + m == ([0xFF, 0xFF] + init) + [b] && m == init + [b];
      DividendAppend([0xFF, 0xFF] + init, b);
      ShiftedAppend(init, b);
    }
  }

  lemma ShiftedAppend(m: seq<byte>, b: byte)
    ensures Shl(BigEndian(m + [b]), 16) == Xor(Shl(Shl(BigEndian(m), 16), 8), Shl(b, 16))
  {
    assert (m + [b])[..|m|] == m;
    Pow2Values();
    Shl8(BigEndian(m));
    hide Xor, Shl;
    var p := BigEndian(m);
    XorIsSum(p, b, 8);
    XorShl(Shl(p, 8), b, 16);
    ShlShl(p, 8, 16);
    ShlShl(p, 16, 8);
  }

  lemma OnesCancel()
    ensures Dividend([0xFF, 0xFF]) == Shl(BigEndian([]), 16)
  {
    Shl8(0xFFFF);
    ShlZero(16);
    hide Xor, Shl;
    var ones: seq<byte> := [0xFF, 0xFF];
    assert ones[..1] == [0xFF] && ones[..1][..0] == [];
    assert BigEndian(ones[..1]) == 0xFF;
    assert BigEndian(ones) == 0xFFFF;
    XorSelf(Shl(0xFFFF, 16));
  }

  /** The CRC is the only 16-bit value congruent to the dividend. */
  lemma CrcCharacterised(m: seq<byte>, c: uint16)
    ensures c == Crc16(m) <==> Congruent(Dividend(m), c)
  {
    hide Xor, Dividend, Crc16;
    CrcIsRemainder(m);
    Pow2Values();
    if Congruent(Dividend(m), c) {
      RemainderUnique(Dividend(m), c, Crc16(m));
    }
  }

  /** Two messages of one length have the same CRC exactly when their difference is a multiple. */
  lemma EqualCrc(a: seq<byte>, b: seq<byte>)
    requires |a| == |b|
    ensures Crc16(a) == Crc16(b) <==> Multiple(Xor(BigEndian(a), BigEndian(b)))
  {
    hide Xor, Shl, BigEndian, Crc16;
    var p, q, f := BigEndian(a), BigEndian(b), Shl(0xFFFF, 8 * |a|);
    CrcIsRemainder(a);
    CrcIsRemainder(b);
    XorShl(p, q, 16);
    XorSwap(f, Shl(p, 16), f, Shl(q, 16));
    XorSelf(f);
    XorZero(Shl(Xor(p, q), 16));
    assert Xor(Dividend(a), Dividend(b)) == Shl(Xor(p, q), 16);
    CongruentSym(Dividend(b), Crc16(b));
    if Crc16(a) == Crc16(b) {
      CongruentTrans(Dividend(a), Crc16(a), Dividend(b));
      CancelPower(Xor(p, q), 16);
    }
    if Multiple(Xor(p, q)) {
      XorZero(Xor(p, q));
      CongruentShl(Xor(p, q), 0, 16);
      ShlZero(16);
      XorZero(Shl(Xor(p, q), 16));
      CongruentTrans(Dividend(a), Dividend(b), Crc16(b));
      CrcCharacterised(a, Crc16(b));
    }
  }

  /** The differing bits of `a` and `b` all lie in the 16-bit window starting at bit `w`. */
  ghost predicate BurstWithin(a: seq<byte>, b: seq<byte>, w: nat)
    requires |a| == |b|
  {
    forall i: nat :: i < 8 * |a| && !(w <= i < w + 16) ==> (StreamBit(a, i) <==> StreamBit(b, i))
  }

  lemma {:induction false} LowDigitsClear(d: Poly, n: nat)
    requires forall e: nat :: e < n ==> !Bit(d, e)
    ensures Low(d, n) == 0
    decreases n
  {
    if n > 0 {
      assert !Bit(d, 0);
      forall e: nat | e < n - 1
        ensures !Bit(d / 2, e)
      {
        assert !Bit(d, e + 1);
      }
      LowDigitsClear(d / 2, n - 1);
    }
  }

  lemma HighDigitsClear(d: Poly, n: nat)
    requires forall e: nat :: e >= n ==> !Bit(d, e)
    ensures DegreeBelow(d, n)
  {
    hide Bit, Low;
    forall k: nat
      ensures Bit(Low(d, n), k) <==> Bit(d, k)
    {
      LowBit(d, n, k);
    }
    SameBits(Low(d, n), d);
  }

  /** A number whose digits all lie in a 16-digit window is a short number, shifted. */
  lemma WindowDigits(d: Poly, low: nat)
    requires forall e: nat :: Bit(d, e) ==> low <= e < low + 16
    ensures DegreeBelow(Shr(d, low), 16) && d == Shl(Shr(d, low), low)
  {
    hide Bit, Shl, Shr, Low;
    LowDigitsClear(d, low);
    Split(d, low);
    forall k: nat | k >= 16
      ensures !Bit(Shr(d, low), k)
    {
      ShrBit(d, low, k);
    }
    HighDigitsClear(Shr(d, low), 16);
  }

  lemma BurstDifference(a: seq<byte>, b: seq<byte>, w: nat, e: nat)
    requires |a| == |b| && BurstWithin(a, b, w)
    requires Bit(Xor(BigEndian(a), BigEndian(b)), e)
    ensures 8 * |a| - 16 - w <= e < 8 * |a| - w
  {
    hide Xor, BigEndian, Bit;
    XorBit(BigEndian(a), BigEndian(b), e);
    BigEndianBit(a, e);
    BigEndianBit(b, e);
  }

  lemma SmallMultiple(burst: Poly, n: nat)
    requires Multiple(Shl(burst, n)) && DegreeBelow(burst, 16)
    ensures Shl(burst, n) == 0
  {
    CancelPower(burst, n);
    MultipleDegree(burst);
    ShlZero(n);
  }

  /** Burst detection: no burst of at most 16 bits, at any bit alignment, keeps the CRC. */
  lemma BurstDetected(a: seq<byte>, b: seq<byte>, w: nat)
    requires |a| == |b| && a != b && BurstWithin(a, b, w)
    ensures Crc16(a) != Crc16(b)
  {
    hide Xor, Shl, Shr, Bit, BigEndian, Crc16;
    if Crc16(a) == Crc16(b) {
      EqualCrc(a, b);
      var d, low := Xor(BigEndian(a), BigEndian(b)), if 8 * |a| >= 16 + w then 8 * |a| - 16 - w else 0;
      forall e: nat | Bit(d, e)
        ensures low <= e < low + 16
      {
        BurstDifference(a, b, w, e);
      }
      WindowDigits(d, low);
      SmallMultiple(Shr(d, low), low);
      XorIsZero(BigEndian(a), BigEndian(b));
      BigEndianInjective(a, b);
    }
  }

  /** The number of bit positions in which two messages differ. */
  function Distance(a: seq<byte>, b: seq<byte>): nat
    requires |a| == |b|
  {
    if a == [] then 0
    else Distance(a[..|a| - 1], b[..|b| - 1]) + Terms(Xor(a[|a| - 1], b[|b| - 1]))
  }

  lemma TermsAppend(p: Poly, q: Poly, x: byte, y: byte)
    ensures Terms(Xor(0x100 * p + x, 0x100 * q + y)) % 2 == (Terms(Xor(p, q)) + Terms(Xor(x, y))) % 2
  {
    hide Xor, Terms, Shl;
    Pow2Values();
    XorIsSum(p, x, 8);
    XorIsSum(q, y, 8);
    Shl8(p);
    Shl8(q);
    XorSwap(Shl(p, 8), x, Shl(q, 8), y);
    XorShl(p, q, 8);
    TermsXor(Shl(Xor(p, q), 8), Xor(x, y));
    TermsShl(Xor(p, q), 8);
  }

  lemma {:induction false} DistanceIsTerms(a: seq<byte>, b: seq<byte>)
    requires |a| == |b|
    ensures Terms(Xor(BigEndian(a), BigEndian(b))) % 2 == Distance(a, b) % 2
    decreases |a|
  {
    if a == [] {
      XorSelf(0);
    } else {
      hide Xor, Terms, BigEndian;
      DistanceIsTerms(a[..|a| - 1], b[..|b| - 1]);
      DistanceStep(a, b);
      AddParity(Terms(Xor(BigEndian(a), BigEndian(b))),
                Terms(Xor(BigEndian(a[..|a| - 1]), BigEndian(b[..|b| - 1]))),
                Distance(a[..|a| - 1], b[..|b| - 1]),
                Terms(Xor(a[|a| - 1], b[|b| - 1])));
    }
  }

  lemma AddParity(u: nat, v: nat, d: nat, w: nat)
    requires u % 2 == (v + w) % 2 && v % 2 == d % 2
    ensures u % 2 == (d + w) % 2
  {
  }

  lemma DistanceStep(a: seq<byte>, b: seq<byte>)
    requires |a| == |b| && a != []
    ensures Terms(Xor(BigEndian(a), BigEndian(b))) % 2 ==
      (Terms(Xor(BigEndian(a[..|a| - 1]), BigEndian(b[..|b| - 1]))) + Terms(Xor(a[|a| - 1], b[|b| - 1]))) % 2
  {
    hide Xor, Terms;
    TermsAppend(BigEndian(a[..|a| - 1]), BigEndian(b[..|b| - 1]), a[|a| - 1], b[|b| - 1]);
  }

  /** Any odd number of flipped bits, wherever they are, is detected. */
  lemma OddErrorsDetected(a: seq<byte>, b: seq<byte>)
    requires |a| == |b| && Distance(a, b) % 2 == 1
    ensures Crc16(a) != Crc16(b)
  {
    hide Xor, BigEndian, Crc16, Distance, Terms;
    if Crc16(a) == Crc16(b) {
      EqualCrc(a, b);
      DistanceIsTerms(a, b);
      MultipleEven(Xor(BigEndian(a), BigEndian(b)));
    }
  }

  function Word(hi: byte, lo: byte): uint16
  {
    (hi as int) * 0x100 + lo
  }

  lemma DividendAppendWord(m: seq<byte>, hi: byte, lo: byte)
    ensures Dividend(m + [hi, lo]) == Xor(Shl(Dividend(m), 16), Shl(Word(hi, lo), 16))
  {
    hide Xor, Shl, Dividend;
    var d := Dividend(m);
    assert m + [hi, lo] == (m + [hi]) + [lo];
    DividendAppend(m, hi);
    DividendAppend(m + [hi], lo);
    XorShl(Shl(d, 8), Shl(hi, 16), 8);
    ShlShl(d, 8, 8);
    ShlShl(hi, 16, 8);
    ShlShl(hi, 8, 16);
    WordIsXor(hi, lo);
    XorShl(Shl(hi, 8), lo, 16);
    XorAssoc(Shl(d, 16), Shl(hi, 24), Shl(lo, 16));
  }

  lemma WordIsXor(hi: byte, lo: byte)
    ensures Word(hi, lo) == Xor(Shl(hi, 8), lo)
  {
    Pow2Values();
    XorIsSum(hi, lo, 8);
    Shl8(hi);
  }

  /** A frame checks to zero exactly when its last two bytes are the CRC of the rest. */
  lemma ValidFrame(m: seq<byte>, hi: byte, lo: byte)
    ensures Crc16(m + [hi, lo]) == 0 <==> Word(hi, lo) == Crc16(m)
  {
    hide Xor, Shl, Dividend, Crc16;
    var c, r, f, d := Word(hi, lo), Crc16(m), m + [hi, lo], Dividend(m);
    DividendAppendWord(m, hi, lo);
    CrcIsRemainder(m);
    CongruentShl(d, r, 16);
    CongruentXor(Shl(d, 16), Shl(r, 16), Shl(c, 16));
    XorShl(r, c, 16);
    var rest := Shl(Xor(r, c), 16);
    assert Congruent(Dividend(f), rest);
    ZeroRemainder(f, rest, Xor(r, c));
    XorIsZero(r, c);
  }

  lemma ZeroRemainder(f: seq<byte>, rest: Poly, x: Poly)
    requires Congruent(Dividend(f), rest) && rest == Shl(x, 16)
    requires exists r: uint16, c: uint16 :: x == Xor(r, c)
    ensures Crc16(f) == 0 <==> x == 0
  {
    hide Xor, Shl, Dividend, Crc16;
    CrcCharacterised(f, 0);
    ShlZero(16);
    MultipleZero();
    if Crc16(f) == 0 {
      CongruentSym(Dividend(f), rest);
      CongruentTrans(rest, Dividend(f), 0);
      XorZero(rest);
      CancelPower(x, 16);
      Pow2Values();
      var r: uint16, c: uint16 :| x == Xor(r, c);
      XorBound(r, c, 16);
      MultipleDegree(x);
    }
  }

  /** A valid frame corrupted by a burst of at most 16 bits no longer checks to zero. */
  lemma CorruptedFrameRejected(frame: seq<byte>, corrupted: seq<byte>, w: nat)
    requires Crc16(frame) == 0
    requires |frame| == |corrupted| && frame != corrupted && BurstWithin(frame, corrupted, w)
    ensures Crc16(corrupted) != 0
  {
    BurstDetected(frame, corrupted, w);
  }

  // ----- the source's loops

  /** `calculateCRC`: the remainder of the first `length` bytes. */
  method CalculateCrc(message: array<byte>, length: nat) returns (shiftReg: uint16)
    requires length <= message.Length
    ensures shiftReg == Crc16(message[..length])
    ensures Congruent(Dividend(message[..length]), shiftReg)
  {
    hide And, Xor, Shl, Dividend;
    shiftReg := INITIAL_SHIFT_REGISTER;
    for i := 0 to length
      invariant shiftReg == Crc16(message[..i])
    {
      ghost var loaded := LoadByte(shiftReg, message[i]);
      shiftReg := Xor(shiftReg, Shl(message[i], 8)) % 0x1_0000;
      for j := 0 to 8
        invariant shiftReg == ShiftSteps(loaded, j)
      {
        SourceStep(shiftReg);
        if And(shiftReg, MSB_MASK) != 0 {
          shiftReg := Xor(2 * (shiftReg as int), POLYNOMIAL) % 0x1_0000;
        } else {
          shiftReg := 2 * (shiftReg as int) % 0x1_0000;
        }
      }
      assert message[..i + 1][..i] == message[..i];
    }
    CrcIsRemainder(message[..length]);
  }

  /** `validateCRC`: zero exactly on frames that end with the CRC of what precedes it. */
  method ValidateCrc(message: array<byte>, length: nat) returns (crc: uint16)
    requires length <= message.Length
    ensures crc == Crc16(message[..length])
    ensures length >= 2 ==>
      (crc == 0 <==> Word(message[length - 2], message[length - 1]) == Crc16(message[..length - 2]))
  {
    crc := CalculateCrc(message, length);
    if length >= 2 {
      assert message[..length] == message[..length - 2] + [message[length - 2], message[length - 1]];
      ValidFrame(message[..length - 2], message[length - 2], message[length - 1]);
    }
  }
}
