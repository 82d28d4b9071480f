/** The compliance vectors of Annex B of ECSS-E-ST-70-41C. */
module CrcVectors {
  import opened Bits
  import opened Gf2
  import opened Crc
  import opened CrcPeriod

  /** The register after one more byte, which is given in the upper half of a word. */
  function ByteStep(r: bv16, b: bv16): bv16
  {
    Step(Step(Step(Step(Step(Step(Step(Step(Sum(r, b)))))))))
  }

  lemma StepsNext(x: bv16, n: nat, r: uint16)
    requires ShiftSteps(r, n) == P(x)
    ensures ShiftSteps(r, n + 1) == P(Step(x))
  {
    StepIsShift(x);
    hide ShiftStep, P, Step;
  }

  lemma EightSteps(x: bv16)
    ensures ShiftSteps(P(x), 8) == P(Step(Step(Step(Step(Step(Step(Step(Step(x)))))))))
  {
    hide Step, P, ShiftStep;
    var r := P(x);
    var x2 := Step(Step(x));
    var x4 := Step(Step(x2));
    var x6 := Step(Step(x4));
    StepsNext(x, 0, r);
    StepsNext(Step(x), 1, r);
    StepsNext(x2, 2, r);
    StepsNext(Step(x2), 3, r);
    StepsNext(x4, 4, r);
    StepsNext(Step(x4), 5, r);
    StepsNext(x6, 6, r);
    StepsNext(Step(x6), 7, r);
  }

  /** The checksum of a message with one more byte. */
  lemma NextByte(m: seq<byte>, b: byte, r: bv16, x: bv16, r': bv16)
    requires Crc16(m) == P(r) && P(x) as int == 0x100 * (b as int) && r' == ByteStep(r, x)
    ensures Crc16(m + [b]) == P(r')
  {
    hide P, Step, Sum, ShiftSteps;
    assert (m + [b])[..|m|] == m;
    Shl8(b);
    PXor(r, x);
    hide Shl, Xor;
    assert LoadByte(Crc16(m), b) == P(Sum(r, x));
    EightSteps(Sum(r, x));
  }

  lemma Start()
    ensures Crc16([]) == P(0xFFFF)
  {
    PNibbles(0xFFFF);
    hide P;
  }

  lemma ByteSteps()
    ensures ByteStep(0xFFFF, 0) == 0xE1F0 && ByteStep(0xE1F0, 0) == 0x1D0F && ByteStep(0x1D0F, 0) == 0xCC9C
    ensures ByteStep(0xFFFF, 0xAB00) == 0xE571 && ByteStep(0xE571, 0xCD00) == 0xD46A
    ensures ByteStep(0xD46A, 0xEF00) == 0xED38 && ByteStep(0xED38, 0x0100) == 0x04A2
  {
  }

  lemma LongerByteSteps()
    ensures ByteStep(0xFFFF, 0x1400) == 0xB345 && ByteStep(0xB345, 0x5600) == 0xE88B
    ensures ByteStep(0xE88B, 0xF800) == 0x9931 && ByteStep(0x9931, 0x9A00) == 0x0163
    ensures ByteStep(0x0163, 0) == 0x7321 && ByteStep(0x7321, 0x0100) == 0x7FD5
  {
  }

  lemma UpperBytes()
    ensures P(0) == 0 && P(0x0100) == 0x0100 && P(0xAB00) == 0xAB00 && P(0xCD00) == 0xCD00 && P(0xEF00) == 0xEF00
    ensures P(0x1400) == 0x1400 && P(0x5600) == 0x5600 && P(0xF800) == 0xF800 && P(0x9A00) == 0x9A00
  {
    PZero();
    PNibbles(0x0100);
    PNibbles(0xAB00);
    PNibbles(0xCD00);
    PNibbles(0xEF00);
    PNibbles(0x1400);
    PNibbles(0x5600);
    PNibbles(0xF800);
    PNibbles(0x9A00);
    hide P;
  }

  lemma Results()
    ensures P(0x1D0F) == 0x1D0F && P(0xCC9C) == 0xCC9C && P(0x04A2) == 0x04A2 && P(0x7FD5) == 0x7FD5
  {
    PNibbles(0x1D0F);
    PNibbles(0xCC9C);
    PNibbles(0x04A2);
    PNibbles(0x7FD5);
    hide P;
  }

  /** The checksums of 00 00 and of 00 00 00. */
  lemma ZeroVectors()
    ensures Crc16([0, 0]) == 0x1D0F && Crc16([0, 0, 0]) == 0xCC9C
  {
    hide P, ByteStep, Crc16;
    Start();
    ByteSteps();
    UpperBytes();
    Results();
    var z: seq<byte> := [0];
    NextByte([], 0, 0xFFFF, 0, 0xE1F0);
    NextByte([] + z, 0, 0xE1F0, 0, 0x1D0F);
    NextByte([] + z + [0], 0, 0x1D0F, 0, 0xCC9C);
    assert [] + z + [0] == [0, 0] && [] + z + [0] + [0] == [0, 0, 0];
  }

  /** The checksum of AB CD EF 01. */
  lemma FourByteVector()
    ensures Crc16([0xAB, 0xCD, 0xEF, 0x01]) == 0x04A2
  {
    hide P, ByteStep, Crc16;
    Start();
    ByteSteps();
    UpperBytes();
    Results();
    var a: seq<byte> := [0xAB];
    NextByte([], 0xAB, 0xFFFF, 0xAB00, 0xE571);
    NextByte([] + a, 0xCD, 0xE571, 0xCD00, 0xD46A);
    NextByte([] + a + [0xCD], 0xEF, 0xD46A, 0xEF00, 0xED38);
    NextByte([] + a + [0xCD] + [0xEF], 0x01, 0xED38, 0x0100, 0x04A2);
    assert [] + a + [0xCD] + [0xEF] + [0x01] == [0xAB, 0xCD, 0xEF, 0x01];
  }

  /** The checksum of 14 56 F8 9A 00 01. */
  lemma SixByteVector()
    ensures Crc16([0x14, 0x56, 0xF8, 0x9A, 0x00, 0x01]) == 0x7FD5
  {
    hide P, ByteStep, Crc16;
    Start();
    LongerByteSteps();
    UpperBytes();
    Results();
    var a: seq<byte> := [0x14];
    NextByte([], 0x14, 0xFFFF, 0x1400, 0xB345);
    NextByte([] + a, 0x56, 0xB345, 0x5600, 0xE88B);
    NextByte([] + a + [0x56], 0xF8, 0xE88B, 0xF800, 0x9931);
    NextByte([] + a + [0x56] + [0xF8], 0x9A, 0x9931, 0x9A00, 0x0163);
    var b := [] + a + [0x56] + [0xF8] + [0x9A];
    NextByte(b, 0x00, 0x0163, 0, 0x7321);
    NextByte(b + [0x00], 0x01, 0x7321, 0x0100, 0x7FD5);
    assert b + [0x00] + [0x01] == [0x14, 0x56, 0xF8, 0x9A, 0x00, 0x01];
  }
}
