/** Binary digits of natural numbers and the C++ bit operators on unsigned values.

    Unsigned machine words are natural numbers below a power of two.  `Shl`, `Shr`, `Or`, `And`
    and `Xor` are the shifts and bitwise operators; `Low` keeps the low digits, which is what a
    narrowing cast or a mask does.  The lemmas characterise them digit by digit. */
module Bits {

  type byte = x: int | 0 <= x < 256
  type uint16 = x: int | 0 <= x < 0x1_0000
  type uint32 = x: int | 0 <= x < 0x1_0000_0000

  function Pow2(n: nat): (p: nat)
    ensures p >= 1
  {
    if n == 0 then 1 else 2 * Pow2(n - 1)
  }

  /** Digit `k` of `x`, digit 0 being the least significant. */
  predicate Bit(x: nat, k: nat)
    decreases k
  {
    if k == 0 then x % 2 == 1 else Bit(x / 2, k - 1)
  }

  function Digit(b: bool): (d: nat)
    ensures d < 2
  {
    if b then 1 else 0
  }

  /** `x << n`, without truncation. */
  function Shl(x: nat, n: nat): nat
    decreases n
  {
    if n == 0 then x else 2 * Shl(x, n - 1)
  }

  /** `x >> n`. */
  function Shr(x: nat, n: nat): nat
    decreases n
  {
    if n == 0 then x else Shr(x / 2, n - 1)
  }

  /** The low `n` digits of `x`. */
  function Low(x: nat, n: nat): (r: nat)
    ensures r < Pow2(n)
    decreases n
  {
    if n == 0 then 0 else 2 * Low(x / 2, n - 1) + x % 2
  }

  function Or(x: nat, y: nat): nat
    decreases x + y
  {
    if x == 0 && y == 0 then 0
    else 2 * Or(x / 2, y / 2) + Digit(x % 2 == 1 || y % 2 == 1)
  }

  function And(x: nat, y: nat): nat
    decreases x + y
  {
    if x == 0 && y == 0 then 0
    else 2 * And(x / 2, y / 2) + Digit(x % 2 == 1 && y % 2 == 1)
  }

  function Xor(x: nat, y: nat): nat
    decreases x + y
  {
    if x == 0 && y == 0 then 0
    else 2 * Xor(x / 2, y / 2) + Digit((x % 2 == 1) != (y % 2 == 1))
  }

  // ----- digits

  lemma {:induction false} ZeroBit(k: nat)
    ensures !Bit(0, k)
  {
    if k > 0 {
      ZeroBit(k - 1);
    }
  }

  lemma BitStep(x: nat, k: nat)
    ensures Bit(x, 0) <==> x % 2 == 1
    ensures k > 0 ==> (Bit(x, k) <==> Bit(x / 2, k - 1))
  {
  }

  lemma OrStep(x: nat, y: nat)
    ensures Or(x, y) / 2 == Or(x / 2, y / 2)
    ensures Or(x, y) % 2 == 1 <==> (x % 2 == 1) || (y % 2 == 1)
  {
    if x != 0 || y != 0 {
      var h, d := Or(x / 2, y / 2), Digit((x % 2 == 1) || (y % 2 == 1));
      assert Or(x, y) == 2 * h + d;
      hide *;
    }
  }

  lemma {:induction false} OrBit(x: nat, y: nat, k: nat)
    ensures Bit(Or(x, y), k) <==> Bit(x, k) || Bit(y, k)
    decreases k
  {
    hide *;
    OrStep(x, y);
    BitStep(x, k);
    BitStep(y, k);
    BitStep(Or(x, y), k);
    if k > 0 {
      OrBit(x / 2, y / 2, k - 1);
    }
  }

  lemma XorStep(x: nat, y: nat)
    ensures Xor(x, y) / 2 == Xor(x / 2, y / 2)
    ensures Xor(x, y) % 2 == 1 <==> (x % 2 == 1) != (y % 2 == 1)
  {
    if x != 0 || y != 0 {
      var h, d := Xor(x / 2, y / 2), Digit((x % 2 == 1) != (y % 2 == 1));
      assert Xor(x, y) == 2 * h + d;
      hide *;
    }
  }

  lemma {:induction false} XorBit(x: nat, y: nat, k: nat)
    ensures Bit(Xor(x, y), k) <==> Bit(x, k) != Bit(y, k)
    decreases k
  {
    hide *;
    XorStep(x, y);
    BitStep(x, k);
    BitStep(y, k);
    BitStep(Xor(x, y), k);
    if k > 0 {
      XorBit(x / 2, y / 2, k - 1);
    }
  }

  lemma AndStep(x: nat, y: nat)
    ensures And(x, y) / 2 == And(x / 2, y / 2)
    ensures And(x, y) % 2 == 1 <==> x % 2 == 1 && y % 2 == 1
  {
    if x != 0 || y != 0 {
      var h, d := And(x / 2, y / 2), Digit(x % 2 == 1 && y % 2 == 1);
      assert And(x, y) == 2 * h + d;
      hide *;
    }
  }

  lemma {:induction false} AndBit(x: nat, y: nat, k: nat)
    ensures Bit(And(x, y), k) <==> Bit(x, k) && Bit(y, k)
    decreases k
  {
    hide *;
    AndStep(x, y);
    BitStep(x, k);
    BitStep(y, k);
    BitStep(And(x, y), k);
    if k > 0 {
      AndBit(x / 2, y / 2, k - 1);
    }
  }

  lemma {:induction false} ShrBit(x: nat, n: nat, k: nat)
    ensures Bit(Shr(x, n), k) <==> Bit(x, n + k)
    decreases n
  {
    if n > 0 {
      ShrBit(x / 2, n - 1, k);
    }
  }

  lemma {:induction false} BitIsOdd(x: nat, k: nat)
    ensures Bit(x, k) <==> Shr(x, k) % 2 == 1
    decreases k
  {
    if k > 0 {
      BitIsOdd(x / 2, k - 1);
    }
  }

  lemma {:induction false} LowBit(x: nat, n: nat, k: nat)
    ensures Bit(Low(x, n), k) <==> k < n && Bit(x, k)
    decreases n
  {
    if n == 0 {
      ZeroBit(k);
    } else if k > 0 {
      LowBit(x / 2, n - 1, k - 1);
      assert Low(x, n) / 2 == Low(x / 2, n - 1);
    }
  }

  lemma {:induction false} ShlBit(x: nat, n: nat, k: nat)
    ensures Bit(Shl(x, n), k) <==> k >= n && Bit(x, k - n)
    decreases n
  {
    if n > 0 && k > 0 {
      ShlBit(x, n - 1, k - 1);
      assert Shl(x, n) / 2 == Shl(x, n - 1);
    }
  }

  /** A value below `Pow2(n)` has no digit at `n` or above. */
  lemma {:induction false} HighBit(x: nat, n: nat, k: nat)
    requires x < Pow2(n) && k >= n
    ensures !Bit(x, k)
    decreases n
  {
    if n == 0 {
      ZeroBit(k);
    } else {
      HighBit(x / 2, n - 1, k - 1);
    }
  }

  /** Numbers with the same digits are equal. */
  lemma {:induction false} SameBits(x: nat, y: nat)
    requires forall k: nat :: Bit(x, k) <==> Bit(y, k)
    ensures x == y
    decreases x + y
  {
    if x != 0 || y != 0 {
      assert Bit(x, 0) <==> Bit(y, 0);
      forall k: nat
        ensures Bit(x / 2, k) <==> Bit(y / 2, k)
      {
        assert Bit(x, k + 1) <==> Bit(y, k + 1);
      }
      SameBits(x / 2, y / 2);
    }
  }

  // ----- bounds and algebra

  lemma {:induction false} OrBound(x: nat, y: nat, n: nat)
    requires x < Pow2(n) && y < Pow2(n)
    ensures Or(x, y) < Pow2(n)
    decreases n
  {
    if n > 0 {
      OrBound(x / 2, y / 2, n - 1);
    }
  }

  lemma {:induction false} XorBound(x: nat, y: nat, n: nat)
    requires x < Pow2(n) && y < Pow2(n)
    ensures Xor(x, y) < Pow2(n)
    decreases n
  {
    if n > 0 {
      XorBound(x / 2, y / 2, n - 1);
    }
  }

  lemma {:induction false} ShlBound(x: nat, m: nat, n: nat)
    ensures x < Pow2(m) ==> Shl(x, n) < Pow2(m + n)
    ensures x >= Pow2(m) ==> Shl(x, n) >= Pow2(m + n)
    decreases n
  {
    if n > 0 {
      ShlBound(x, m, n - 1);
    }
  }

  lemma {:induction false} ShrBound(x: nat, m: nat, n: nat)
    requires x < Pow2(m + n)
    ensures Shr(x, n) < Pow2(m)
    decreases n
  {
    if n > 0 {
      ShrBound(x / 2, m, n - 1);
    }
  }

  lemma {:induction false} Pow2Mono(m: nat, n: nat)
    requires m <= n
    ensures Pow2(m) <= Pow2(n)
    decreases n
  {
    if m < n {
      Pow2Mono(m, n - 1);
    }
  }

  lemma {:induction false} ShlShl(x: nat, m: nat, n: nat)
    ensures Shl(Shl(x, m), n) == Shl(x, m + n)
    decreases n
  {
    if n > 0 {
      ShlShl(x, m, n - 1);
    }
  }

  /** A number is its high part above its low part. */
  lemma {:induction false} Split(x: nat, n: nat)
    ensures x == Shl(Shr(x, n), n) + Low(x, n)
    decreases n
  {
    if n > 0 {
      Split(x / 2, n - 1);
    }
  }

  lemma {:induction false} ShlSum(x: nat, y: nat, n: nat)
    ensures Shl(x + y, n) == Shl(x, n) + Shl(y, n)
    decreases n
  {
    if n > 0 {
      ShlSum(x, y, n - 1);
    }
  }

  lemma {:induction false} LowOfSmall(x: nat, n: nat)
    requires x < Pow2(n)
    ensures Low(x, n) == x
    decreases n
  {
    if n > 0 {
      LowOfSmall(x / 2, n - 1);
    }
  }

  /** `x & (Pow2(n) - 1)` is `Low(x, n)`: what the masks of the source compute. */
  lemma {:induction false} AndMask(x: nat, n: nat)
    ensures And(x, Pow2(n) - 1) == Low(x, n)
    decreases n
  {
    if n == 0 {
      AndZero(x);
    } else {
      AndMask(x / 2, n - 1);
      assert (Pow2(n) - 1) / 2 == Pow2(n - 1) - 1;
    }
  }

  lemma {:induction false} AndZero(x: nat)
    ensures And(x, 0) == 0
    decreases x
  {
    if x > 0 {
      AndZero(x / 2);
    }
  }

  /** `x & Pow2(n)` is non-zero exactly when digit `n` is set. */
  lemma {:induction false} AndPow2(x: nat, n: nat)
    ensures And(x, Pow2(n)) != 0 <==> Bit(x, n)
    decreases n
  {
    if n == 0 {
      AndZero(x / 2);
    } else {
      AndPow2(x / 2, n - 1);
    }
  }

  /** OR-ing a value into clear digits is addition. */
  lemma {:induction false} OrIsSum(x: nat, y: nat, n: nat)
    requires Low(x, n) == 0 && y < Pow2(n)
    ensures Or(x, y) == x + y
    decreases n
  {
    if n == 0 {
      OrZero(x);
    } else {
      OrIsSum(x / 2, y / 2, n - 1);
    }
  }

  lemma {:induction false} OrZero(x: nat)
    ensures Or(x, 0) == x
    decreases x
  {
    if x > 0 {
      OrZero(x / 2);
    }
  }

  lemma ShlNone(x: nat)
    ensures Shl(x, 0) == x && Shl(x, 1) == 2 * x
  {
  }

  lemma ShrNone(x: nat)
    ensures Shr(x, 0) == x
  {
  }

  lemma WidthBound(n: nat)
    requires n <= 16
    ensures Pow2(n) <= 0x1_0000
  {
    Pow2Values();
    Pow2Mono(n, 16);
  }

  lemma {:induction false} ShlZero(n: nat)
    ensures Shl(0, n) == 0
  {
    if n > 0 {
      ShlZero(n - 1);
    }
  }

  lemma {:induction false} ShlOne(n: nat)
    ensures Shl(1, n) == Pow2(n)
  {
    if n > 0 {
      ShlOne(n - 1);
    }
  }

  lemma {:induction false} TopBit(x: nat, n: nat)
    requires x < Pow2(n + 1)
    ensures Bit(x, n) <==> x >= Pow2(n)
    decreases n
  {
    if n > 0 {
      TopBit(x / 2, n - 1);
    }
  }

  lemma {:induction false} LowOfShl(x: nat, n: nat)
    ensures Low(Shl(x, n), n) == 0
    decreases n
  {
    if n > 0 {
      LowOfShl(x, n - 1);
      ghost var h := Shl(x, n - 1);
      assert Shl(x, n) == 2 * h && (2 * h) / 2 == h && (2 * h) % 2 == 0;
      hide Shl;
    }
  }

  lemma Pow2Values()
    ensures Pow2(0) == 1 && Pow2(1) == 2 && Pow2(2) == 4 && Pow2(3) == 8 && Pow2(4) == 16
    ensures Pow2(5) == 32 && Pow2(6) == 64 && Pow2(7) == 128 && Pow2(8) == 256
    ensures Pow2(11) == 2048 && Pow2(12) == 4096
    ensures Pow2(14) == 0x4000 && Pow2(15) == 0x8000 && Pow2(16) == 0x1_0000
  {
    assert Pow2(4) == 16;
    assert Pow2(8) == 256;
    assert Pow2(12) == 4096;
  }

  lemma Shl8(x: nat)
    ensures Shl(x, 8) == 0x100 * x && Shl(x, 16) == 0x1_0000 * x
  {
    assert Shl(x, 4) == 16 * x;
    assert Shl(x, 8) == 0x100 * x;
    assert Shl(x, 12) == 0x1000 * x;
  }

  /** `(1 << n) - 1`. */
  function Mask(n: nat): nat
  {
    ShlOne(n); Shl(1, n) - 1
  }

  lemma MaskIsLow(x: nat, n: nat)
    ensures And(x, Mask(n)) == Low(x, n)
  {
    ShlOne(n);
    AndMask(x, n);
  }

  lemma ByteOr(x: byte, y: byte)
    ensures Or(x, y) < 256
  {
    Pow2Values();
    OrBound(x, y, 8);
  }

  lemma LowOfByte(v: byte)
    ensures Low(v, 8) == v
  {
    Pow2Values();
    LowOfSmall(v, 8);
  }

  lemma Pow2Byte(m: nat)
    ensures Pow2(m + 8) == 0x100 * Pow2(m)
  {
    assert Pow2(m + 2) == 4 * Pow2(m);
    assert Pow2(m + 4) == 4 * Pow2(m + 2);
    assert Pow2(m + 6) == 4 * Pow2(m + 4);
  }

  // ----- bit strings

  /** The big-endian digits of the low `n` bits of `v`. */
  function ToBits(v: nat, n: nat): (s: seq<bool>)
    ensures |s| == n
    ensures forall i :: 0 <= i < n ==> s[i] == Bit(v, n - 1 - i)
  {
    seq(n, i requires 0 <= i < n => Bit(v, n - 1 - i))
  }

  /** The number a big-endian bit string denotes. */
  function FromBits(s: seq<bool>): (v: nat)
    ensures v < Pow2(|s|)
  {
    if s == [] then 0 else 2 * FromBits(s[..|s| - 1]) + Digit(s[|s| - 1])
  }

  lemma {:induction false} FromBitsBit(s: seq<bool>, k: nat)
    requires k < |s|
    ensures Bit(FromBits(s), k) == s[|s| - 1 - k]
    decreases k
  {
    FromBitsStep(s);
    BitStep(FromBits(s), k);
    hide *;
    if k > 0 {
      FromBitsBit(s[..|s| - 1], k - 1);
    }
  }

  lemma FromBitsStep(s: seq<bool>)
    requires s != []
    ensures FromBits(s) / 2 == FromBits(s[..|s| - 1]) && (FromBits(s) % 2 == 1 <==> s[|s| - 1])
  {
    var h, d := FromBits(s[..|s| - 1]), Digit(s[|s| - 1]);
    assert FromBits(s) == 2 * h + d;
    hide FromBits;
  }

  lemma FromToBits(v: nat, n: nat)
    ensures FromBits(ToBits(v, n)) == Low(v, n)
  {
    var s := ToBits(v, n);
    forall k: nat
      ensures Bit(FromBits(s), k) <==> Bit(Low(v, n), k)
    {
      LowBit(v, n, k);
      if k < n {
        FromBitsBit(s, k);
      } else {
        HighBit(FromBits(s), n, k);
      }
    }
    SameBits(FromBits(s), Low(v, n));
  }

  lemma {:induction false} FromBitsConcat(s: seq<bool>, t: seq<bool>)
    ensures FromBits(s + t) == Shl(FromBits(s), |t|) + FromBits(t)
    decreases |t|
  {
    if t == [] {
      assert s + t == s;
    } else {
      var t' := t[..|t| - 1];
      FromBitsConcat(s, t');
      assert (s + t)[..|s + t| - 1] == s + t' && (s + t)[|s + t| - 1] == t[|t| - 1];
    }
  }

  /** Bit `i` of a byte string, counted from its first transmitted bit. */
  predicate StreamBit(m: seq<byte>, i: nat)
    requires i < 8 * |m|
  {
    Bit(m[i / 8], 7 - i % 8)
  }

  /** A byte string as one big-endian bit string. */
  function BitsOf(m: seq<byte>): (s: seq<bool>)
    ensures |s| == 8 * |m|
    ensures forall i :: 0 <= i < |s| ==> s[i] == StreamBit(m, i)
  {
    seq(8 * |m|, i requires 0 <= i < 8 * |m| => StreamBit(m, i))
  }

  /** The number a big-endian byte string denotes. */
  function BigEndian(m: seq<byte>): nat
  {
    if m == [] then 0 else 0x100 * BigEndian(m[..|m| - 1]) + m[|m| - 1]
  }

}
