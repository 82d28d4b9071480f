/** Polynomials over GF(2).

    A polynomial is the natural number whose binary digits are its coefficients: digit `k` is the
    coefficient of x^k.  Sum (which is also difference) is `Xor`, and multiplication by x^k is
    `Shl(_, k)`. */
module Gf2 {
  import opened Bits

  type Poly = nat

  /** Multiplication by the generator x^16 + x^12 + x^5 + 1. */
  function MulG(q: Poly): Poly
  {
    Xor(Xor(Shl(q, 16), Shl(q, 12)), Xor(Shl(q, 5), q))
  }

  predicate DegreeBelow(a: Poly, n: nat)
  {
    a < Pow2(n)
  }

  /** `d` is a multiple of the generator. */
  ghost predicate Multiple(d: Poly)
  {
    exists q: Poly :: d == MulG(q)
  }

  /** `a` and `b` leave the same remainder when divided by the generator. */
  ghost predicate Congruent(a: Poly, b: Poly)
  {
    Multiple(Xor(a, b))
  }

  lemma XorSelf(a: Poly)
    ensures Xor(a, a) == 0
  {
    hide *;
    forall k: nat
      ensures Bit(Xor(a, a), k) <==> Bit(0, k)
    {
      XorBit(a, a, k);
      ZeroBit(k);
    }
    SameBits(Xor(a, a), 0);
  }

  lemma XorComm(a: Poly, b: Poly)
    ensures Xor(a, b) == Xor(b, a)
  {
    hide *;
    forall k: nat
      ensures Bit(Xor(a, b), k) <==> Bit(Xor(b, a), k)
    {
      XorBit(a, b, k);
      XorBit(b, a, k);
    }
    SameBits(Xor(a, b), Xor(b, a));
  }

  /** Sums may be regrouped pairwise. */
  lemma XorSwap(a: Poly, b: Poly, c: Poly, d: Poly)
    ensures Xor(Xor(a, b), Xor(c, d)) == Xor(Xor(a, c), Xor(b, d))
  {
    hide *;
    forall k: nat
      ensures Bit(Xor(Xor(a, b), Xor(c, d)), k) <==> Bit(Xor(Xor(a, c), Xor(b, d)), k)
    {
      XorBit(a, b, k);
      XorBit(c, d, k);
      XorBit(Xor(a, b), Xor(c, d), k);
      XorBit(a, c, k);
      XorBit(b, d, k);
      XorBit(Xor(a, c), Xor(b, d), k);
    }
    SameBits(Xor(Xor(a, b), Xor(c, d)), Xor(Xor(a, c), Xor(b, d)));
  }

  lemma XorZero(a: Poly)
    ensures Xor(a, 0) == a && Xor(0, a) == a
  {
    hide *;
    forall k: nat
      ensures Bit(Xor(a, 0), k) <==> Bit(a, k)
    {
      XorBit(a, 0, k);
      ZeroBit(k);
    }
    SameBits(Xor(a, 0), a);
    XorComm(a, 0);
  }

  /** The middle term of a telescoping sum cancels. */
  lemma XorTelescope(a: Poly, b: Poly, c: Poly)
    ensures Xor(Xor(a, b), Xor(b, c)) == Xor(a, c)
  {
    hide *;
    XorComm(b, c);
    XorSwap(a, b, c, b);
    XorSelf(b);
    XorZero(Xor(a, c));
  }

  /** A sum is zero exactly when its terms are equal. */
  lemma XorIsZero(a: Poly, b: Poly)
    ensures Xor(a, b) == 0 <==> a == b
  {
    hide *;
    XorSelf(a);
    if Xor(a, b) == 0 {
      XorTelescope(a, b, 0);
      XorZero(a);
      XorZero(b);
    }
  }

  lemma {:induction false} XorShl(a: Poly, b: Poly, n: nat)
    ensures Shl(Xor(a, b), n) == Xor(Shl(a, n), Shl(b, n))
    decreases n
  {
    if n > 0 {
      XorShl(a, b, n - 1);
      XorDouble(Shl(a, n - 1), Shl(b, n - 1));
    }
  }

  lemma XorDouble(a: Poly, b: Poly)
    ensures Xor(2 * a, 2 * b) == 2 * Xor(a, b)
  {
    assert (2 * a) / 2 == a && (2 * b) / 2 == b;
  }

  lemma MulGXor(p: Poly, q: Poly)
    ensures MulG(Xor(p, q)) == Xor(MulG(p), MulG(q))
  {
    hide Xor, Shl, Pow2;
    XorShl(p, q, 16);
    XorShl(p, q, 12);
    XorShl(p, q, 5);
    XorSwap(Shl(p, 16), Shl(q, 16), Shl(p, 12), Shl(q, 12));
    XorSwap(Shl(p, 5), Shl(q, 5), p, q);
    XorSwap(Xor(Shl(p, 16), Shl(p, 12)), Xor(Shl(q, 16), Shl(q, 12)), Xor(Shl(p, 5), p), Xor(Shl(q, 5), q));
  }

  lemma MulGShl(q: Poly, n: nat)
    ensures MulG(Shl(q, n)) == Shl(MulG(q), n)
  {
    hide Xor, Shl, Pow2;
    XorShl(Xor(Shl(q, 16), Shl(q, 12)), Xor(Shl(q, 5), q), n);
    XorShl(Shl(q, 16), Shl(q, 12), n);
    XorShl(Shl(q, 5), q, n);
    ShlShl(q, 16, n);
    ShlShl(q, 12, n);
    ShlShl(q, 5, n);
    ShlShl(q, n, 16);
    ShlShl(q, n, 12);
    ShlShl(q, n, 5);
  }

  lemma CongruentBy(a: Poly, b: Poly, q: Poly)
    requires Xor(a, b) == MulG(q)
    ensures Congruent(a, b)
  {
  }

  lemma MultipleZero()
    ensures MulG(0) == 0 && Multiple(0)
  {
    ShlZero(16);
    ShlZero(12);
    ShlZero(5);
    hide Shl;
    assert MulG(0) == 0;
  }

  lemma CongruentRefl(a: Poly)
    ensures Congruent(a, a)
  {
    XorSelf(a);
    MultipleZero();
  }

  lemma CongruentSym(a: Poly, b: Poly)
    requires Congruent(a, b)
    ensures Congruent(b, a)
  {
    XorComm(a, b);
  }

  lemma CongruentTrans(a: Poly, b: Poly, c: Poly)
    requires Congruent(a, b) && Congruent(b, c)
    ensures Congruent(a, c)
  {
    hide Xor, Shl, Pow2;
    var p: Poly :| Xor(a, b) == MulG(p);
    var q: Poly :| Xor(b, c) == MulG(q);
    MulGXor(p, q);
    XorTelescope(a, b, c);
    CongruentBy(a, c, Xor(p, q));
  }

  lemma CongruentXor(a: Poly, b: Poly, c: Poly)
    requires Congruent(a, b)
    ensures Congruent(Xor(a, c), Xor(b, c))
  {
    hide Xor;
    XorSwap(a, c, b, c);
    XorSelf(c);
    XorZero(Xor(a, b));
  }

  lemma CongruentShl(a: Poly, b: Poly, n: nat)
    requires Congruent(a, b)
    ensures Congruent(Shl(a, n), Shl(b, n))
  {
    hide Xor, Shl, Pow2;
    var q: Poly :| Xor(a, b) == MulG(q);
    MulGShl(q, n);
    XorShl(a, b, n);
    CongruentBy(Shl(a, n), Shl(b, n), Shl(q, n));
  }

  /** A sum of two polynomials of different degree has the larger degree. */
  lemma {:induction false} XorAtLeast(a: Poly, b: Poly, n: nat)
    requires a >= Pow2(n) > b
    ensures Xor(a, b) >= Pow2(n)
    decreases n
  {
    if n == 0 {
      XorZero(a);
    } else {
      XorAtLeast(a / 2, b / 2, n - 1);
    }
  }

  lemma {:induction false} LeadingDigit(q: Poly) returns (n: nat)
    requires q > 0
    ensures Pow2(n) <= q < Pow2(n + 1)
    decreases q
  {
    n := 0;
    if q > 1 {
      var m := LeadingDigit(q / 2);
      n := m + 1;
    }
  }

  /** A sum of four polynomials keeps the degree of the first when the others are smaller. */
  lemma XorKeepsDegree(a: Poly, b: Poly, c: Poly, d: Poly, n: nat)
    requires a >= Pow2(n) && b < Pow2(n) && c < Pow2(n) && d < Pow2(n)
    ensures Xor(Xor(a, b), Xor(c, d)) >= Pow2(n)
  {
    hide Xor, Shl, Pow2;
    XorAtLeast(a, b, n);
    XorBound(c, d, n);
    XorAtLeast(Xor(a, b), Xor(c, d), n);
  }

  /** A non-zero multiple of the generator has degree at least 16. */
  lemma MultipleDegree(d: Poly)
    requires Multiple(d) && DegreeBelow(d, 16)
    ensures d == 0
  {
    hide Xor, Shl, Pow2;
    MultipleZero();
    var q: Poly :| d == MulG(q);
    if q > 0 {
      var n := LeadingDigit(q);
      var limit := n + 16;
      ShlBound(q, n, 16);
      ShlBound(q, n + 1, 12);
      ShlBound(q, n + 1, 5);
      Pow2Mono(n + 13, limit);
      Pow2Mono(n + 6, limit);
      Pow2Mono(n + 1, limit);
      Pow2Mono(16, limit);
      XorKeepsDegree(Shl(q, 16), Shl(q, 12), Shl(q, 5), q, limit);
    }
  }

  /** Remainders of degree below 16 are unique. */
  lemma RemainderUnique(a: Poly, r: Poly, s: Poly)
    requires Congruent(a, r) && Congruent(a, s)
    requires DegreeBelow(r, 16) && DegreeBelow(s, 16)
    ensures r == s
  {
    hide Xor, Shl, Pow2;
    CongruentSym(a, r);
    CongruentTrans(r, a, s);
    XorBound(r, s, 16);
    MultipleDegree(Xor(r, s));
    XorIsZero(r, s);
  }

  /** The generator has a constant term, so x can be cancelled from a multiple of it. */
  lemma CancelX(a: Poly)
    requires Multiple(Shl(a, 1))
    ensures Multiple(a)
  {
    hide Xor, MulG, Shl, Bit;
    var q: Poly :| Shl(a, 1) == MulG(q);
    ShlNone(a);
    BitStep(Shl(a, 1), 0);
    MulGConstantTerm(q);
    BitStep(q, 0);
    ShlNone(q / 2);
    MulGShl(q / 2, 1);
    ShlNone(MulG(q / 2));
  }

  lemma MulGConstantTerm(q: Poly)
    ensures Bit(MulG(q), 0) <==> Bit(q, 0)
  {
    hide Xor, Shl, Bit;
    ShlBit(q, 16, 0);
    ShlBit(q, 12, 0);
    ShlBit(q, 5, 0);
    XorBit(Shl(q, 16), Shl(q, 12), 0);
    XorBit(Shl(q, 5), q, 0);
    XorBit(Xor(Shl(q, 16), Shl(q, 12)), Xor(Shl(q, 5), q), 0);
  }

  lemma {:induction false} CancelPower(a: Poly, k: nat)
    requires Multiple(Shl(a, k))
    ensures Multiple(a)
    decreases k
  {
    hide Xor, Shl, Pow2;
    if k == 0 {
      ShlNone(a);
    } else {
      ShlShl(a, k - 1, 1);
      CancelX(Shl(a, k - 1));
      CancelPower(a, k - 1);
    }
  }

  /** The number of non-zero coefficients. */
  function Terms(a: Poly): nat
  {
    if a == 0 then 0 else Digit(a % 2 == 1) + Terms(a / 2)
  }

  lemma {:induction false} TermsXor(a: Poly, b: Poly)
    ensures Terms(Xor(a, b)) % 2 == (Terms(a) + Terms(b)) % 2
    decreases a + b
  {
    if a != 0 || b != 0 {
      TermsXor(a / 2, b / 2);
      XorStep(a, b);
      TermsStep(a);
      TermsStep(b);
      TermsStep(Xor(a, b));
      hide Xor, Terms;
    }
  }

  lemma TermsStep(a: Poly)
    ensures Terms(a) == a % 2 + Terms(a / 2)
  {
  }

  lemma {:induction false} TermsShl(a: Poly, k: nat)
    ensures Terms(Shl(a, k)) == Terms(a)
    decreases k
  {
    if k > 0 {
      TermsShl(a, k - 1);
      assert Shl(a, k) == 2 * Shl(a, k - 1);
    }
  }

  lemma FourAlikeEven(a: Poly, b: Poly, c: Poly, d: Poly)
    requires Terms(a) == Terms(b) == Terms(c) == Terms(d)
    ensures Terms(Xor(Xor(a, b), Xor(c, d))) % 2 == 0
  {
    hide *;
    TermsXor(a, b);
    TermsXor(c, d);
    TermsXor(Xor(a, b), Xor(c, d));
  }

  /** The generator has four terms, so every multiple of it has an even number of terms. */
  lemma MultipleEven(d: Poly)
    requires Multiple(d)
    ensures Terms(d) % 2 == 0
  {
    hide Xor, Shl, Terms;
    var q: Poly :| d == MulG(q);
    var a, b, c := Shl(q, 16), Shl(q, 12), Shl(q, 5);
    assert Terms(a) == Terms(b) == Terms(c) == Terms(q) by {
      TermsShl(q, 16);
      TermsShl(q, 12);
      TermsShl(q, 5);
    }
    FourAlikeEven(a, b, c, q);
    assert MulG(q) == Xor(Xor(a, b), Xor(c, q));
  }
}
