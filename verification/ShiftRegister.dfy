/**
 The shift-and-xor step that the encoder uses three times: in the field
 multiplication (0x11D), in the format bits (0x537) and in the version bits
 (0x1F25).  Integers stand for polynomials over GF(2), bit i for x^i.
 */
module ShiftRegister {
  import opened Bitwise

  /** g has degree exactly n. */
  predicate Generator(g: nat, n: nat) {
    n >= 1 && Pow2(n) <= g < Pow2(n + 1)
  }

  /** z = (z << 1) ^ ((z >> (n - 1)) * g) */
  function Step(z: nat, g: nat, n: nat): nat
    requires n >= 1
  {
    Xor(2 * z, (Shr(z, n - 1)) * g)
  }

  function Steps(z: nat, g: nat, n: nat, k: nat): nat
    requires n >= 1
  {
    if k == 0 then z else Step(Steps(z, g, n, k - 1), g, n)
  }

  /** Product of polynomials over GF(2). */
  function Carryless(q: nat, g: nat): nat
    decreases q
  {
    if q == 0 then 0 else Xor(2 * Carryless(q / 2, g), (q % 2) * g)
  }

  /** Below the top bit a step only doubles. */
  lemma StepSmall(z: nat, g: nat, n: nat)
    requires n >= 1 && z < Pow2(n - 1)
    ensures Step(z, g, n) == 2 * z
  {
    ShrTop(z, n - 1);
    XorZero(2 * z);
  }

  lemma StepRange(z: nat, g: nat, n: nat)
    requires Generator(g, n) && z < Pow2(n)
    ensures Step(z, g, n) < Pow2(n)
  {
    ShrTop(z, n - 1);
    if z < Pow2(n - 1) {
      XorZero(2 * z);
    } else {
      TopBitCancels(2 * z, g, n);
    }
  }

  lemma {:induction false} StepsRange(z: nat, g: nat, n: nat, k: nat)
    requires Generator(g, n) && z < Pow2(n)
    ensures Steps(z, g, n, k) < Pow2(n)
  {
    if k > 0 {
      StepsRange(z, g, n, k - 1);
      StepRange(Steps(z, g, n, k - 1), g, n);
    }
  }

  lemma ScaleXor(j: nat, k: nat, g: nat)
    requires j <= 1 && k <= 1
    ensures Xor(j, k) <= 1 && Xor(j * g, k * g) == Xor(j, k) * g
  {
    XorZero(g);
    XorSelf(g);
    XorZero(j);
    XorZero(k);
    XorSelf(1);
  }

  lemma StepXor(a: nat, b: nat, g: nat, n: nat)
    requires n >= 1 && a < Pow2(n) && b < Pow2(n)
    ensures Step(Xor(a, b), g, n) == Xor(Step(a, g, n), Step(b, g, n))
  {
    var j, k := Shr(a, n - 1), Shr(b, n - 1);
    ShrTop(a, n - 1);
    ShrTop(b, n - 1);
    XorShr(a, b, n - 1);
    ScaleXor(j, k, g);
    XorDouble(a, b);
    XorSwap(2 * a, 2 * b, j * g, k * g);
  }

  /** The register is linear in its start value. */
  lemma {:induction false} StepsXor(a: nat, b: nat, g: nat, n: nat, k: nat)
    requires Generator(g, n) && a < Pow2(n) && b < Pow2(n)
    ensures Steps(Xor(a, b), g, n, k) == Xor(Steps(a, g, n, k), Steps(b, g, n, k))
  {
    if k > 0 {
      StepsXor(a, b, g, n, k - 1);
      StepsRange(a, g, n, k - 1);
      StepsRange(b, g, n, k - 1);
      StepXor(Steps(a, g, n, k - 1), Steps(b, g, n, k - 1), g, n);
    }
  }

  /** The quotient: the bits that left the register, in order. */
  function Quotient(z: nat, g: nat, n: nat, k: nat): nat
    requires n >= 1
  {
    if k == 0 then 0
    else 2 * Quotient(z, g, n, k - 1) + Shr(Steps(z, g, n, k - 1), n - 1)
  }

  /**
   k steps of the register are polynomial division: z * x^k == quotient * g + register,
   with the register below x^n.
   */
  lemma {:induction false} StepsDivide(z: nat, g: nat, n: nat, k: nat)
    requires Generator(g, n) && z < Pow2(n)
    ensures Steps(z, g, n, k) < Pow2(n)
    ensures Shl(z, k) == Xor(Carryless(Quotient(z, g, n, k), g), Steps(z, g, n, k))
  {
    hide Xor, Step;
    StepsRange(z, g, n, k);
    if k == 0 {
      XorZero(z);
    } else {
      StepsDivide(z, g, n, k - 1);
      StepsRange(z, g, n, k - 1);
      DivideOnce(Quotient(z, g, n, k - 1), Steps(z, g, n, k - 1), g, n);
    }
  }

  lemma DivideOnce(q: nat, r: nat, g: nat, n: nat)
    requires n >= 1 && r < Pow2(n)
    ensures 2 * Xor(Carryless(q, g), r) == Xor(Carryless(2 * q + Shr(r, n - 1), g), Step(r, g, n))
  {
    var t := Shr(r, n - 1);
    ShrTop(r, n - 1);
    CarrylessShift(q, t, g);
    XorBoth(Carryless(q, g), r, t * g);
  }

  lemma ExtendDivision(q: nat, r: nat, c: nat, s: nat, g: nat, n: nat)
    requires n >= 1 && r < Pow2(n) && c == Xor(Carryless(q, g), r)
    ensures Xor(2 * c, s) == Xor(Carryless(2 * q + Shr(r, n - 1), g), Xor(Step(r, g, n), s))
  {
    DivideOnce(q, r, g, n);
    XorAssociates(Carryless(2 * q + Shr(r, n - 1), g), Step(r, g, n), s);
  }

  lemma XorBoth(c: nat, r: nat, m: nat)
    ensures Xor(Xor(2 * c, m), Xor(2 * r, m)) == 2 * Xor(c, r)
  {
    XorSwap(2 * c, m, 2 * r, m);
    XorSelf(m);
    XorZero(Xor(2 * c, 2 * r));
    XorDouble(c, r);
  }

  lemma CarrylessShift(q: nat, t: nat, g: nat)
    requires t <= 1
    ensures Carryless(2 * q + t, g) == Xor(2 * Carryless(q, g), t * g)
  {
    XorZero(0);
  }

  lemma LargeStep(c: nat, b: nat, g: nat, n: nat)
    requires g < Pow2(n + 1) && c >= Pow2(n) && b <= 1
    ensures Xor(2 * c, b * g) >= Pow2(n + 1)
  {
    hide Xor;
    if b == 1 {
      TopBitStays(2 * c, g, n + 1);
    } else {
      XorZero(2 * c);
    }
  }

  lemma {:induction false} Pow2Mono(k: nat, n: nat)
    requires k <= n
    ensures Pow2(k) <= Pow2(n)
  {
    if k < n {
      Pow2Mono(k, n - 1);
    }
  }

  /** A multiple of g by a polynomial of degree k has degree n + k. */
  lemma {:induction false} MultipleIsLarge(q: nat, k: nat, g: nat, n: nat)
    requires Generator(g, n) && q >= Pow2(k)
    ensures Carryless(q, g) >= Pow2(n + k)
    decreases q
  {
    hide Xor;
    if q == 1 {
      assert Carryless(q, g) == Xor(2 * Carryless(0, g), g) == Xor(0, g);
      XorZero(g);
      assert k == 0;
    } else {
      var j := if k == 0 then 0 else k - 1;
      MultipleIsLarge(q / 2, j, g, n);
      Pow2Mono(n + 1, n + j + 1);
      LargeStep(Carryless(q / 2, g), q % 2, g, n + j);
    }
  }

  /*---- Division with remainder ----*/

  /** Multiplication distributes over addition. */
  lemma {:induction false} CarrylessXor(p: nat, q: nat, g: nat)
    ensures Carryless(Xor(p, q), g) == Xor(Carryless(p, g), Carryless(q, g))
    decreases p + q
  {
    hide Xor, Carryless;
    if p + q == 0 {
      XorZero(0);
      NoProduct(g);
    } else {
      var c, d, j, k := Carryless(p / 2, g), Carryless(q / 2, g), p % 2, q % 2;
      CarrylessXor(p / 2, q / 2, g);
      ScaleXor(j, k, g);
      XorSplit(p, q);
      CarrylessShift(Xor(p / 2, q / 2), Xor(j, k), g);
      CarrylessShift(p / 2, j, g);
      CarrylessShift(q / 2, k, g);
      XorDouble(c, d);
      XorSwap(2 * c, 2 * d, j * g, k * g);
    }
  }

  lemma NoProduct(g: nat)
    ensures Carryless(0, g) == 0
  {
  }

  lemma XorSplit(p: nat, q: nat)
    ensures Xor(p, q) == 2 * Xor(p / 2, q / 2) + Xor(p % 2, q % 2)
  {
    XorPair(p / 2, q / 2, p % 2, q % 2);
    XorSelf(p % 2);
    XorZero(1);
  }

  ghost predicate Divides(q: nat, g: nat, a: nat) {
    a == Carryless(q, g)
  }

  ghost predicate IsMultiple(a: nat, g: nat) {
    exists q: nat :: Divides(q, g, a)
  }

  /** r is a mod g, for g of degree n. */
  ghost predicate IsRemainder(r: nat, a: nat, g: nat, n: nat) {
    r < Pow2(n) && IsMultiple(Xor(a, r), g)
  }

  /** Quotient and remainder are unique. */
  lemma DivisionUnique(q: nat, r: nat, p: nat, s: nat, g: nat, n: nat)
    requires Generator(g, n) && r < Pow2(n) && s < Pow2(n)
    requires Xor(Carryless(q, g), r) == Xor(Carryless(p, g), s)
    ensures q == p && r == s
  {
    hide Xor, Carryless;
    var c, d := Carryless(q, g), Carryless(p, g);
    CarrylessXor(q, p, g);
    XorSwap(c, r, d, s);
    XorSelf(Xor(c, r));
    XorCancel(Xor(c, d), Xor(r, s));
    XorBound(r, s, n);
    if Xor(q, p) >= 1 {
      MultipleIsLarge(Xor(q, p), 0, g, n);
    }
    XorCancel(q, p);
    XorSelf(c);
    XorCancel(r, s);
  }

  lemma RemainderUnique(r: nat, s: nat, a: nat, g: nat, n: nat)
    requires Generator(g, n) && IsRemainder(r, a, g, n) && IsRemainder(s, a, g, n)
    ensures r == s
  {
    hide Xor, Carryless;
    var q: nat :| Divides(q, g, Xor(a, r));
    var p: nat :| Divides(p, g, Xor(a, s));
    XorCancel(a, r);
    XorCancel(a, s);
    DivisionUnique(q, r, p, s, g, n);
  }

  lemma QuotientGives(r: nat, a: nat, q: nat, g: nat, n: nat)
    requires r < Pow2(n) && a == Xor(Carryless(q, g), r)
    ensures IsRemainder(r, a, g, n)
  {
    hide Xor, Carryless;
    XorCancel(Carryless(q, g), r);
    assert Divides(q, g, Xor(a, r));
  }

  /** The register after k steps is start * x^k mod g: it, and nothing else, is that remainder. */
  lemma StepsAreRemainder(z: nat, g: nat, n: nat, k: nat, r: nat)
    requires Generator(g, n) && z < Pow2(n)
    ensures IsRemainder(r, Shl(z, k), g, n) <==> r == Steps(z, g, n, k)
  {
    hide IsRemainder, Steps, Shl, Quotient, Xor, Carryless;
    StepsDivide(z, g, n, k);
    QuotientGives(Steps(z, g, n, k), Shl(z, k), Quotient(z, g, n, k), g, n);
    if IsRemainder(r, Shl(z, k), g, n) {
      RemainderUnique(r, Steps(z, g, n, k), Shl(z, k), g, n);
    }
  }
}
