/**
 Bit-level arithmetic on unsigned integers: powers of two, shifts, single bits and
 exclusive or.  Shr, Shl and Xor are the C++ operators `>>`, `<<` and `^` on
 non-negative values (without truncation).
 */
module Bitwise {

  function Pow2(n: nat): (r: nat)
    ensures r >= 1
  {
    if n == 0 then 1 else 2 * Pow2(n - 1)
  }

  function Xor(a: nat, b: nat): nat
    decreases a + b
  {
    if a == 0 && b == 0 then 0
    else 2 * Xor(a / 2, b / 2) + (if a % 2 == b % 2 then 0 else 1)
  }

  function Shr(x: nat, i: nat): nat
    decreases i
  {
    if i == 0 then x else Shr(x / 2, i - 1)
  }

  function Shl(x: nat, i: nat): nat
    decreases i
  {
    if i == 0 then x else 2 * Shl(x, i - 1)
  }

  predicate GetBit(x: nat, i: nat) {
    Shr(x, i) % 2 == 1
  }

  lemma {:induction false} NoBits(i: nat)
    ensures !GetBit(0, i)
  {
    if i > 0 {
      NoBits(i - 1);
    }
  }

  lemma {:induction false} XorZero(a: nat)
    ensures Xor(a, 0) == a && Xor(0, a) == a
  {
    if a > 0 {
      XorZero(a / 2);
    }
  }

  lemma {:induction false} XorSelf(a: nat)
    ensures Xor(a, a) == 0
  {
    if a > 0 {
      XorSelf(a / 2);
    }
  }

  lemma {:induction false} XorCommutes(a: nat, b: nat)
    ensures Xor(a, b) == Xor(b, a)
    decreases a + b
  {
    if a + b > 0 {
      XorCommutes(a / 2, b / 2);
    }
  }

  lemma {:induction false} XorAssociates(a: nat, b: nat, c: nat)
    ensures Xor(Xor(a, b), c) == Xor(a, Xor(b, c))
    decreases a + b + c
  {
    if a + b + c > 0 {
      XorAssociates(a / 2, b / 2, c / 2);
      XorHalves(a, b);
      XorHalves(b, c);
      XorHalves(Xor(a, b), c);
      XorHalves(a, Xor(b, c));
    }
  }

  lemma XorHalves(a: nat, b: nat)
    ensures Xor(a, b) / 2 == Xor(a / 2, b / 2)
    ensures Xor(a, b) % 2 == (if a % 2 == b % 2 then 0 else 1)
  {
  }

  /** Exclusive or with the same value twice does nothing. */
  lemma XorCancel(a: nat, b: nat)
    ensures Xor(Xor(a, b), b) == a
    ensures Xor(a, b) == 0 ==> a == b
  {
    XorAssociates(a, b, b);
    XorSelf(b);
    XorZero(a);
    XorZero(b);
  }

  lemma XorSwap(a: nat, b: nat, c: nat, d: nat)
    ensures Xor(Xor(a, b), Xor(c, d)) == Xor(Xor(a, c), Xor(b, d))
  {
    XorAssociates(a, b, Xor(c, d));
    XorAssociates(b, c, d);
    XorCommutes(b, c);
    XorAssociates(c, b, d);
    XorAssociates(a, c, Xor(b, d));
  }

  lemma {:induction false} XorBound(a: nat, b: nat, n: nat)
    requires a < Pow2(n) && b < Pow2(n)
    ensures Xor(a, b) < Pow2(n)
  {
    if n > 0 {
      XorBound(a / 2, b / 2, n - 1);
    }
  }

  /** Shifting right distributes over exclusive or. */
  lemma {:induction false} XorShr(a: nat, b: nat, i: nat)
    ensures Shr(Xor(a, b), i) == Xor(Shr(a, i), Shr(b, i))
    decreases i
  {
    if i > 0 {
      XorHalves(a, b);
      XorShr(a / 2, b / 2, i - 1);
    }
  }

  /** A value of n + 1 bits shifted right by n is its top bit. */
  lemma {:induction false} ShrTop(x: nat, n: nat)
    requires x < 2 * Pow2(n)
    ensures Shr(x, n) == if x < Pow2(n) then 0 else 1
    decreases n
  {
    if n > 0 {
      ShrTop(x / 2, n - 1);
    }
  }

  lemma ShrNone(x: nat)
    ensures Shr(x, 0) == x
  {
  }

  lemma {:induction false} ShrNext(x: nat, i: nat)
    ensures Shr(x, i + 1) == Shr(x, i) / 2
    decreases i
  {
    if i > 0 {
      ShrNext(x / 2, i - 1);
    }
  }

  lemma {:induction false} ShrAll(x: nat, n: nat)
    requires x < Pow2(n)
    ensures Shr(x, n) == 0
    decreases n
  {
    if n > 0 {
      ShrAll(x / 2, n - 1);
    }
  }

  lemma XorDouble(a: nat, b: nat)
    ensures Xor(2 * a, 2 * b) == 2 * Xor(a, b)
  {
  }

  /** A bit below an even number is set by exclusive or as by addition. */
  lemma XorLowBit(h: nat, b: nat)
    requires b <= 1
    ensures Xor(2 * h, b) == 2 * h + b
  {
    XorZero(h);
  }

  lemma XorPair(h: nat, k: nat, b: nat, c: nat)
    requires b <= 1 && c <= 1
    ensures Xor(2 * h + b, 2 * k + c) == 2 * Xor(h, k) + (if b == c then 0 else 1)
  {
  }

  /** Fields that do not overlap: exclusive or (and inclusive or) is addition. */
  lemma {:induction false} XorDisjoint(t: nat, h: nat, n: nat)
    requires h < Pow2(n)
    ensures Xor(Shl(t, n), h) == Shl(t, n) + h
    decreases n
  {
    if n == 0 {
      XorZero(t);
    } else {
      XorDisjoint(t, h / 2, n - 1);
      XorHalves(Shl(t, n), h);
    }
  }

  lemma {:induction false} ShrShl(t: nat, h: nat, n: nat)
    requires h < Pow2(n)
    ensures Shr(Shl(t, n) + h, n) == t
    decreases n
  {
    if n > 0 {
      ShrShl(t, h / 2, n - 1);
    }
  }

  lemma {:induction false} TopBitCancels(a: nat, b: nat, n: nat)
    requires Pow2(n) <= a < Pow2(n + 1) && Pow2(n) <= b < Pow2(n + 1)
    ensures Xor(a, b) < Pow2(n)
  {
    if n > 0 {
      TopBitCancels(a / 2, b / 2, n - 1);
    }
  }

  /** A value of at least Pow2(n) keeps its high bit when a smaller one is added. */
  lemma {:induction false} TopBitStays(a: nat, b: nat, n: nat)
    requires b < Pow2(n) <= a
    ensures Xor(a, b) >= Pow2(n)
  {
    if n > 0 {
      TopBitStays(a / 2, b / 2, n - 1);
    } else {
      XorZero(a);
    }
  }
}
