/**
 The field GF(2^8) modulo x^8 + x^4 + x^3 + x^2 + 1 (0x11D), in which the
 Reed-Solomon code of the QR symbol is computed.  Addition is exclusive or;
 multiplication is the Horner ("Russian peasant") scheme of the encoder.
 */
module GaloisField {
  import opened Bitwise
  import opened ShiftRegister

  type byte = x: int | 0 <= x < 256

  const MODULUS: nat := 0x11D

  lemma ModulusDegree()
    ensures Generator(MODULUS, 8)
  {
  }

  /** Multiplication by x. */
  function Xtime(z: byte): byte {
    ModulusDegree();
    StepRange(z, MODULUS, 8);
    Step(z, MODULUS, 8)
  }

  function Sum(a: byte, b: byte): byte {
    XorBound(a, b, 8);
    Xor(a, b)
  }

  function Mul(x: byte, y: byte): byte
    decreases y, x
  {
    if y == 0 then 0 else Sum(Xtime(Mul(x, y / 2)), if y % 2 == 1 then x else 0)
  }

  lemma XtimeXor(a: byte, b: byte)
    ensures Xtime(Sum(a, b)) == Sum(Xtime(a), Xtime(b))
  {
    ModulusDegree();
    StepXor(a, b, MODULUS, 8);
  }

  lemma XtimeZero()
    ensures Xtime(0) == 0
  {
    StepSmall(0, MODULUS, 8);
  }

  lemma {:induction false} MulXorLeft(a: byte, b: byte, y: byte)
    ensures Mul(Sum(a, b), y) == Sum(Mul(a, y), Mul(b, y))
    decreases y
  {
    if y == 0 {
      XorZero(0);
    } else {
      var p, q := Mul(a, y / 2), Mul(b, y / 2);
      MulXorLeft(a, b, y / 2);
      XtimeXor(p, q);
      XorSwap(Xtime(p), Xtime(q), if y % 2 == 1 then a else 0, if y % 2 == 1 then b else 0);
      XorZero(0);
    }
  }

  lemma {:induction false} MulXtime(x: byte, y: byte)
    ensures Mul(Xtime(x), y) == Xtime(Mul(x, y))
    decreases y
  {
    XtimeZero();
    if y != 0 {
      MulXtime(x, y / 2);
      XtimeXor(Xtime(Mul(x, y / 2)), if y % 2 == 1 then x else 0);
    }
  }

  lemma {:induction false} ZeroMul(y: byte)
    ensures Mul(0, y) == 0
    decreases y
  {
    XtimeZero();
    XorZero(0);
    if y != 0 {
      ZeroMul(y / 2);
    }
  }

  lemma {:induction false} MulMul(u: byte, x: byte, y: byte)
    ensures Mul(Mul(u, x), y) == Mul(Mul(u, y), x)
    decreases x
  {
    ZeroMul(y);
    if x != 0 {
      var p := Mul(u, x / 2);
      MulXorLeft(Xtime(p), if x % 2 == 1 then u else 0, y);
      MulXtime(p, y);
      MulMul(u, x / 2, y);
    }
  }

  lemma {:induction false} OneMul(y: byte)
    ensures Mul(1, y) == y
    decreases y
  {
    if y != 0 {
      OneMul(y / 2);
      assert Pow2(7) == 128;
      StepSmall(y / 2, MODULUS, 8);
      XorLowBit(y / 2, y % 2);
    }
  }

  lemma MulCommutes(x: byte, y: byte)
    ensures Mul(x, y) == Mul(y, x)
  {
    MulMul(1, x, y);
    OneMul(x);
    OneMul(y);
  }

  lemma MulAssociates(x: byte, y: byte, z: byte)
    ensures Mul(Mul(x, y), z) == Mul(x, Mul(y, z))
  {
    MulCommutes(x, y);
    MulMul(y, x, z);
    MulCommutes(x, Mul(y, z));
  }

  lemma MulXorRight(x: byte, a: byte, b: byte)
    ensures Mul(x, Sum(a, b)) == Sum(Mul(x, a), Mul(x, b))
  {
    MulXorLeft(a, b, x);
    MulCommutes(x, Sum(a, b));
    MulCommutes(x, a);
    MulCommutes(x, b);
  }

  /** One round of the multiplication loop, also for y == 0. */
  lemma MulRound(x: byte, h: byte, b: nat)
    requires b <= 1 && 2 * h + b < 256
    ensures Mul(x, 2 * h + b) == Xor(Xtime(Mul(x, h)), b * x)
  {
    hide Xor;
    XtimeZero();
    XorZero(0);
  }

  /** The product is the polynomial product mod 0x11D: it, and nothing else, is that remainder. */
  lemma MulIsRemainder(x: byte, y: byte, r: nat)
    ensures IsRemainder(r, Carryless(y, x), MODULUS, 8) <==> r == Mul(x, y)
  {
    hide IsRemainder, Xor, Carryless, Mul;
    ModulusDegree();
    var q := MulDivides(x, y);
    QuotientGives(Mul(x, y), Carryless(y, x), q, MODULUS, 8);
    if IsRemainder(r, Carryless(y, x), MODULUS, 8) {
      RemainderUnique(r, Mul(x, y), Carryless(y, x), MODULUS, 8);
    }
  }

  lemma {:induction false} MulDivides(x: byte, y: byte) returns (q: nat)
    ensures Carryless(y, x) == Xor(Carryless(q, MODULUS), Mul(x, y))
    decreases y
  {
    if y == 0 {
      q := 0;
      XorZero(0);
    } else {
      var p := MulDivides(x, y / 2);
      q := AddBit(x, y, p);
    }
  }

  lemma AddBit(x: byte, y: byte, p: nat) returns (q: nat)
    requires y != 0 && Carryless(y / 2, x) == Xor(Carryless(p, MODULUS), Mul(x, y / 2))
    ensures Carryless(y, x) == Xor(Carryless(q, MODULUS), Mul(x, y))
  {
    hide Xor;
    var m := Mul(x, y / 2);
    q := 2 * p + Shr(m, 7);
    ExtendDivision(p, m, Carryless(y / 2, x), (y % 2) * x, MODULUS, 8);
    MulRound(x, y / 2, y % 2);
  }

  /** reedSolomonMultiply; the check that the product is a byte cannot fail. */
  method Multiply(x: byte, y: byte) returns (r: byte)
    ensures r == Mul(x, y)
  {
    hide Xor, Mul, Xtime, Shr;
    var z: nat := 0;
    MulNothing(x);
    ShrAll(y, 8);
    for i := 8 downto 0
      invariant Shr(y, i) < 256 && z == Mul(x, Shr(y, i))
    {
      z := Xor(2 * z, Shr(z, 7) * 0x11D);
      z := Xor(z, (Shr(y, i) % 2) * x);
      ShrNext(y, i);
      ShrSmaller(y, i);
      MulRound(x, Shr(y, i + 1), Shr(y, i) % 2);
      XtimeIs(Mul(x, Shr(y, i + 1)));
    }
    ShrNone(y);
    r := z;
  }

  lemma XtimeIs(z: byte)
    ensures Xtime(z) == Xor(2 * z, Shr(z, 7) * 0x11D)
  {
    hide Xor, Shr;
  }

  lemma MulNothing(x: byte)
    ensures Mul(x, 0) == 0
  {
  }

  lemma {:induction false} ShrSmaller(y: nat, i: nat)
    ensures Shr(y, i) <= y
    decreases i
  {
    if i > 0 {
      ShrSmaller(y / 2, i - 1);
    }
  }
}
