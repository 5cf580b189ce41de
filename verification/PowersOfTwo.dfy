/**
 The powers of 2 in GF(2^8): 2 generates the multiplicative group, so its first 255
 powers are all the non-zero bytes, without repetition.  It follows that the
 multiplication has no zero divisors.
 */
module PowersOfTwo {
  import opened Bitwise
  import opened ShiftRegister
  import opened GaloisField

  /** 2 to the power k. */
  function Exp(k: nat): byte {
    if k == 0 then 1 else Xtime(Exp(k - 1))
  }

  /*---- Xtime on machine words, where constants are quick to compute ----*/

  function Word(z: bv8): bv8 {
    (z << 1) ^ ((z >> 7) * 0x1D)
  }

  lemma FlipThreeBits(x: nat, y: nat, v: nat)
    requires v < 8
    ensures Xor(8 * x + v, 8 * y + 7) == 8 * Xor(x, y) + 7 - v
  {
    hide Xor;
    var a, b, c := v / 4, v / 2 % 2, v % 2;
    assert v == 4 * a + 2 * b + c;
    XorPair(4 * x + 2 * a + b, 4 * y + 3, c, 1);
    XorPair(2 * x + a, 2 * y + 1, b, 1);
    XorPair(x, y, a, 1);
  }

  lemma DropTopBit(h: nat)
    requires h < 8
    ensures Xor(8 + h, 8) == h
  {
    assert Shl(1, 3) == 8 && Pow2(3) == 8;
    XorDisjoint(1, h, 3);
    XorCommutes(8, h);
    XorCancel(h, 8);
  }

  /** Above 128, adding 0x11D flips bits 0, 2, 3 and 4. */
  lemma XtimeHigh(z: nat)
    requires 128 <= z < 256
    ensures Xor(2 * z, MODULUS) == 2 * z - 227 - 8 * ((z / 2) % 8)
  {
    hide Xor;
    var u := z / 2;
    FlipThreeBits(u / 8, 8, u % 8);
    DropTopBit(u / 8 - 8);
    XorPair(u, 71, z % 2, 0);
    XorPair(z, 142, 0, 1);
  }

  lemma ShiftedWord(z: bv8)
    ensures (z >> 1) as int == z as int / 2
  {
  }

  lemma LowBitsOfWord(z: bv8)
    ensures (z & 7) as int == z as int % 8
  {
  }

  lemma ClearedWord(w: bv8, v: bv8)
    requires v < 8 && v == (w >> 2) & 7
    ensures (w & 0xE3) as int == w as int - 4 * (v as int)
  {
  }

  lemma FilledWord(a: bv8, v: bv8)
    requires v < 8 && a & 0x1D == 0
    ensures (a + (29 - 4 * v)) as int == a as int + 29 - 4 * (v as int)
  {
  }

  lemma WordHigh(z: bv8)
    requires z >= 128
    ensures Word(z) as int == 2 * (z as int) - 227 - 8 * ((z as int / 2) % 8)
  {
    var v, w := (z >> 1) & 7, z << 1;
    ShiftedWord(z);
    LowBitsOfWord(z >> 1);
    assert w as int == 2 * (z as int) - 256;
    assert Word(z) == (w & 0xE3) + (29 - 4 * v);
    ClearedWord(w, v);
    FilledWord(w & 0xE3, v);
  }

  lemma XtimeWord(z: bv8)
    ensures Xtime(z as int) == Word(z) as int
  {
    hide Word;
    if z < 128 {
      XtimeSmall(z as int);
      WordLow(z);
    } else {
      XtimeLarge(z as int);
      WordHigh(z);
    }
  }

  lemma WordLow(z: bv8)
    requires z < 128
    ensures Word(z) as int == 2 * (z as int)
  {
  }

  lemma XtimeSmall(z: byte)
    requires z < 128
    ensures Xtime(z) == 2 * z
  {
    assert Pow2(7) == 128;
    StepSmall(z, MODULUS, 8);
  }

  lemma XtimeLarge(z: byte)
    requires z >= 128
    ensures Xtime(z) == 2 * z - 227 - 8 * ((z / 2) % 8)
  {
    hide Xor;
    assert Pow2(7) == 128;
    ShrTop(z, 7);
    XtimeHigh(z);
  }

  /*---- The order of 2 is 255 ----*/

  function Run(b: bv8, n: nat): bv8
    decreases n
  {
    if n == 0 then b else Run(Word(b), n - 1)
  }

  /** None of the first n words of the run is 1. */
  predicate AvoidsOne(b: bv8, n: nat)
    decreases n
  {
    n == 0 || (b != 1 && AvoidsOne(Word(b), n - 1))
  }

  function Word5(z: bv8): bv8 { Word(Word(Word(Word(Word(z))))) }
  function Word25(z: bv8): bv8 { Word5(Word5(Word5(Word5(Word5(z))))) }

  predicate Clear5(z: bv8) {
    z != 1 && Word(z) != 1 && Word(Word(z)) != 1 && Word(Word(Word(z))) != 1 && Word(Word(Word(Word(z)))) != 1
  }
  predicate Clear25(z: bv8) {
    Clear5(z) && Clear5(Word5(z)) && Clear5(Word5(Word5(z))) && Clear5(Word5(Word5(Word5(z))))
    && Clear5(Word5(Word5(Word5(Word5(z)))))
  }

  lemma {:induction false} Jump5(b: bv8, n: nat)
    ensures Run(b, n + 5) == Run(Word5(b), n)
    ensures AvoidsOne(b, n + 5) == (Clear5(b) && AvoidsOne(Word5(b), n))
  {
    var c := Word(Word(Word(b)));
    assert Run(c, n + 2) == Run(Word5(b), n);
    assert Run(b, n + 5) == Run(Word(b), n + 4) == Run(c, n + 2);
    assert AvoidsOne(c, n + 2) == (c != 1 && Word(c) != 1 && AvoidsOne(Word5(b), n));
    assert AvoidsOne(b, n + 5) == (b != 1 && Word(b) != 1 && AvoidsOne(Word(Word(b)), n + 3));
  }

  lemma Jump25(b: bv8, n: nat)
    ensures Run(b, n + 25) == Run(Word25(b), n)
    ensures AvoidsOne(b, n + 25) == (Clear25(b) && AvoidsOne(Word25(b), n))
  {
    Jump5(b, n + 20);
    Jump5(Word5(b), n + 15);
    Jump5(Word5(Word5(b)), n + 10);
    Jump5(Word5(Word5(Word5(b))), n + 5);
    Jump5(Word5(Word5(Word5(Word5(b)))), n);
  }

  lemma Landmarks()
    ensures Word25(2) == 6 && Clear25(2)
    ensures Word25(6) == 10 && Clear25(6)
    ensures Word25(10) == 30 && Clear25(10)
    ensures Word25(30) == 34 && Clear25(30)
    ensures Word25(34) == 102 && Clear25(34)
    ensures Word25(102) == 170 && Clear25(102)
    ensures Word25(170) == 227 && Clear25(170)
    ensures Word25(227) == 56 && Clear25(227)
    ensures Word25(56) == 72 && Clear25(56)
    ensures Word25(72) == 216 && Clear25(72)
  {
  }

  lemma FullRun()
    ensures Run(2, 254) == 1 && AvoidsOne(2, 254)
  {
    hide Word25, Clear25, Run, AvoidsOne;
    Landmarks();
    Jump25(2, 229);
    Jump25(6, 204);
    Jump25(10, 179);
    Jump25(30, 154);
    Jump25(34, 129);
    Jump25(102, 104);
    Jump25(170, 79);
    Jump25(227, 54);
    Jump25(56, 29);
    Jump25(72, 4);
    LastSteps();
  }

  lemma LastSteps()
    ensures Run(216, 4) == 1 && AvoidsOne(216, 4)
  {
    assert Word(216) == 173 && Word(173) == 71;
    assert Run(216, 4) == Run(71, 2);
    assert AvoidsOne(71, 2);
  }

  lemma {:induction false} ExpIsRun(i: nat, b: bv8, n: nat)
    requires Exp(i) == b as int
    ensures Exp(i + n) == Run(b, n) as int
    decreases n
  {
    if n > 0 {
      XtimeWord(b);
      ExpIsRun(i + 1, Word(b), n - 1);
    }
  }

  lemma {:induction false} AvoidsOneAt(b: bv8, n: nat, j: nat)
    requires AvoidsOne(b, n) && j < n
    ensures Run(b, j) != 1
    decreases n
  {
    if j > 0 {
      AvoidsOneAt(Word(b), n - 1, j - 1);
    }
  }

  /** 2 has order 255: its powers come back to 1 after 255 steps, and not before. */
  lemma Order(k: nat)
    requires 0 < k <= 255
    ensures Exp(k) == 1 <==> k == 255
  {
    var two: bv8 := 2;
    XtimeWord(1);
    assert Exp(1) == Xtime(Exp(0));
    assert Exp(1) == two as int;
    FullRun();
    ExpIsRun(1, two, k - 1);
    if k < 255 {
      AvoidsOneAt(two, 254, k - 1);
    }
  }

  /*---- The powers are distinct ----*/

  lemma XtimeInjective(a: byte, b: byte)
    requires Xtime(a) == Xtime(b)
    ensures a == b
  {
    hide Xor;
    var z := Sum(a, b);
    XtimeXor(a, b);
    XorSelf(Xtime(a));
    XtimeNonZero(z);
    XorCancel(a, b);
  }

  lemma XtimeNonZero(z: byte)
    ensures Xtime(z) == 0 ==> z == 0
  {
    assert Pow2(7) == 128;
    ShrTop(z, 7);
    if z < 128 {
      StepSmall(z, MODULUS, 8);
    } else {
      XtimeHigh(z);
    }
  }

  lemma {:induction false} ExpDistinct(i: nat, j: nat)
    requires i < j < 255
    ensures Exp(i) != Exp(j)
  {
    if i == 0 {
      Order(j);
    } else {
      ExpDistinct(i - 1, j - 1);
      if Exp(i) == Exp(j) {
        XtimeInjective(Exp(i - 1), Exp(j - 1));
      }
    }
  }

  lemma {:induction false} ExpNonZero(k: nat)
    ensures Exp(k) != 0
  {
    if k > 0 {
      ExpNonZero(k - 1);
      XtimeNonZero(Exp(k - 1));
    }
  }

  lemma {:induction false} ExpAdd(i: nat, j: nat)
    ensures Exp(i + j) == Mul(Exp(i), Exp(j))
  {
    hide Xor, Mul, Xtime;
    if i == 0 {
      OneMul(Exp(j));
    } else {
      ExpAdd(i - 1, j);
      MulXtime(Exp(i - 1), Exp(j));
    }
  }

  /*---- Every non-zero byte is a power of 2 ----*/

  ghost function Powers(n: nat): set<int> {
    set k | 0 <= k < n :: Exp(k)
  }

  ghost function UpTo(n: nat): (s: set<int>)
    ensures forall x :: x in s <==> 1 <= x <= n
    ensures |s| == n
  {
    if n == 0 then {} else UpTo(n - 1) + {n}
  }

  lemma {:induction false} PowersCount(n: nat)
    requires n <= 255
    ensures |Powers(n)| == n
  {
    hide Exp;
    if n > 0 {
      PowersCount(n - 1);
      forall k | 0 <= k < n - 1
        ensures Exp(k) != Exp(n - 1)
      {
        ExpDistinct(k, n - 1);
      }
      assert Powers(n) == Powers(n - 1) + {Exp(n - 1)};
    }
  }

  lemma SubsetOfSameSize(a: set<int>, b: set<int>)
    requires a <= b && |a| == |b|
    ensures a == b
  {
    assert b == a + (b - a);
  }

  lemma Log(x: byte) returns (k: nat)
    requires x != 0
    ensures k < 255 && Exp(k) == x
  {
    PowersCount(255);
    assert Powers(255) <= UpTo(255) by {
      forall i: nat | i < 255
        ensures Exp(i) != 0
      {
        ExpNonZero(i);
      }
    }
    SubsetOfSameSize(Powers(255), UpTo(255));
    assert x in Powers(255);
    k :| 0 <= k < 255 && Exp(k) == x;
  }

  /** The field has no zero divisors. */
  lemma NoZeroDivisors(x: byte, y: byte)
    ensures Mul(x, y) == 0 <==> x == 0 || y == 0
  {
    if x != 0 && y != 0 {
      var i := Log(x);
      var j := Log(y);
      ExpAdd(i, j);
      ExpNonZero(i + j);
    } else {
      ZeroMul(y);
      ZeroMul(x);
      MulCommutes(x, y);
    }
  }
}
