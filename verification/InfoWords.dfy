/**
 The format word (error correction level and mask) and the version word, each protected
 by its own code.
 */
module InfoWords {
  import opened Bitwise
  import opened ShiftRegister
  import opened Segments
  import opened Sizes

  const FORMAT_GENERATOR: nat := 0x537
  const FORMAT_MASK: nat := 0x5412
  const VERSION_GENERATOR: nat := 0x1F25

  /** getFormatBits */
  function LevelBits(ecl: Ecc): nat {
    match ecl case Low => 1 case Medium => 0 case Quartile => 3 case High => 2
  }

  function LevelOfBits(b: nat): Ecc {
    match b case 1 => Low case 0 => Medium case 3 => Quartile case _ => High
  }

  function FormatData(ecl: Ecc, mask: nat): nat {
    8 * LevelBits(ecl) + mask
  }

  /** The data in the high bits and the register after `n` steps in the low ones. */
  function Protected(data: nat, g: nat, n: nat): nat
    requires n >= 1
  {
    Shl(data, n) + Steps(data, g, n, n)
  }

  function FormatWord(ecl: Ecc, mask: nat): nat {
    Xor(Protected(FormatData(ecl, mask), FORMAT_GENERATOR, 10), FORMAT_MASK)
  }

  function VersionWord(ver: nat): nat {
    Protected(ver, VERSION_GENERATOR, 12)
  }

  /** The level and the mask that a format word announces. */
  function ReadFormat(word: nat): (Ecc, nat) {
    var data := Shr(Xor(word, 0x5412), 10);
    (LevelOfBits(data / 8), data % 8)
  }

  lemma GeneratorDegrees()
    ensures Generator(FORMAT_GENERATOR, 10) && Generator(VERSION_GENERATOR, 12)
    ensures Pow2(5) == 32 && Pow2(6) == 64 && Pow2(10) == 1024 && Pow2(12) == 4096
  {
    assert Pow2(5) == 32 && Pow2(6) == 64;
    assert Pow2(10) == 32 * Pow2(5);
    assert Pow2(12) == 64 * Pow2(6);
  }

  /** A protected word is a multiple of the generator: it has no remainder. */
  lemma ProtectedIsMultiple(data: nat, g: nat, n: nat)
    requires Generator(g, n) && data < Pow2(n)
    ensures Protected(data, g, n) == Carryless(Quotient(data, g, n, n), g)
  {
    hide Xor, Carryless, Quotient, Steps, Shl;
    var r, c := Steps(data, g, n, n), Carryless(Quotient(data, g, n, n), g);
    StepsDivide(data, g, n, n);
    XorDisjoint(data, r, n);
    XorCancel(c, r);
  }

  /** It is the only multiple of the generator that has the data in its high bits. */
  lemma ProtectedUnique(data: nat, word: nat, g: nat, n: nat)
    requires Generator(g, n) && data < Pow2(n)
    ensures Shr(word, n) == data && IsMultiple(word, g) <==> word == Protected(data, g, n)
  {
    hide Xor, Carryless, Quotient, Steps, Shl, Shr;
    var r := Steps(data, g, n, n);
    StepsDivide(data, g, n, n);
    ShrShl(data, r, n);
    ProtectedIsMultiple(data, g, n);
    assert word == Protected(data, g, n) ==> Divides(Quotient(data, g, n, n), g, word);
    if Shr(word, n) == data && IsMultiple(word, g) {
      var h := LowPart(word, n);
      XorDisjoint(data, h, n);
      StepsAreRemainder(data, g, n, n, h);
    }
  }

  /** Without data only the mask is left. */
  lemma FormatMaskWord()
    ensures FormatWord(Medium, 0) == 0x5412
  {
    hide Xor, Carryless, Protected, Shr;
    GeneratorDegrees();
    ShrAll(0, 10);
    NoProduct(FORMAT_GENERATOR);
    assert Divides(0, FORMAT_GENERATOR, 0);
    ProtectedUnique(0, 0, FORMAT_GENERATOR, 10);
    XorZero(FORMAT_MASK);
  }

  lemma {:induction false} LowPart(word: nat, n: nat) returns (h: nat)
    ensures h < Pow2(n) && word == Shl(Shr(word, n), n) + h
    decreases n
  {
    if n == 0 {
      h := 0;
    } else {
      h := LowPart(word / 2, n - 1);
      h := 2 * h + word % 2;
    }
  }

  lemma {:induction false} ShlBound(x: nat, k: nat, n: nat)
    requires x < Pow2(k)
    ensures Shl(x, n) + Pow2(n) <= Pow2(k + n)
  {
    if n > 0 {
      ShlBound(x, k, n - 1);
    }
  }

  /** The range checks of drawFormatBits and drawVersion cannot fail. */
  lemma ProtectedRange(data: nat, k: nat, g: nat, n: nat)
    requires Generator(g, n) && data < Pow2(k) && k <= n
    ensures Steps(data, g, n, n) < Pow2(n) && Protected(data, g, n) < Pow2(k + n)
  {
    Pow2Mono(k, n);
    StepsRange(data, g, n, n);
    ShlBound(data, k, n);
  }

  lemma FormatWordRange(ecl: Ecc, mask: nat)
    requires mask < 8
    ensures FormatWord(ecl, mask) < Pow2(15)
  {
    hide Xor, Steps, Shl;
    GeneratorDegrees();
    ProtectedRange(FormatData(ecl, mask), 5, FORMAT_GENERATOR, 10);
    assert Pow2(15) == 32 * Pow2(10);
    XorBound(Protected(FormatData(ecl, mask), FORMAT_GENERATOR, 10), FORMAT_MASK, 15);
  }

  lemma VersionWordRange(ver: int)
    requires Version(ver)
    ensures VersionWord(ver) < Pow2(18)
  {
    GeneratorDegrees();
    ProtectedRange(ver, 6, VERSION_GENERATOR, 12);
  }

  /** The format word tells the level and the mask. */
  lemma ReadFormatWord(ecl: Ecc, mask: nat)
    requires mask < 8
    ensures ReadFormat(FormatWord(ecl, mask)) == (ecl, mask)
  {
    hide Xor, Steps, Shl, Shr;
    var data := FormatData(ecl, mask);
    GeneratorDegrees();
    ProtectedRange(data, 5, FORMAT_GENERATOR, 10);
    XorCancel(Protected(data, FORMAT_GENERATOR, 10), FORMAT_MASK);
    ShrShl(data, Steps(data, FORMAT_GENERATOR, 10, 10), 10);
  }
}
