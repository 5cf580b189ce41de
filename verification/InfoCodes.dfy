/** How far apart the format words are, and the version words. */
module InfoCodes {
  import opened Bitwise
  import opened ShiftRegister
  import opened BitBuffers
  import opened BitErrors
  import opened Sizes
  import opened InfoWords

  /*---- The bits of a multiple ----*/

  lemma XorBit(a: nat, b: nat, i: nat)
    ensures GetBit(Xor(a, b), i) == (GetBit(a, i) != GetBit(b, i))
  {
    XorShr(a, b, i);
    XorHalves(Shr(a, i), Shr(b, i));
  }

  predicate Tap(g: nat, i: int) {
    i >= 0 && GetBit(g, i)
  }

  /** Bit i of the product of g and the low k bits of q. */
  predicate ProductBit(q: nat, g: nat, i: int, k: nat)
    decreases k
  {
    k > 0 && ((q % 2 == 1 && Tap(g, i)) != ProductBit(q / 2, g, i - 1, k - 1))
  }

  lemma {:induction false} NoProductBit(q: nat, g: nat, i: int, k: nat)
    requires i < 0
    ensures !ProductBit(q, g, i, k)
    decreases k
  {
    if k > 0 {
      NoProductBit(q / 2, g, i - 1, k - 1);
    }
  }

  lemma {:induction false} BitOfProduct(q: nat, g: nat, i: nat, k: nat)
    requires q < Pow2(k)
    ensures GetBit(Carryless(q, g), i) == ProductBit(q, g, i, k)
    decreases k
  {
    hide Xor, Shr, Carryless;
    NoBits(i);
    if k == 0 {
      NoProduct(g);
    } else {
      var c := Carryless(q / 2, g);
      CarrylessShift(q / 2, q % 2, g);
      XorBit(2 * c, (q % 2) * g, i);
      DoubleBit(c, i);
      if i > 0 {
        BitOfProduct(q / 2, g, i - 1, k - 1);
      } else {
        NoProductBit(q / 2, g, -1, k - 1);
      }
    }
  }

  lemma DoubleBit(c: nat, i: nat)
    ensures GetBit(2 * c, i) == (i > 0 && GetBit(c, i - 1))
  {
  }

  /*---- Weights ----*/

  lemma SixBits(q: nat, g: nat, i: int)
    ensures ProductBit(q, g, i, 6) ==
            ((GetBit(q, 0) && Tap(g, i)) != ((GetBit(q, 1) && Tap(g, i - 1)) !=
              ((GetBit(q, 2) && Tap(g, i - 2)) != ((GetBit(q, 3) && Tap(g, i - 3)) !=
                ((GetBit(q, 4) && Tap(g, i - 4)) != (GetBit(q, 5) && Tap(g, i - 5)))))))
  {
    hide Tap;
    LaterBits(q);
    LaterBits(q / 2);
    LaterBits(q / 2 / 2);
    LaterBits(q / 2 / 2 / 2);
    LaterBits(q / 2 / 2 / 2 / 2);
    hide GetBit;
    NextBit(q, g, i, 6);
    NextBit(q / 2, g, i - 1, 5);
    NextBit(q / 2 / 2, g, i - 2, 4);
    NextBit(q / 2 / 2 / 2, g, i - 3, 3);
    NextBit(q / 2 / 2 / 2 / 2, g, i - 4, 2);
    NextBit(q / 2 / 2 / 2 / 2 / 2, g, i - 5, 1);
  }

  lemma NextBit(q: nat, g: nat, i: int, k: nat)
    requires k > 0
    ensures ProductBit(q, g, i, k) == ((GetBit(q, 0) && Tap(g, i)) != (k > 1 && ProductBit(q / 2, g, i - 1, k - 1)))
  {
    hide Tap;
  }

  lemma LaterBits(q: nat)
    ensures forall j: nat :: GetBit(q, j + 1) == GetBit(q / 2, j)
  {
  }

  lemma SomeBit(q: nat)
    requires 0 < q < 64
    ensures GetBit(q, 0) || GetBit(q, 1) || GetBit(q, 2) || GetBit(q, 3) || GetBit(q, 4) || GetBit(q, 5)
  {
    LaterBits(q);
    LaterBits(q / 2);
    LaterBits(q / 2 / 2);
    LaterBits(q / 2 / 2 / 2);
    LaterBits(q / 2 / 2 / 2 / 2);
    FirstBits(q);
    FirstBits(q / 2);
    FirstBits(q / 2 / 2);
    FirstBits(q / 2 / 2 / 2);
    FirstBits(q / 2 / 2 / 2 / 2);
    FirstBits(q / 2 / 2 / 2 / 2 / 2);
    hide GetBit;
  }

  lemma FirstBits(q: nat)
    ensures GetBit(q, 0) <==> q % 2 == 1
  {
  }

  lemma HighBit(q: nat)
    requires q < 32
    ensures !GetBit(q, 5)
  {
    assert Pow2(5) == 32;
    ShrAll(q, 5);
  }

  lemma PowerOfSix()
    ensures Pow2(6) == 64
  {
  }

  lemma ThreeTaps(g: nat, k: nat, x: nat)
    requires Shr(g, k) == x
    ensures Tap(g, k) == (x % 2 == 1) && Tap(g, k + 1) == (x / 2 % 2 == 1) && Tap(g, k + 2) == (x / 4 % 2 == 1)
    ensures Shr(g, k + 3) == x / 8
  {
    hide Shr;
    ShrNext(g, k);
    ShrNext(g, k + 1);
    ShrNext(g, k + 2);
  }

  lemma NoTaps(g: nat)
    ensures !Tap(g, -1) && !Tap(g, -2) && !Tap(g, -3) && !Tap(g, -4) && !Tap(g, -5)
  {
  }

  lemma ThreeOnes(u: seq<bool>, k: nat)
    requires k + 3 <= |u|
    ensures Ones(u, 0) == 0
    ensures Ones(u, k + 3) == Ones(u, k) + One(u[k]) + One(u[k + 1]) + One(u[k + 2])
  {
    assert Ones(u, k + 3) == Ones(u, k + 2) + One(u[k + 2]);
  }

  lemma FormatTaps()
    ensures !Tap(FORMAT_GENERATOR, -5) && !Tap(FORMAT_GENERATOR, -4) && !Tap(FORMAT_GENERATOR, -3)
            && !Tap(FORMAT_GENERATOR, -2) && !Tap(FORMAT_GENERATOR, -1) && Tap(FORMAT_GENERATOR, 0)
            && Tap(FORMAT_GENERATOR, 1) && Tap(FORMAT_GENERATOR, 2) && !Tap(FORMAT_GENERATOR, 3)
            && Tap(FORMAT_GENERATOR, 4) && Tap(FORMAT_GENERATOR, 5) && !Tap(FORMAT_GENERATOR, 6)
            && !Tap(FORMAT_GENERATOR, 7) && Tap(FORMAT_GENERATOR, 8) && !Tap(FORMAT_GENERATOR, 9)
            && Tap(FORMAT_GENERATOR, 10) && !Tap(FORMAT_GENERATOR, 11) && !Tap(FORMAT_GENERATOR, 12)
            && !Tap(FORMAT_GENERATOR, 13) && !Tap(FORMAT_GENERATOR, 14)
  {
    hide Shr, Tap;
    ShrNone(FORMAT_GENERATOR);
    NoTaps(FORMAT_GENERATOR);
    ThreeTaps(FORMAT_GENERATOR, 0, 1335);
    ThreeTaps(FORMAT_GENERATOR, 3, 166);
    ThreeTaps(FORMAT_GENERATOR, 6, 20);
    ThreeTaps(FORMAT_GENERATOR, 9, 2);
    ThreeTaps(FORMAT_GENERATOR, 12, 0);
  }

  /** The bits of the multiples of the format generator, highest first. */
  function FormatProduct(a: bool, b: bool, c: bool, d: bool, e: bool): (u: seq<bool>)
    ensures |u| == 15
  {
    [e, d, c != e, b != d, a != c, b != e, (a != d) != e, c != d, (b != c) != e, ((a != b) != d) != e,
     ((a != c) != d) != e, (b != c) != d, (a != b) != c, a != b, a]
  }

  function FormatOf(q: nat): (u: seq<bool>)
    ensures |u| == 15
  {
    FormatProduct(GetBit(q, 0), GetBit(q, 1), GetBit(q, 2), GetBit(q, 3), GetBit(q, 4))
  }

  lemma FormatSum(a: bool, b: bool, c: bool, d: bool, e: bool, u: seq<bool>)
    requires (a || b || c || d || e) && u == FormatProduct(a, b, c, d, e)
    ensures One(u[0]) + One(u[1]) + One(u[2]) + One(u[3]) + One(u[4]) + One(u[5]) + One(u[6]) + One(u[7])
            + One(u[8]) + One(u[9]) + One(u[10]) + One(u[11]) + One(u[12]) + One(u[13]) + One(u[14]) >= 7
  {
  }

  lemma FormatWeight(a: bool, b: bool, c: bool, d: bool, e: bool)
    requires a || b || c || d || e
    ensures Ones(FormatProduct(a, b, c, d, e), 15) >= 7
  {
    hide FormatProduct, Ones;
    var u := FormatProduct(a, b, c, d, e);
    FormatSum(a, b, c, d, e, u);
    ThreeOnes(u, 0);
    ThreeOnes(u, 3);
    ThreeOnes(u, 6);
    ThreeOnes(u, 9);
    ThreeOnes(u, 12);
  }

  lemma FormatBits(q: nat, i: nat)
    requires q < 32 && i < 15
    ensures ProductBit(q, FORMAT_GENERATOR, i, 6) == FormatOf(q)[14 - i]
  {
    hide Tap, GetBit, ProductBit;
    FormatTaps();
    SixBits(q, FORMAT_GENERATOR, i);
    HighBit(q);
  }

  /** A non-zero multiple has at least seven ones. */
  lemma FormatMultiple(q: nat)
    requires 0 < q < 32
    ensures Ones(Bits(Carryless(q, FORMAT_GENERATOR), 15), 15) >= 7
  {
    hide GetBit, Carryless, ProductBit, FormatProduct;
    var u, v := Bits(Carryless(q, FORMAT_GENERATOR), 15), FormatOf(q);
    PowerOfSix();
    forall k | 0 <= k < 15
      ensures u[k] == v[k]
    {
      BitsAt(Carryless(q, FORMAT_GENERATOR), 15, k);
      BitOfProduct(q, FORMAT_GENERATOR, 14 - k, 6);
      FormatBits(q, 14 - k);
    }
    assert u == v;
    SomeBit(q);
    HighBit(q);
    FormatWeight(GetBit(q, 0), GetBit(q, 1), GetBit(q, 2), GetBit(q, 3), GetBit(q, 4));
  }

  lemma VersionTaps()
    ensures !Tap(VERSION_GENERATOR, -5) && !Tap(VERSION_GENERATOR, -4) && !Tap(VERSION_GENERATOR, -3)
            && !Tap(VERSION_GENERATOR, -2) && !Tap(VERSION_GENERATOR, -1) && Tap(VERSION_GENERATOR, 0)
            && !Tap(VERSION_GENERATOR, 1) && Tap(VERSION_GENERATOR, 2) && !Tap(VERSION_GENERATOR, 3)
            && !Tap(VERSION_GENERATOR, 4) && Tap(VERSION_GENERATOR, 5) && !Tap(VERSION_GENERATOR, 6)
            && !Tap(VERSION_GENERATOR, 7) && Tap(VERSION_GENERATOR, 8) && Tap(VERSION_GENERATOR, 9)
            && Tap(VERSION_GENERATOR, 10) && Tap(VERSION_GENERATOR, 11) && Tap(VERSION_GENERATOR, 12)
            && !Tap(VERSION_GENERATOR, 13) && !Tap(VERSION_GENERATOR, 14) && !Tap(VERSION_GENERATOR, 15)
            && !Tap(VERSION_GENERATOR, 16) && !Tap(VERSION_GENERATOR, 17)
  {
    hide Shr, Tap;
    ShrNone(VERSION_GENERATOR);
    NoTaps(VERSION_GENERATOR);
    ThreeTaps(VERSION_GENERATOR, 0, 7973);
    ThreeTaps(VERSION_GENERATOR, 3, 996);
    ThreeTaps(VERSION_GENERATOR, 6, 124);
    ThreeTaps(VERSION_GENERATOR, 9, 15);
    ThreeTaps(VERSION_GENERATOR, 12, 1);
    ThreeTaps(VERSION_GENERATOR, 15, 0);
  }

  /** The bits of the multiples of the version generator, highest first. */
  function VersionProduct(a: bool, b: bool, c: bool, d: bool, e: bool, f: bool): (u: seq<bool>)
    ensures |u| == 18
  {
    [f, e != f, (d != e) != f, ((c != d) != e) != f, (((b != c) != d) != e) != f, (((a != b) != c) != d) != e,
     ((a != b) != c) != d, ((a != b) != c) != f, (a != b) != e, a != d, c != f, b != e, (a != d) != f, c != e,
     b != d, a != c, b, a]
  }

  function VersionOf(q: nat): (u: seq<bool>)
    ensures |u| == 18
  {
    VersionProduct(GetBit(q, 0), GetBit(q, 1), GetBit(q, 2), GetBit(q, 3), GetBit(q, 4), GetBit(q, 5))
  }

  lemma VersionSum(a: bool, b: bool, c: bool, d: bool, e: bool, f: bool, u: seq<bool>)
    requires (a || b || c || d || e || f) && u == VersionProduct(a, b, c, d, e, f)
    ensures One(u[0]) + One(u[1]) + One(u[2]) + One(u[3]) + One(u[4]) + One(u[5]) + One(u[6]) + One(u[7])
            + One(u[8]) + One(u[9]) + One(u[10]) + One(u[11]) + One(u[12]) + One(u[13]) + One(u[14]) + One(u[15])
            + One(u[16]) + One(u[17]) >= 8
  {
  }

  lemma VersionWeight(a: bool, b: bool, c: bool, d: bool, e: bool, f: bool)
    requires a || b || c || d || e || f
    ensures Ones(VersionProduct(a, b, c, d, e, f), 18) >= 8
  {
    hide VersionProduct, Ones;
    var u := VersionProduct(a, b, c, d, e, f);
    VersionSum(a, b, c, d, e, f, u);
    ThreeOnes(u, 0);
    ThreeOnes(u, 3);
    ThreeOnes(u, 6);
    ThreeOnes(u, 9);
    ThreeOnes(u, 12);
    ThreeOnes(u, 15);
  }

  lemma VersionBitsLow(q: nat, i: nat)
    requires q < 64 && i < 9
    ensures ProductBit(q, VERSION_GENERATOR, i, 6) == VersionOf(q)[17 - i]
  {
    hide Tap, GetBit, ProductBit;
    VersionTaps();
    SixBits(q, VERSION_GENERATOR, i);
  }

  lemma VersionBitsHigh(q: nat, i: nat)
    requires q < 64 && 9 <= i < 18
    ensures ProductBit(q, VERSION_GENERATOR, i, 6) == VersionOf(q)[17 - i]
  {
    hide Tap, GetBit, ProductBit;
    VersionTaps();
    SixBits(q, VERSION_GENERATOR, i);
  }

  lemma VersionBits(q: nat, i: nat)
    requires q < 64 && i < 18
    ensures ProductBit(q, VERSION_GENERATOR, i, 6) == VersionOf(q)[17 - i]
  {
    hide ProductBit, VersionProduct;
    if i < 9 {
      VersionBitsLow(q, i);
    } else {
      VersionBitsHigh(q, i);
    }
  }

  /** A non-zero multiple has at least eight ones. */
  lemma VersionMultiple(q: nat)
    requires 0 < q < 64
    ensures Ones(Bits(Carryless(q, VERSION_GENERATOR), 18), 18) >= 8
  {
    hide GetBit, Carryless, ProductBit, VersionProduct;
    var u, v := Bits(Carryless(q, VERSION_GENERATOR), 18), VersionOf(q);
    PowerOfSix();
    forall k | 0 <= k < 18
      ensures u[k] == v[k]
    {
      BitsAt(Carryless(q, VERSION_GENERATOR), 18, k);
      BitOfProduct(q, VERSION_GENERATOR, 17 - k, 6);
      VersionBits(q, 17 - k);
    }
    assert u == v;
    SomeBit(q);
    VersionWeight(GetBit(q, 0), GetBit(q, 1), GetBit(q, 2), GetBit(q, 3), GetBit(q, 4), GetBit(q, 5));
  }

  /*---- Distances ----*/

  /** Two protected words differ by a non-zero multiple of the generator. */
  lemma ProtectedDifference(d: nat, e: nat, k: nat, g: nat, n: nat) returns (q: nat)
    requires Generator(g, n) && d < Pow2(k) && e < Pow2(k) && k <= n && d != e
    ensures 0 < q < Pow2(k) && Xor(Protected(d, g, n), Protected(e, g, n)) == Carryless(q, g)
  {
    hide Xor, Carryless, Quotient, Steps, Shl, Shr, Protected;
    Pow2Mono(k, n);
    var a, b := Quotient(d, g, n, n), Quotient(e, g, n, n);
    ProtectedIsMultiple(d, g, n);
    ProtectedIsMultiple(e, g, n);
    CarrylessXor(a, b, g);
    q := Xor(a, b);
    ProtectedRange(d, k, g, n);
    ProtectedRange(e, k, g, n);
    XorBound(Protected(d, g, n), Protected(e, g, n), k + n);
    if q >= Pow2(k) {
      MultipleIsLarge(q, k, g, n);
    }
    ProtectedUnique(d, Protected(d, g, n), g, n);
    ProtectedUnique(e, Protected(e, g, n), g, n);
    XorCancel(a, b);
  }

  /** Format words of different levels or masks differ in at least seven bits. */
  lemma FormatWordsApart(ecl: Ecc, mask: nat, other: Ecc, mask': nat)
    requires mask < 8 && mask' < 8 && (ecl != other || mask != mask')
    ensures Flips(Bits(FormatWord(ecl, mask), 15), Bits(FormatWord(other, mask'), 15)) >= 7
  {
    hide Xor, Carryless, Protected, Bits, Flips;
    GeneratorDegrees();
    var d, e := FormatData(ecl, mask), FormatData(other, mask');
    var q := ProtectedDifference(d, e, 5, FORMAT_GENERATOR, 10);
    FormatMultiple(q);
    var v, w := Protected(d, FORMAT_GENERATOR, 10), Protected(e, FORMAT_GENERATOR, 10);
    XorSwap(v, FORMAT_MASK, w, FORMAT_MASK);
    XorSelf(FORMAT_MASK);
    XorZero(Xor(v, w));
    FlipsAreOnes(FormatWord(ecl, mask), FormatWord(other, mask'), 15);
  }

  /** Version words of different versions differ in at least eight bits. */
  lemma VersionWordsApart(ver: nat, other: nat)
    requires ver < 64 && other < 64 && ver != other
    ensures Flips(Bits(VersionWord(ver), 18), Bits(VersionWord(other), 18)) >= 8
  {
    hide Xor, Carryless, Protected, Bits, Flips;
    GeneratorDegrees();
    var q := ProtectedDifference(ver, other, 6, VERSION_GENERATOR, 12);
    VersionMultiple(q);
    FlipsAreOnes(VersionWord(ver), VersionWord(other), 18);
  }
}
