/**
 The error correcting power of the code: two different codewords of the same length
 (at most 255 bytes) differ in more than `degree` places.
 */
module MinimumDistance {
  import opened Bitwise
  import opened GaloisField
  import opened PowersOfTwo
  import opened Polynomials
  import opened ReedSolomon

  function Pow(x: byte, n: nat): byte {
    if n == 0 then 1 else Mul(Pow(x, n - 1), x)
  }

  lemma {:induction false} PowOfExp(i: nat, m: nat)
    ensures Pow(Exp(i), m) == Exp(i * m)
  {
    hide Mul, Exp;
    if m == 0 {
      assert i * m == 0;
      ExpZero();
    } else {
      PowOfExp(i, m - 1);
      ExpAdd(i * (m - 1), i);
      assert i * (m - 1) + i == i * m;
    }
  }

  lemma ExpZero()
    ensures Exp(0) == 1
  {
  }

  /*---- A Vandermonde argument ----*/

  /** A term c * x^m of a power sum. */
  datatype Term = Term(c: byte, x: byte)

  function PowerSum(terms: seq<Term>, m: nat): byte {
    if terms == [] then 0
    else Sum(Mul(terms[0].c, Pow(terms[0].x, m)), PowerSum(terms[1..], m))
  }

  /** Multiply every coefficient by (x - z). */
  function Reduce(terms: seq<Term>, z: byte): (r: seq<Term>)
    ensures |r| == |terms|
  {
    seq(|terms|, i requires 0 <= i < |terms| =>
      Term(Mul(terms[i].c, Sum(terms[i].x, z)), terms[i].x))
  }

  lemma ReduceTerm(c: byte, x: byte, z: byte, p: byte)
    ensures Mul(Mul(c, Sum(x, z)), p) == Sum(Mul(c, Mul(p, x)), Mul(z, Mul(c, p)))
  {
    hide Xor, Mul;
    MulXorRight(c, x, z);
    MulXorLeft(Mul(c, x), Mul(c, z), p);
    MulMul(c, x, p);
    MulAssociates(c, p, x);
    MulMul(c, z, p);
    MulCommutes(Mul(c, p), z);
  }

  lemma {:induction false} PowerSumReduce(terms: seq<Term>, z: byte, m: nat)
    ensures PowerSum(Reduce(terms, z), m) == Sum(PowerSum(terms, m + 1), Mul(z, PowerSum(terms, m)))
  {
    hide Xor, Mul;
    if terms == [] {
      ZeroMul(z);
      MulCommutes(z, 0);
      XorZero(0);
    } else {
      var t, rest := terms[0], terms[1..];
      var p := Pow(t.x, m);
      PowerSumReduce(rest, z, m);
      assert Reduce(terms, z)[1..] == Reduce(rest, z);
      ReduceTerm(t.c, t.x, z, p);
      MulXorRight(z, Mul(t.c, p), PowerSum(rest, m));
      XorSwap(Mul(t.c, Mul(p, t.x)), Mul(z, Mul(t.c, p)), PowerSum(rest, m + 1), Mul(z, PowerSum(rest, m)));
    }
  }

  predicate DistinctPoints(terms: seq<Term>) {
    forall i, j :: 0 <= i < j < |terms| ==> terms[i].x != terms[j].x
  }

  /** If the first |terms| power sums at distinct points vanish, then so do all coefficients. */
  lemma {:induction false} Vandermonde(terms: seq<Term>)
    requires DistinctPoints(terms)
    requires forall m: nat :: m < |terms| ==> PowerSum(terms, m) == 0
    ensures forall i :: 0 <= i < |terms| ==> terms[i].c == 0
    decreases |terms|
  {
    if terms != [] {
      hide Xor, Mul, Pow;
      var z, rest := terms[0].x, terms[1..];
      var reduced := Reduce(rest, z);
      forall m: nat | m < |rest|
        ensures PowerSum(reduced, m) == 0
      {
        ReducedSum(terms, m);
      }
      Vandermonde(reduced);
      forall i | 0 <= i < |rest|
        ensures rest[i].c == 0
      {
        assert reduced[i].c == Mul(rest[i].c, Sum(rest[i].x, z));
        assert terms[i + 1] == rest[i];
        NoZeroDivisors(rest[i].c, Sum(rest[i].x, z));
        XorCancel(rest[i].x, z);
      }
      ZeroTerms(rest, 0);
      assert PowerSum(terms, 0) == 0;
      FirstTerm(terms);
    }
  }

  /** Reducing by the first point removes the first term. */
  lemma ReducedSum(terms: seq<Term>, m: nat)
    requires |terms| >= 1 && PowerSum(terms, m) == 0 && PowerSum(terms, m + 1) == 0
    ensures PowerSum(Reduce(terms[1..], terms[0].x), m) == 0
  {
    hide Xor, Mul, Pow;
    var z := terms[0].x;
    PowerSumReduce(terms, z, m);
    MulCommutes(z, 0);
    ZeroMul(z);
    XorZero(0);
    assert Reduce(terms, z)[1..] == Reduce(terms[1..], z);
    assert Reduce(terms, z)[0].c == Mul(terms[0].c, Sum(z, z));
    XorSelf(z);
    MulCommutes(terms[0].c, 0);
    ZeroMul(terms[0].c);
    ZeroMul(Pow(z, m));
    XorZero(PowerSum(Reduce(terms[1..], z), m));
  }

  lemma {:induction false} ZeroTerms(terms: seq<Term>, m: nat)
    requires forall i :: 0 <= i < |terms| ==> terms[i].c == 0
    ensures PowerSum(terms, m) == 0
  {
    hide Xor, Mul, Pow;
    if terms != [] {
      ZeroTerms(terms[1..], m);
      ZeroMul(Pow(terms[0].x, m));
      XorZero(0);
    }
  }

  lemma FirstTerm(terms: seq<Term>)
    requires |terms| >= 1 && PowerSum(terms[1..], 0) == 0
    ensures PowerSum(terms, 0) == terms[0].c
  {
    hide Xor, Mul;
    MulCommutes(terms[0].c, 1);
    OneMul(terms[0].c);
    XorZero(terms[0].c);
  }

  /*---- The non-zero coefficients of a word ----*/

  /** One term for each non-zero coefficient; the point of coefficient i is 2^(its power of x). */
  function Terms(c: seq<byte>): seq<Term> {
    if c == [] then []
    else (if c[0] == 0 then [] else [Term(c[0], Exp(|c| - 1))]) + Terms(c[1..])
  }

  /** The number of non-zero coefficients. */
  function Weight(c: seq<byte>): nat {
    if c == [] then 0 else (if c[0] == 0 then 0 else 1) + Weight(c[1..])
  }

  ghost predicate PowerBelow(x: byte, n: nat) {
    exists k: nat :: k < n && x == Exp(k)
  }

  lemma {:induction false} TermsProperties(c: seq<byte>)
    requires |c| <= 255
    ensures |Terms(c)| == Weight(c)
    ensures forall i :: 0 <= i < |Terms(c)| ==> Terms(c)[i].c != 0
    ensures forall i :: 0 <= i < |Terms(c)| ==> PowerBelow(Terms(c)[i].x, |c|)
    ensures DistinctPoints(Terms(c))
  {
    hide Exp;
    if c != [] {
      TermsProperties(c[1..]);
      var rest := Terms(c[1..]);
      forall i | 0 <= i < |rest|
        ensures rest[i].x != Exp(|c| - 1)
      {
        var k: nat :| k < |c| - 1 && rest[i].x == Exp(k);
        ExpDistinct(k, |c| - 1);
      }
      assert PowerBelow(Exp(|c| - 1), |c|);
      forall i | 0 <= i < |Terms(c)|
        ensures PowerBelow(Terms(c)[i].x, |c|)
      {
        var j := if c[0] != 0 then i - 1 else i;
        if j >= 0 {
          assert Terms(c)[i] == rest[j] && PowerBelow(rest[j].x, |c| - 1);
        }
      }
    }
  }

  lemma {:induction false} EvalFront(c: seq<byte>, a: byte)
    requires c != []
    ensures Eval(c, a) == Sum(Mul(c[0], Pow(a, |c| - 1)), Eval(c[1..], a))
  {
    hide Xor, Mul;
    var n := |c| - 1;
    if n == 0 {
      assert c == [] + [c[0]];
      EvalAppend([], c[0], a);
      ZeroMul(a);
      OneMul(c[0]);
      MulCommutes(c[0], 1);
      XorZero(c[0]);
    } else {
      var p := c[..n];
      EvalFront(p, a);
      assert c[1..][..n - 1] == p[1..];
      var x, y := Mul(p[0], Pow(a, n - 1)), Eval(p[1..], a);
      MulXorLeft(x, y, a);
      MulAssociates(p[0], Pow(a, n - 1), a);
      XorAssociates(Mul(x, a), Mul(y, a), c[n]);
    }
  }

  /** The values of a word at the powers of 2 are the power sums of its terms. */
  lemma {:induction false} EvalIsPowerSum(c: seq<byte>, m: nat)
    ensures Eval(c, Exp(m)) == PowerSum(Terms(c), m)
  {
    hide Xor, Mul, Exp, Pow;
    if c != [] {
      EvalIsPowerSum(c[1..], m);
      EvalFront(c, Exp(m));
      var n, rest := |c| - 1, PowerSum(Terms(c[1..]), m);
      if c[0] == 0 {
        ZeroMul(Pow(Exp(m), n));
        XorZero(rest);
        assert Terms(c) == Terms(c[1..]);
      } else {
        PowOfExp(m, n);
        PowOfExp(n, m);
        assert m * n == n * m;
        assert Terms(c)[1..] == Terms(c[1..]);
      }
    }
  }

  /*---- Minimum distance ----*/

  ghost predicate VanishesAtRoots(c: seq<byte>, degree: nat) {
    forall i: nat :: i < degree ==> Eval(c, Exp(i)) == 0
  }

  /** A word that vanishes at 2^0 .. 2^(degree-1) is zero or has more than `degree` non-zero bytes. */
  lemma MinimumWeight(c: seq<byte>, degree: nat)
    requires |c| <= 255 && VanishesAtRoots(c, degree)
    ensures Weight(c) == 0 || Weight(c) > degree
  {
    hide Xor, Mul, Exp, Eval, PowerSum, Terms, Weight;
    TermsProperties(c);
    if Weight(c) <= degree {
      forall m: nat | m < |Terms(c)|
        ensures PowerSum(Terms(c), m) == 0
      {
        EvalIsPowerSum(c, m);
      }
      assert |Terms(c)| > 0 ==> Terms(c)[0].c != 0;
      Vandermonde(Terms(c));
    }
  }

  /** The number of places where two words differ. */
  function Distance(u: seq<byte>, v: seq<byte>): nat
    requires |u| == |v|
  {
    if u == [] then 0 else (if u[0] == v[0] then 0 else 1) + Distance(u[1..], v[1..])
  }

  lemma {:induction false} DistanceIsWeight(u: seq<byte>, v: seq<byte>)
    requires |u| == |v|
    ensures Distance(u, v) == Weight(Add(u, v))
  {
    hide Xor;
    if u != [] {
      assert Add(u, v)[1..] == Add(u[1..], v[1..]);
      DistanceIsWeight(u[1..], v[1..]);
      XorCancel(u[0], v[0]);
      XorSelf(u[0]);
    }
  }

  lemma {:induction false} ZeroDistance(u: seq<byte>, v: seq<byte>)
    requires |u| == |v|
    ensures Distance(u, v) == 0 <==> u == v
  {
    if u != [] {
      ZeroDistance(u[1..], v[1..]);
      assert u == [u[0]] + u[1..] && v == [v[0]] + v[1..];
    }
  }

  lemma {:induction false} TriangleInequality(u: seq<byte>, v: seq<byte>, w: seq<byte>)
    requires |u| == |v| == |w|
    ensures Distance(u, w) <= Distance(u, v) + Distance(v, w)
    ensures Distance(u, v) == Distance(v, u)
  {
    if u != [] {
      TriangleInequality(u[1..], v[1..], w[1..]);
    }
  }

  /** Words that vanish at the roots are equal or differ in more than `degree` places. */
  lemma RootsSeparate(u: seq<byte>, v: seq<byte>, degree: nat)
    requires |u| == |v| <= 255
    requires VanishesAtRoots(u, degree) && VanishesAtRoots(v, degree)
    ensures u == v || Distance(u, v) > degree
  {
    hide Exp, Eval;
    forall i: nat | i < degree
      ensures Eval(Add(u, v), Exp(i)) == 0
    {
      EvalAdd(u, v, Exp(i));
      XorZero(0);
    }
    MinimumWeight(Add(u, v), degree);
    DistanceIsWeight(u, v);
    ZeroDistance(u, v);
  }

  lemma CodewordAtRoots(data: seq<byte>, degree: nat)
    requires degree >= 1
    ensures VanishesAtRoots(Codeword(data, degree), degree)
  {
    forall i: nat | i < degree
      ensures Eval(Codeword(data, degree), Exp(i)) == 0
    {
      CodewordVanishes(data, degree, i);
    }
  }

  /** Minimum distance: codewords of different data differ in at least degree + 1 places. */
  lemma CodewordDistance(data: seq<byte>, other: seq<byte>, degree: nat)
    requires |data| == |other| && data != other
    requires degree >= 1 && |data| + degree <= 255
    ensures Distance(Codeword(data, degree), Codeword(other, degree)) >= degree + 1
  {
    CodewordAtRoots(data, degree);
    CodewordAtRoots(other, degree);
    RootsSeparate(Codeword(data, degree), Codeword(other, degree), degree);
    assert Codeword(data, degree)[..|data|] == data;
    assert Codeword(other, degree)[..|data|] == other;
  }

  /** Up to degree / 2 damaged bytes leave only one codeword in reach of the received word. */
  lemma UniqueDecoding(received: seq<byte>, data: seq<byte>, other: seq<byte>, degree: nat)
    requires |data| == |other| && degree >= 1 && |received| == |data| + degree <= 255
    requires 2 * Distance(received, Codeword(data, degree)) <= degree
    requires 2 * Distance(received, Codeword(other, degree)) <= degree
    ensures data == other
  {
    var u, v := Codeword(data, degree), Codeword(other, degree);
    TriangleInequality(u, received, v);
    TriangleInequality(received, u, v);
    if data != other {
      CodewordDistance(data, other, degree);
    }
  }

  /** The remainder is the only choice of error correction bytes that vanishes at the roots. */
  lemma RemainderUnique(data: seq<byte>, ecc: seq<byte>, degree: nat)
    requires 1 <= degree == |ecc| && |data| + degree <= 255
    ensures VanishesAtRoots(data + ecc, degree) <==> ecc == Remainder(data, ReedSolomon.Generator(degree)[1..])
  {
    CodewordAtRoots(data, degree);
    var u, v := data + ecc, Codeword(data, degree);
    if VanishesAtRoots(u, degree) {
      RootsSeparate(u, v, degree);
      SamePrefixDistance(data, ecc, v[|data|..]);
      assert v == data + v[|data|..];
    }
  }

  lemma {:induction false} SamePrefixDistance(p: seq<byte>, u: seq<byte>, v: seq<byte>)
    requires |u| == |v|
    ensures Distance(p + u, p + v) <= |u|
    decreases |p| + |u|
  {
    if p != [] {
      assert (p + u)[1..] == p[1..] + u && (p + v)[1..] == p[1..] + v;
      SamePrefixDistance(p[1..], u, v);
    } else if u != [] {
      assert p + u == u && p + v == v;
      assert [] + u[1..] == u[1..] && [] + v[1..] == v[1..];
      SamePrefixDistance([], u[1..], v[1..]);
    }
  }
}
