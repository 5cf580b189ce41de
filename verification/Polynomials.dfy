/**
 Polynomials over GF(2^8).  Coefficients are stored from the highest to the lowest
 power, as in the encoder.
 */
module Polynomials {
  import opened Bitwise
  import opened GaloisField

  function Zeros(n: nat): (z: seq<byte>)
    ensures |z| == n && forall i :: 0 <= i < n ==> z[i] == 0
  {
    seq(n, i => 0)
  }

  /** Coefficientwise sum. */
  function Add(p: seq<byte>, q: seq<byte>): (r: seq<byte>)
    requires |p| == |q|
    ensures |r| == |p| && forall i :: 0 <= i < |p| ==> r[i] == Sum(p[i], q[i])
  {
    seq(|p|, i requires 0 <= i < |p| => Sum(p[i], q[i]))
  }

  function Scale(p: seq<byte>, c: byte): (r: seq<byte>)
    ensures |r| == |p| && forall i :: 0 <= i < |p| ==> r[i] == Mul(p[i], c)
  {
    seq(|p|, i requires 0 <= i < |p| => Mul(p[i], c))
  }

  /** The value of the polynomial at a, by Horner's rule. */
  function Eval(p: seq<byte>, a: byte): byte {
    if p == [] then 0 else Sum(Mul(Eval(p[..|p| - 1], a), a), p[|p| - 1])
  }

  lemma EvalAppend(p: seq<byte>, c: byte, a: byte)
    ensures Eval(p + [c], a) == Sum(Mul(Eval(p, a), a), c)
  {
    assert (p + [c])[..|p|] == p;
  }

  lemma {:induction false} EvalAdd(p: seq<byte>, q: seq<byte>, a: byte)
    requires |p| == |q|
    ensures Eval(Add(p, q), a) == Sum(Eval(p, a), Eval(q, a))
  {
    hide Xor, Mul;
    if p == [] {
      XorZero(0);
    } else {
      var n := |p| - 1;
      assert Add(p, q)[..n] == Add(p[..n], q[..n]);
      EvalAdd(p[..n], q[..n], a);
      MulXorLeft(Eval(p[..n], a), Eval(q[..n], a), a);
      XorSwap(Mul(Eval(p[..n], a), a), Mul(Eval(q[..n], a), a), p[n], q[n]);
    }
  }

  lemma {:induction false} EvalScale(p: seq<byte>, c: byte, a: byte)
    ensures Eval(Scale(p, c), a) == Mul(Eval(p, a), c)
  {
    hide Xor, Mul;
    if p == [] {
      ZeroMul(c);
    } else {
      var n := |p| - 1;
      assert Scale(p, c)[..n] == Scale(p[..n], c);
      EvalScale(p[..n], c, a);
      MulMul(Eval(p[..n], a), c, a);
      MulXorLeft(Mul(Eval(p[..n], a), a), p[n], c);
    }
  }

  lemma {:induction false} EvalLeadingZeros(n: nat, p: seq<byte>, a: byte)
    ensures Eval(Zeros(n) + p, a) == Eval(p, a)
    decreases |p|, n
  {
    hide Xor, Mul;
    if p != [] {
      var k := |p| - 1;
      assert (Zeros(n) + p)[..n + k] == Zeros(n) + p[..k];
      EvalLeadingZeros(n, p[..k], a);
    } else if n > 0 {
      assert Zeros(n) + p == (Zeros(n - 1) + p) + [0];
      EvalLeadingZeros(n - 1, p, a);
      EvalAppend(Zeros(n - 1) + p, 0, a);
      ZeroMul(a);
      XorZero(0);
    } else {
      assert Zeros(n) + p == p;
    }
  }
}
