/**
 Reed-Solomon error correction of the encoder: the generator polynomial, built in
 place, and the remainder of the division by it, computed by a shift register.
 */
module ReedSolomon {
  import opened Bitwise
  import opened GaloisField
  import opened PowersOfTwo
  import opened Polynomials
  import opened Outcomes

  /** p * (x - r), which is p * x + p * r. */
  function TimesLinear(p: seq<byte>, r: byte): (q: seq<byte>)
    ensures |q| == |p| + 1
  {
    Add([0] + Scale(p, r), p + [0])
  }

  /** The product of (x - 2^i) for i < degree. */
  function Generator(degree: nat): (g: seq<byte>)
    ensures |g| == degree + 1
  {
    if degree == 0 then [1] else TimesLinear(Generator(degree - 1), Exp(degree - 1))
  }

  lemma {:induction false} GeneratorMonic(degree: nat)
    ensures Generator(degree)[0] == 1
  {
    hide Xor, Mul, Exp;
    if degree > 0 {
      GeneratorMonic(degree - 1);
      XorZero(1);
    }
  }

  lemma EvalTimesLinear(p: seq<byte>, r: byte, a: byte)
    ensures Eval(TimesLinear(p, r), a) == Mul(Eval(p, a), Sum(a, r))
  {
    hide Xor, Mul, Eval;
    EvalAdd([0] + Scale(p, r), p + [0], a);
    assert [0] + Scale(p, r) == Zeros(1) + Scale(p, r);
    EvalLeadingZeros(1, Scale(p, r), a);
    EvalScale(p, r, a);
    EvalAppend(p, 0, a);
    XorZero(Mul(Eval(p, a), a));
    MulXorRight(Eval(p, a), a, r);
    XorCommutes(Mul(Eval(p, a), a), Mul(Eval(p, a), r));
  }

  /** The generator vanishes at 2^0 .. 2^(degree-1). */
  lemma {:induction false} GeneratorRoots(degree: nat, i: nat)
    requires i < degree
    ensures Eval(Generator(degree), Exp(i)) == 0
  {
    hide Xor, Mul, Eval, Exp;
    var p, r, a := Generator(degree - 1), Exp(degree - 1), Exp(i);
    EvalTimesLinear(p, r, a);
    if i == degree - 1 {
      XorSelf(a);
    } else {
      GeneratorRoots(degree - 1, i);
    }
    NoZeroDivisors(Eval(p, a), Sum(a, r));
  }

  /*---- reedSolomonComputeDivisor ----*/

  /** What one pass of the inner loop leaves at index k. */
  function PassAt(s: seq<byte>, root: byte, k: nat): byte
    requires k < |s|
  {
    if k + 1 < |s| then Sum(Mul(s[k], root), s[k + 1]) else Mul(s[k], root)
  }

  function Pass(s: seq<byte>, root: byte): (t: seq<byte>)
    ensures |t| == |s|
  {
    seq(|s|, k requires 0 <= k < |s| => PassAt(s, root, k))
  }

  /** The array after i passes: the whole partial product, and after the last pass all but its leading 1. */
  function Partial(degree: nat, i: nat): (s: seq<byte>)
    requires i <= degree
    ensures |s| == degree
  {
    if i < degree then Zeros(degree - 1 - i) + Generator(i) else Generator(i)[1..]
  }

  lemma PartialAt(degree: nat, i: nat, k: nat)
    requires i <= degree && k < degree
    ensures Partial(degree, i)[k] ==
            if k < degree - 1 - i then 0 else Generator(i)[k - (degree - 1 - i)]
  {
    hide Generator;
  }

  lemma TimesLinearAt(p: seq<byte>, r: byte, m: nat)
    requires m <= |p|
    ensures TimesLinear(p, r)[m] == Sum(if m > 0 then Mul(p[m - 1], r) else 0, if m < |p| then p[m] else 0)
  {
    hide Xor, Mul;
  }

  lemma PassMultiplies(degree: nat, i: nat)
    requires i < degree
    ensures Pass(Partial(degree, i), Exp(i)) == Partial(degree, i + 1)
  {
    hide Xor, Mul, Exp, Partial, TimesLinear;
    var s, o, r := Partial(degree, i), degree - 1 - i, Exp(i);
    forall k | 0 <= k < degree
      ensures PassAt(s, r, k) == Partial(degree, i + 1)[k]
    {
      PartialAt(degree, i, k);
      PartialAt(degree, i + 1, k);
      ZeroMul(r);
      XorZero(Mul(s[k], r));
      if k + 1 < degree {
        PartialAt(degree, i, k + 1);
        XorZero(s[k + 1]);
      }
      if k + 1 >= o {
        TimesLinearAt(Generator(i), r, k + 1 - o);
      }
    }
  }

  lemma MulTwo(x: byte)
    ensures Mul(x, 2) == Xtime(x)
  {
    hide Xor;
    MulRound(x, 1, 0);
    MulCommutes(x, 1);
    OneMul(x);
    XorZero(Xtime(x));
  }

  /** The inner loop: multiply the polynomial in the array by (x - root), in place. */
  method MultiplyInPlace(result: array<byte>, root: byte)
    modifies result
    ensures result[..] == Pass(old(result[..]), root)
  {
    hide Xor, Mul;
    ghost var s := result[..];
    for j := 0 to result.Length
      invariant forall k :: 0 <= k < j ==> result[k] == PassAt(s, root, k)
      invariant forall k :: j <= k < result.Length ==> result[k] == s[k]
    {
      var product := Multiply(result[j], root);
      result[j] := product;
      if j + 1 < result.Length {
        result[j] := Sum(result[j], result[j + 1]);
      }
    }
  }

  lemma FirstPartial(degree: nat, s: seq<byte>)
    requires degree >= 1 && |s| == degree && s[degree - 1] == 1 && forall k :: 0 <= k < degree - 1 ==> s[k] == 0
    ensures s == Partial(degree, 0)
  {
  }

  lemma LastPartial(degree: nat)
    requires degree >= 1
    ensures [1] + Partial(degree, degree) == Generator(degree)
  {
    GeneratorMonic(degree);
  }

  method ComputeDivisor(degree: int) returns (r: Result<seq<byte>>)
    ensures r.Ok? <==> 1 <= degree <= 255
    ensures r.Ok? ==> [1] + r.value == Generator(degree)
  {
    hide Xor, Mul, Pass, Partial, Generator;
    if degree < 1 || degree > 255 {
      return Err(DomainError);
    }
    var result := new byte[degree](_ => 0);
    result[degree - 1] := 1;
    var root: byte := 1;
    FirstPartial(degree, result[..]);
    for i := 0 to degree
      invariant root == Exp(i)
      invariant result[..] == Partial(degree, i)
    {
      MultiplyInPlace(result, root);
      PassMultiplies(degree, i);
      MulTwo(root);
      root := Multiply(root, 2);
    }
    LastPartial(degree);
    return Ok(result[..]);
  }

  /*---- reedSolomonComputeRemainder ----*/

  /** One step of the division: bring in b, and subtract the divisor times the factor. */
  function RemainderStep(rem: seq<byte>, b: byte, divisor: seq<byte>): (r: seq<byte>)
    requires |rem| == |divisor| >= 1
    ensures |r| == |rem|
  {
    Add(rem[1..] + [0], Scale(divisor, Sum(b, rem[0])))
  }

  function Remainder(data: seq<byte>, divisor: seq<byte>): (r: seq<byte>)
    requires |divisor| >= 1
    ensures |r| == |divisor|
  {
    if data == [] then Zeros(|divisor|)
    else RemainderStep(Remainder(data[..|data| - 1], divisor), data[|data| - 1], divisor)
  }

  method ComputeRemainder(data: seq<byte>, divisor: seq<byte>) returns (result: seq<byte>)
    requires |divisor| >= 1
    ensures result == Remainder(data, divisor)
  {
    hide Xor, Mul;
    result := Zeros(|divisor|);
    for n := 0 to |data|
      invariant result == Remainder(data[..n], divisor)
    {
      var factor := Sum(data[n], result[0]);
      result := result[1..] + [0];
      ghost var shifted := result;
      for i := 0 to |result|
        invariant |result| == |divisor|
        invariant forall k :: 0 <= k < i ==> result[k] == Sum(shifted[k], Mul(divisor[k], factor))
        invariant forall k :: i <= k < |result| ==> result[k] == shifted[k]
      {
        var product := Multiply(divisor[i], factor);
        result := result[i := Sum(result[i], product)];
      }
      assert data[..n + 1][..n] == data[..n];
      assert result == Add(shifted, Scale(divisor, factor));
    }
    assert data[..|data|] == data;
  }

  /** A polynomial that vanishes wherever the divisor does: data followed by the remainder. */
  lemma {:induction false} RemainderVanishes(data: seq<byte>, divisor: seq<byte>, a: byte)
    requires |divisor| >= 1 && Eval([1] + divisor, a) == 0
    ensures Eval(data + Remainder(data, divisor), a) == 0
  {
    hide Xor, Mul, Eval;
    if data == [] {
      assert data + Remainder(data, divisor) == Zeros(|divisor|) + [];
      EvalLeadingZeros(|divisor|, [], a);
      EvalEmpty(a);
    } else {
      var n := |data| - 1;
      var rem, b := Remainder(data[..n], divisor), data[n];
      var factor := Sum(b, rem[0]);
      var before := (data[..n] + rem) + [0];
      var multiple := Zeros(n) + Scale([1] + divisor, factor);
      StepAddsMultiple(data[..n], rem, b, divisor);
      assert data == data[..n] + [b];
      RemainderVanishes(data[..n], divisor, a);
      EvalAppend(data[..n] + rem, 0, a);
      ZeroMul(a);
      XorZero(0);
      EvalAdd(before, multiple, a);
      EvalLeadingZeros(n, Scale([1] + divisor, factor), a);
      EvalScale([1] + divisor, factor, a);
      ZeroMul(factor);
    }
  }

  lemma EvalEmpty(a: byte)
    ensures Eval([], a) == 0
  {
  }

  lemma StepAddsMultiple(data: seq<byte>, rem: seq<byte>, b: byte, divisor: seq<byte>)
    requires |rem| == |divisor| >= 1
    ensures var factor := Sum(b, rem[0]);
            (data + [b]) + RemainderStep(rem, b, divisor)
            == Add((data + rem) + [0], Zeros(|data|) + Scale([1] + divisor, factor))
  {
    hide Xor, Mul;
    var factor := Sum(b, rem[0]);
    var x, y := (data + rem) + [0], Zeros(|data|) + Scale([1] + divisor, factor);
    var z := (data + [b]) + RemainderStep(rem, b, divisor);
    forall i | 0 <= i < |x|
      ensures z[i] == Sum(x[i], y[i])
    {
      if i < |data| {
        XorZero(x[i]);
      } else if i == |data| {
        OneMul(factor);
        XorCommutes(rem[0], factor);
        XorCancel(b, rem[0]);
      } else {
        var k := i - |data| - 1;
        assert z[i] == RemainderStep(rem, b, divisor)[k];
        assert y[i] == Mul(divisor[k], factor);
        assert x[i] == (rem[1..] + [0])[k];
      }
    }
  }

  /** The codeword of a block: the data bytes followed by the error correction bytes. */
  function Codeword(data: seq<byte>, degree: nat): (c: seq<byte>)
    requires degree >= 1
    ensures |c| == |data| + degree
  {
    data + Remainder(data, Generator(degree)[1..])
  }

  /** Codeword theorem: every codeword vanishes at 2^0 .. 2^(degree-1). */
  lemma CodewordVanishes(data: seq<byte>, degree: nat, i: nat)
    requires i < degree
    ensures Eval(Codeword(data, degree), Exp(i)) == 0
  {
    GeneratorMonic(degree);
    GeneratorRoots(degree, i);
    assert [1] + Generator(degree)[1..] == Generator(degree);
    RemainderVanishes(data, Generator(degree)[1..], Exp(i));
  }

  /** The remainder is linear: error correction bytes of a sum are the sum of those of the terms. */
  lemma {:induction false} RemainderAdd(u: seq<byte>, v: seq<byte>, divisor: seq<byte>)
    requires |u| == |v| && |divisor| >= 1
    ensures Remainder(Add(u, v), divisor) == Add(Remainder(u, divisor), Remainder(v, divisor))
  {
    hide Xor, Mul;
    if u == [] {
      XorZero(0);
    } else {
      var n := |u| - 1;
      assert Add(u, v)[..n] == Add(u[..n], v[..n]);
      RemainderAdd(u[..n], v[..n], divisor);
      StepAdd(Remainder(u[..n], divisor), Remainder(v[..n], divisor), u[n], v[n], divisor);
    }
  }

  lemma StepAdd(r: seq<byte>, s: seq<byte>, b: byte, c: byte, divisor: seq<byte>)
    requires |r| == |s| == |divisor| >= 1
    ensures RemainderStep(Add(r, s), Sum(b, c), divisor)
            == Add(RemainderStep(r, b, divisor), RemainderStep(s, c, divisor))
  {
    hide Xor, Mul;
    var f, g := Sum(b, r[0]), Sum(c, s[0]);
    XorSwap(b, c, r[0], s[0]);
    forall k | 0 <= k < |r|
      ensures RemainderStep(Add(r, s), Sum(b, c), divisor)[k]
              == Sum(RemainderStep(r, b, divisor)[k], RemainderStep(s, c, divisor)[k])
    {
      var x, y := (r[1..] + [0])[k], (s[1..] + [0])[k];
      XorZero(0);
      assert (Add(r, s)[1..] + [0])[k] == Sum(x, y);
      MulXorRight(divisor[k], f, g);
      XorSwap(x, y, Mul(divisor[k], f), Mul(divisor[k], g));
    }
  }
}
