/** The positions of the alignment patterns of each version. */
module Alignment {
  import opened Arithmetic
  import opened Zigzag
  import opened FunctionPatterns
  import opened Segments
  import opened Sizes

  function SizeOf(ver: int): (r: nat)
    requires Version(ver)
    ensures ValidSize(r) && r <= 177
  {
    4 * ver + 17
  }

  function NumAlign(ver: int): int {
    ver / 7 + 2
  }

  function AlignStep(ver: int): int
    requires Version(ver)
  {
    if ver == 32 then 26 else (ver * 4 + NumAlign(ver) * 2 + 1) / (NumAlign(ver) * 2 - 2) * 2
  }

  /** The m-th position, counted from the far end. */
  function FromEnd(ver: int, m: int): int
    requires Version(ver)
  {
    SizeOf(ver) - 7 - m * AlignStep(ver)
  }

  function Positions(ver: int): (pos: seq<int>)
    requires Version(ver)
  {
    if ver == 1 then []
    else
      var n := NumAlign(ver);
      seq(n, i requires 0 <= i < n => if i == 0 then 6 else FromEnd(ver, n - 1 - i))
  }

  lemma StepRange(ver: int)
    requires Version(ver) && ver >= 2
    ensures var n, step := NumAlign(ver), AlignStep(ver);
            step >= 12 && step % 2 == 0 && SizeOf(ver) - 7 - (n - 2) * step >= 18
  {
  }

  /** The positions ascend from 6 to size - 7 in steps of at least 7. */
  lemma PositionsGood(ver: int)
    requires Version(ver)
    ensures GoodPositions(Positions(ver), SizeOf(ver))
  {
    if ver >= 2 {
      hide AlignStep;
      StepRange(ver);
      var n, step, pos := NumAlign(ver), AlignStep(ver), Positions(ver);
      assert pos[n - 1] == FromEnd(ver, 0);
      forall i, j | 0 <= i < j < n
        ensures pos[i] + 7 <= pos[j]
      {
        assert pos[j] == FromEnd(ver, n - 1 - j) && (i > 0 ==> pos[i] == FromEnd(ver, n - 1 - i));
        MulStep(n - 1 - j, n - 1 - i, step);
        MulMono(n - 1 - j, n - 2, step);
      }
    }
  }

  /**
   All gaps but the first are one step, the first is no longer, and no smaller even step would do;
   version 32 alone has a step that is one size smaller.
   */
  lemma PositionsSpaced(ver: int, i: nat)
    requires Version(ver) && ver >= 2 && 1 <= i < |Positions(ver)|
    ensures var pos, n, step := Positions(ver), |Positions(ver)|, AlignStep(ver);
            && n == ver / 7 + 2 && step % 2 == 0
            && (i + 1 < n ==> pos[i + 1] - pos[i] == step)
            && (if ver == 32 then step == 26 && pos[1] - 6 == 28
                else step - 2 * (n - 1) < pos[1] - 6 <= step)
  {
    StepRange(ver);
    StepIsLeast(ver);
    var n := NumAlign(ver);
    assert Positions(ver)[i] == FromEnd(ver, n - 1 - i);
    assert Positions(ver)[1] == FromEnd(ver, n - 2);
    if i + 1 < n {
      assert Positions(ver)[i + 1] == FromEnd(ver, n - 2 - i);
      FromEndNext(ver, n - 2 - i);
    }
  }

  lemma StepIsLeast(ver: int)
    requires Version(ver) && ver >= 2
    ensures var n, step, first := NumAlign(ver), AlignStep(ver), FromEnd(ver, NumAlign(ver) - 2) - 6;
            if ver == 32 then step == 26 && first == 28 else step - 2 * (n - 1) < first <= step
  {
    if ver < 7 {
      assert NumAlign(ver) == 2;
    } else if ver < 14 {
      assert NumAlign(ver) == 3;
    } else if ver < 21 {
      assert NumAlign(ver) == 4;
    } else if ver < 28 {
      assert NumAlign(ver) == 5;
    } else if ver < 35 {
      assert NumAlign(ver) == 6;
    } else {
      assert NumAlign(ver) == 7;
    }
  }

  /** All positions are even. */
  lemma PositionsEven(ver: int, i: nat)
    requires Version(ver) && i < |Positions(ver)|
    ensures Positions(ver)[i] % 2 == 0
  {
    hide AlignStep;
    if i > 0 {
      StepRange(ver);
      assert Positions(ver)[i] == FromEnd(ver, NumAlign(ver) - 1 - i);
      EvenMultiple(NumAlign(ver) - 1 - i, AlignStep(ver));
    }
  }

  lemma EvenMultiple(a: int, b: int)
    requires b % 2 == 0
    ensures (a * b) % 2 == 0
  {
    assert a * b == 2 * (a * (b / 2));
  }

  lemma FromEndNext(ver: int, m: int)
    requires Version(ver)
    ensures FromEnd(ver, 0) == SizeOf(ver) - 7 && FromEnd(ver, m + 1) == FromEnd(ver, m) - AlignStep(ver)
  {
    hide AlignStep;
    assert (m + 1) * AlignStep(ver) == m * AlignStep(ver) + AlignStep(ver);
  }

  /** getAlignmentPatternPositions */
  method GetAlignmentPatternPositions(ver: int) returns (result: seq<int>)
    requires Version(ver)
    ensures result == Positions(ver)
  {
    if ver == 1 {
      return [];
    }
    hide AlignStep, FromEnd;
    FromEndNext(ver, 0);
    var numAlign, step := NumAlign(ver), AlignStep(ver);
    result := [];
    var pos := SizeOf(ver) - 7;
    for i := 0 to numAlign - 1
      invariant |result| == i && pos == FromEnd(ver, i)
      invariant forall k :: 0 <= k < i ==> result[k] == FromEnd(ver, i - 1 - k)
    {
      FromEndNext(ver, i);
      result := [pos] + result;
      pos := pos - step;
    }
    result := [6] + result;
  }

  lemma ClosedForm(ver: int)
    requires Version(ver)
    ensures var size, n := SizeOf(ver), NumAlign(ver);
            RawDataModules(ver) == size * size - 225 - 2 * (size - 17) - (if size < 45 then 0 else 36)
                                   - (if ver == 1 then 0 else (25 * n - 10) * n - 55)
  {
    var size := SizeOf(ver);
    assert size * size == 16 * (ver * ver) + 136 * ver + 289;
  }

  /** The free modules of each version number exactly what getNumRawDataModules says. */
  lemma FreeModules(f: Grid, ver: int)
    requires Version(ver) && MarksFunctions(f, SizeOf(ver), Positions(ver))
    ensures FreeCount(f, SizeOf(ver), ScanLength(SizeOf(ver))) == RawDataModules(ver)
  {
    hide FreeCount, IsFunctionModule, ScanLength, AlignStep, RawDataModules;
    PositionsGood(ver);
    FreeCountIs(f, SizeOf(ver), Positions(ver));
    ClosedForm(ver);
  }
}
