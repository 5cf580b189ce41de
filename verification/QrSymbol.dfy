/** The QR Code symbol: the grid of modules and the operations that draw on it. */
module QrSymbol {
  import opened Bitwise
  import opened ShiftRegister
  import opened GaloisField
  import opened BitBuffers
  import opened Outcomes
  import opened Segments
  import opened Sizes
  import opened Zigzag
  import opened FunctionPatterns
  import opened Alignment
  import opened InfoWords
  import opened Ink
  import opened Masking

  class QrCode {
    const version: int
    const size: nat
    const ecl: Ecc
    var mask: int
    var modules: Grid
    var isFunction: Grid

    ghost predicate Valid()
      reads this
    {
      Version(version) && size == SizeOf(version) && Square(modules, size) && Square(isFunction, size)
    }

    /** An all white grid without function modules. */
    constructor (ver: int, level: Ecc)
      requires Version(ver)
      ensures Valid() && version == ver && ecl == level
      ensures forall c :: Inside(c, size) ==> !At(modules, size, c) && !At(isFunction, size, c)
    {
      version, ecl, mask := ver, level, -1;
      size := SizeOf(ver);
      modules := seq(SizeOf(ver), _ => seq(SizeOf(ver), _ => false));
      isFunction := seq(SizeOf(ver), _ => seq(SizeOf(ver), _ => false));
    }

    method SetFunctionModule(x: int, y: int, isBlack: bool)
      requires Valid() && Inside(Cell(x, y), size)
      modifies this`modules, this`isFunction
      ensures Valid()
      ensures Painted(old(isFunction), old(modules), isFunction, modules, size, c => DotInk(Cell(x, y), isBlack, c))
    {
      modules := Set(modules, size, Cell(x, y), isBlack);
      isFunction := Set(isFunction, size, Cell(x, y), true);
    }

    method DrawTiming()
      requires Valid()
      modifies this`modules, this`isFunction
      ensures Valid()
      ensures Painted(old(isFunction), old(modules), isFunction, modules, size, TimingInk)
    {
      for i := 0 to size
        invariant Valid()
        invariant Painted(old(isFunction), old(modules), isFunction, modules, size,
                          (c: Cell) => if (c.x == 6 && c.y < i) || (c.y == 6 && c.x < i) then TimingInk(c) else None)
      {
        SetFunctionModule(6, i, i % 2 == 0);
        SetFunctionModule(i, 6, i % 2 == 0);
      }
    }

    /** Draws a finder pattern with its separator; modules outside the grid are left out. */
    method DrawFinderPattern(x: int, y: int)
      requires Valid()
      modifies this`modules, this`isFunction
      ensures Valid()
      ensures Painted(old(isFunction), old(modules), isFunction, modules, size, c => FinderInk(Cell(x, y), c))
    {
      for dy := -4 to 5
        invariant Valid()
        invariant Painted(old(isFunction), old(modules), isFunction, modules, size,
                          (c: Cell) => if c.y < y + dy then FinderInk(Cell(x, y), c) else None)
      {
        for dx := -4 to 5
          invariant Valid()
          invariant Painted(old(isFunction), old(modules), isFunction, modules, size,
                            (c: Cell) => if c.y < y + dy || (c.y == y + dy && c.x < x + dx)
                                         then FinderInk(Cell(x, y), c) else None)
        {
          var dist := Max(Abs(dx), Abs(dy));
          var xx, yy := x + dx, y + dy;
          if 0 <= xx && xx < size && 0 <= yy && yy < size {
            SetFunctionModule(xx, yy, dist != 2 && dist != 4);
          }
        }
      }
    }

    method DrawAlignmentPattern(x: int, y: int)
      requires Valid() && 2 <= x < size - 2 && 2 <= y < size - 2
      modifies this`modules, this`isFunction
      ensures Valid()
      ensures Painted(old(isFunction), old(modules), isFunction, modules, size, c => AlignInk(Cell(x, y), c))
    {
      for dy := -2 to 3
        invariant Valid()
        invariant Painted(old(isFunction), old(modules), isFunction, modules, size,
                          (c: Cell) => if c.y < y + dy then AlignInk(Cell(x, y), c) else None)
      {
        for dx := -2 to 3
          invariant Valid()
          invariant Painted(old(isFunction), old(modules), isFunction, modules, size,
                            (c: Cell) => if c.y < y + dy || (c.y == y + dy && c.x < x + dx)
                                         then AlignInk(Cell(x, y), c) else None)
        {
          SetFunctionModule(x + dx, y + dy, Max(Abs(dx), Abs(dy)) != 1);
        }
      }
    }

    /** The format word for the level of this symbol, as the register loop computes it. */
    method ComputeFormatBits(msk: nat) returns (bits: nat)
      requires msk < 8
      ensures bits == FormatWord(ecl, msk) && bits < Pow2(15)
    {
      hide Xor, Shr, Shl;
      var data := 8 * LevelBits(ecl) + msk;
      var rem := data;
      for i := 0 to 10
        invariant rem == Steps(data, FORMAT_GENERATOR, 10, i)
      {
        rem := Xor(2 * rem, Shr(rem, 9) * 0x537);
      }
      bits := Xor(Shl(data, 10) + rem, 0x5412);
      FormatWordRange(ecl, msk);
    }

    /** The first copy, down column 8. */
    method DrawFirstColumn(bits: nat)
      requires Valid()
      modifies this`modules, this`isFunction
      ensures Valid()
      ensures Painted(old(isFunction), old(modules), isFunction, modules, size,
                      (c: Cell) => if c.x == 8 then FirstCopyInk(bits, c) else None)
    {
      hide GetBit;
      for i := 0 to 6
        invariant Valid()
        invariant Painted(old(isFunction), old(modules), isFunction, modules, size,
                          (c: Cell) => if c.x == 8 && c.y < i then FirstCopyInk(bits, c) else None)
      {
        SetFunctionModule(8, i, GetBit(bits, i));
      }
      SetFunctionModule(8, 7, GetBit(bits, 6));
      SetFunctionModule(8, 8, GetBit(bits, 7));
    }

    /** The first copy: down column 8 and then left along row 8. */
    method DrawFirstCopy(bits: nat)
      requires Valid()
      modifies this`modules, this`isFunction
      ensures Valid()
      ensures Painted(old(isFunction), old(modules), isFunction, modules, size, c => FirstCopyInk(bits, c))
    {
      hide GetBit;
      DrawFirstColumn(bits);
      SetFunctionModule(7, 8, GetBit(bits, 8));
      for i := 9 to 15
        invariant Valid()
        invariant Painted(old(isFunction), old(modules), isFunction, modules, size,
                          (c: Cell) => if c.x == 8 || c.x > 14 - i then FirstCopyInk(bits, c) else None)
      {
        SetFunctionModule(14 - i, 8, GetBit(bits, i));
      }
    }

    /** The second copy, from the right end of row 8 and then down column 8. */
    method DrawSecondCopy(bits: nat)
      requires Valid()
      modifies this`modules, this`isFunction
      ensures Valid()
      ensures Painted(old(isFunction), old(modules), isFunction, modules, size, c => SecondCopyInk(size, bits, c))
    {
      hide GetBit;
      for i := 0 to 8
        invariant Valid()
        invariant Painted(old(isFunction), old(modules), isFunction, modules, size,
                          (c: Cell) => if c.y == 8 && c.x > size - 1 - i then SecondCopyInk(size, bits, c) else None)
      {
        SetFunctionModule(size - 1 - i, 8, GetBit(bits, i));
      }
      for i := 8 to 15
        invariant Valid()
        invariant Painted(old(isFunction), old(modules), isFunction, modules, size,
                          (c: Cell) => if c.y == 8 || size - 8 < c.y < size - 15 + i
                                       then SecondCopyInk(size, bits, c) else None)
      {
        SetFunctionModule(8, size - 15 + i, GetBit(bits, i));
      }
      SetFunctionModule(8, size - 8, true);
    }

    method DrawFormatBits(msk: nat)
      requires Valid() && msk < 8
      modifies this`modules, this`isFunction
      ensures Valid()
      ensures Painted(old(isFunction), old(modules), isFunction, modules, size,
                      c => FormatInk(size, FormatWord(ecl, msk), c))
    {
      hide FormatWord, FirstIndex, SecondIndex, GetBit;
      var bits := ComputeFormatBits(msk);
      DrawFirstCopy(bits);
      DrawSecondCopy(bits);
    }

    method DrawVersion()
      requires Valid()
      modifies this`modules, this`isFunction
      ensures Valid()
      ensures Painted(old(isFunction), old(modules), isFunction, modules, size,
                      c => VersionInk(size, VersionWord(version), c))
    {
      hide Xor, GetBit, Shr, Shl;
      if version < 7 {
        return;
      }
      var rem := version;
      for i := 0 to 12
        invariant rem == Steps(version, VERSION_GENERATOR, 12, i)
      {
        rem := Xor(2 * rem, Shr(rem, 11) * 0x1F25);
      }
      var bits := Shl(version, 12) + rem;
      VersionWordRange(version);
      PaintVersion(bits);
    }

    method PaintVersion(bits: nat)
      requires Valid() && version >= 7
      modifies this`modules, this`isFunction
      ensures Valid()
      ensures Painted(old(isFunction), old(modules), isFunction, modules, size, c => VersionInk(size, bits, c))
    {
      hide GetBit;
      for i := 0 to 18
        invariant Valid()
        invariant Painted(old(isFunction), old(modules), isFunction, modules, size,
                          (c: Cell) => if VersionIndex(size, c) < i then VersionInk(size, bits, c) else None)
      {
        var bit := GetBit(bits, i);
        var a, b := size - 11 + i % 3, i / 3;
        SetFunctionModule(a, b, bit);
        SetFunctionModule(b, a, bit);
      }
    }

    method DrawAlignment()
      requires Valid()
      modifies this`modules, this`isFunction
      ensures Valid()
      ensures Painted(old(isFunction), old(modules), isFunction, modules, size,
                      c => AlignmentInk(Positions(version), |Positions(version)|, 0, c))
    {
      hide AlignmentInk, Positions;
      var alignPatPos := GetAlignmentPatternPositions(version);
      var numAlign := |alignPatPos|;
      PositionsGood(version);
      NoPatternYet(isFunction, modules, size, alignPatPos);
      for i := 0 to numAlign
        invariant Valid()
        invariant Painted(old(isFunction), old(modules), isFunction, modules, size,
                          c => AlignmentInk(alignPatPos, i, 0, c))
      {
        for j := 0 to numAlign
          invariant Valid()
          invariant Painted(old(isFunction), old(modules), isFunction, modules, size,
                            c => AlignmentInk(alignPatPos, i, j, c))
        {
          PositionRange(alignPatPos, size, i);
          PositionRange(alignPatPos, size, j);
          ghost var f, g := isFunction, modules;
          if !((i == 0 && j == 0) || (i == 0 && j == numAlign - 1) || (i == numAlign - 1 && j == 0)) {
            DrawAlignmentPattern(alignPatPos[i], alignPatPos[j]);
          }
          PatternPainted(old(isFunction), old(modules), f, g, isFunction, modules, size, alignPatPos, i, j);
        }
        RowPainted(old(isFunction), old(modules), isFunction, modules, size, alignPatPos, i);
      }
    }

    method DrawFunctionPatterns()
      requires Valid()
      modifies this`modules, this`isFunction
      ensures Valid()
      ensures Painted(old(isFunction), old(modules), isFunction, modules, size,
                      c => FunctionInk(size, Positions(version), FormatWord(ecl, 0), VersionWord(version), c))
    {
      hide TimingInk, FinderInk, AlignmentInk, FormatInk, VersionInk, FormatWord, VersionWord, Positions;
      DrawTiming();
      DrawFinderPattern(3, 3);
      DrawFinderPattern(size - 4, 3);
      DrawFinderPattern(3, size - 4);
      DrawAlignment();
      DrawFormatBits(0);
      DrawVersion();
    }

    /** One cell of the scan. */
    method DrawBit(data: seq<byte>, i: nat, x: nat, y: nat, ghost before: Grid, ghost t: nat) returns (i': nat)
      requires Valid() && Square(before, size) && t < ScanLength(size) && CellAt(size, t) == Cell(x, y)
      requires Drawing(isFunction, before, modules, size, ByteBits(data), t, i)
      modifies this`modules
      ensures Valid() && Drawing(isFunction, before, modules, size, ByteBits(data), t + 1, i')
    {
      hide CellAt, IndexOf, Drawing, ByteBits, GetBit, Set, ScanLength;
      DrawingStep(isFunction, before, modules, size, ByteBits(data), t, i);
      i' := i;
      if !isFunction[y][x] && i < |data| * 8 {
        ByteBitsAt(data, i);
        modules := Set(modules, size, Cell(x, y), GetBit(data[i / 8], 7 - i % 8));
        i' := i + 1;
      }
    }

    /** One pair of columns. */
    method DrawPair(data: seq<byte>, i: nat, right: int, ghost before: Grid, ghost p: nat) returns (i': nat)
      requires Valid() && Square(before, size) && 2 * p < size - 1 && right == Right(size, p)
      requires StepOf(size, p, 0, 0) <= ScanLength(size)
      requires Drawing(isFunction, before, modules, size, ByteBits(data), StepOf(size, p, 0, 0), i)
      modifies this`modules
      ensures Valid() && StepOf(size, p + 1, 0, 0) <= ScanLength(size)
      ensures Drawing(isFunction, before, modules, size, ByteBits(data), StepOf(size, p + 1, 0, 0), i')
    {
      hide CellAt, Drawing, ByteBits, ScanLength, StepOf;
      i' := i;
      for vert := 0 to size
        invariant Valid() && StepOf(size, p, vert, 0) <= ScanLength(size)
        invariant Drawing(isFunction, before, modules, size, ByteBits(data), StepOf(size, p, vert, 0), i')
      {
        RowEnd(size, p, vert);
        for j := 0 to 2
          invariant Valid() && StepOf(size, p, vert, j) <= ScanLength(size)
          invariant Drawing(isFunction, before, modules, size, ByteBits(data), StepOf(size, p, vert, j), i')
        {
          ScanCell(size, p, vert, j);
          PairRange(size, p);
          var x := right - j;
          var upward := ((right + 1) / 2) % 2 == 0;
          var y := if upward then size - 1 - vert else vert;
          i' := DrawBit(data, i', x, y, before, StepOf(size, p, vert, j));
        }
      }
      NextPair(size, p);
    }

    /** Draws the codewords in zigzag order; there is room for all of them. */
    method DrawCodewords(data: seq<byte>) returns (ok: bool)
      requires Valid() && MarksFunctions(isFunction, size, Positions(version))
      modifies this`modules
      ensures Valid()
      ensures ok <==> |data| == RawCodewords(version)
      ensures ok ==> Drawn(isFunction, old(modules), modules, size, ByteBits(data))
      ensures !ok ==> modules == old(modules)
    {
      hide Drawing, Drawn, ByteBits, MarksFunctions, RawDataModules, ScanLength, StepOf;
      if |data| != RawCodewords(version) {
        return false;
      }
      ghost var before := modules;
      FirstPair(size);
      StartDrawing(isFunction, before, size, ByteBits(data));
      var i := 0;
      var right := size - 1;
      ghost var p := 0;
      while right >= 1
        invariant 0 <= 2 * p <= size - 1
        invariant right == if size - 1 - 2 * p >= 6 then size - 1 - 2 * p else size - 2 - 2 * p
        invariant Valid() && StepOf(size, p, 0, 0) <= ScanLength(size)
        invariant Drawing(isFunction, before, modules, size, ByteBits(data), StepOf(size, p, 0, 0), i)
        decreases right
      {
        if right == 6 {
          right := 5;
        }
        i := DrawPair(data, i, right, before, p);
        right := right - 2;
        p := p + 1;
      }
      LastPair(size, p);
      FinishDrawing(isFunction, before, modules, version, ByteBits(data), i);
      return true;
    }

    method ApplyMask(msk: int) returns (ok: bool)
      requires Valid()
      modifies this`modules
      ensures Valid()
      ensures ok <==> 0 <= msk <= 7
      ensures modules == if ok then Masked(old(modules), isFunction, size, msk) else old(modules)
    {
      if msk < 0 || msk > 7 {
        return false;
      }
      hide Invert;
      ghost var g := modules;
      for y := 0 to size
        invariant Valid()
        invariant forall c :: Inside(c, size) ==>
                    At(modules, size, c) ==
                    (At(g, size, c) != (c.y < y && Invert(msk, c.x, c.y) && !At(isFunction, size, c)))
      {
        for x := 0 to size
          invariant Valid()
          invariant forall c :: Inside(c, size) ==>
                      At(modules, size, c) ==
                      (At(g, size, c) != ((c.y < y || (c.y == y && c.x < x))
                                          && Invert(msk, c.x, c.y) && !At(isFunction, size, c)))
        {
          var invert := Invert(msk, x, y);
          modules := Set(modules, size, Cell(x, y), modules[y][x] != (invert && !isFunction[y][x]));
        }
      }
      GridsEqual(modules, Masked(g, isFunction, size, msk), size);
      return true;
    }
  }

  lemma StartDrawing(f: Grid, g: Grid, size: nat, bits: seq<bool>)
    requires Square(f, size) && Square(g, size) && ValidSize(size)
    ensures Drawing(f, g, g, size, bits, 0, 0)
  {
  }

  lemma ScanCell(size: nat, p: nat, vert: nat, j: nat)
    requires ValidSize(size) && 2 * p < size - 1 && vert < size && j < 2
    ensures var t, right := StepOf(size, p, vert, j), Right(size, p);
            t < ScanLength(size) && CellAt(size, t) == Cell(right - j, if Upward(right) then size - 1 - vert else vert)
    ensures StepOf(size, p, vert, j) + 1 == StepOf(size, p, vert, j + 1)
  {
    hide PairOf, RowOf, ScanLength;
    ScanStep(size, p, vert, j);
  }

  lemma RowEnd(size: nat, p: nat, vert: nat)
    ensures StepOf(size, p, vert, 2) == StepOf(size, p, vert + 1, 0)
  {
  }

  lemma FirstPair(size: nat)
    ensures StepOf(size, 0, 0, 0) == 0
  {
  }

  lemma NextPair(size: nat, p: nat)
    ensures StepOf(size, p, size, 0) == StepOf(size, p + 1, 0, 0)
  {
    assert (p + 1) * size == p * size + size;
  }

  lemma LastPair(size: nat, p: nat)
    requires ValidSize(size) && 2 * p == size - 1
    ensures StepOf(size, p, 0, 0) == ScanLength(size)
  {
    hide ScanLength;
    ScanLengthIs(size);
  }

  /** The final check of drawCodewords cannot fail. */
  lemma FinishDrawing(f: Grid, before: Grid, after: Grid, ver: int, bits: seq<bool>, i: nat)
    requires Version(ver) && MarksFunctions(f, SizeOf(ver), Positions(ver)) && Square(before, SizeOf(ver))
    requires |bits| == 8 * RawCodewords(ver)
    requires Drawing(f, before, after, SizeOf(ver), bits, ScanLength(SizeOf(ver)), i)
    ensures i == |bits| && Drawn(f, before, after, SizeOf(ver), bits)
  {
    hide FreeCount, FreeBits, RawDataModules, MarksFunctions, ScanLength, IndexOf;
    FreeModules(f, ver);
    assert bits[..|bits|] == bits;
  }
}
