/**
 What a reader looks for in a finished symbol before it reads the data: pictures of the
 finder and alignment patterns, alternating timing patterns, and both copies of the format
 and version words, each at the cells where a reader expects its bits.
 */
module FunctionReader {
  import opened Bitwise
  import opened BitBuffers
  import opened Outcomes
  import opened ShiftRegister
  import opened Segments
  import opened Sizes
  import opened Zigzag
  import opened FunctionPatterns
  import opened Alignment
  import opened InfoWords
  import opened Ink
  import opened QrReader

  /** Every function module of the grid has the colour of its pattern. */
  ghost predicate ShowsFunctions(g: Grid, ver: int, ecl: Ecc, mask: nat)
    requires Version(ver)
  {
    var size, pos := SizeOf(ver), Positions(ver);
    Square(g, size) && forall c :: Inside(c, size) ==>
      var ink := FunctionInk(size, pos, FormatWord(ecl, mask), VersionWord(ver), c);
      ink.Some? ==> At(g, size, c) == ink.value
  }

  /*---- Pictures ----*/

  const FINDER: seq<string> :=
    ["#######",
     "#.....#",
     "#.###.#",
     "#.###.#",
     "#.###.#",
     "#.....#",
     "#######"]

  const ALIGNMENT: seq<string> :=
    ["#####",
     "#...#",
     "#.#.#",
     "#...#",
     "#####"]

  /** The grid shows the picture with its top left corner at (x, y). */
  ghost predicate ShowsPicture(g: Grid, size: nat, picture: seq<string>, x: int, y: int)
    requires Square(g, size)
  {
    forall i, j :: 0 <= j < |picture| && 0 <= i < |picture[j]| ==> ShowsPixel(g, size, picture[j][i], x + i, y + j)
  }

  ghost predicate ShowsPixel(g: Grid, size: nat, pixel: char, x: int, y: int)
    requires Square(g, size)
  {
    Inside(Cell(x, y), size) && At(g, size, Cell(x, y)) == (pixel == '#')
  }

  /** A finder pattern with a white border, as far as it lies in the grid. */
  ghost predicate ShowsFinder(g: Grid, size: nat, x: int, y: int)
    requires Square(g, size)
  {
    && ShowsPicture(g, size, FINDER, x, y)
    && forall c :: Inside(c, size) && Dist(c, Cell(x + 3, y + 3)) == 4 ==> !At(g, size, c)
  }

  /** Row 6 and column 6 alternate from finder to finder, starting with black. */
  ghost predicate ShowsTiming(g: Grid, size: nat)
    requires Square(g, size) && size >= 21
  {
    forall k :: 8 <= k <= size - 9 ==> g[6][k] == (k % 2 == 0) && g[k][6] == (k % 2 == 0)
  }

  ghost predicate ShowsAlignments(g: Grid, size: nat, pos: seq<int>)
    requires Square(g, size)
  {
    forall i, j :: 0 <= i < |pos| && 0 <= j < |pos| && !Corner(i, j, |pos|) ==>
      ShowsPicture(g, size, ALIGNMENT, pos[i] - 2, pos[j] - 2)
  }

  lemma FinderPicture(dx: int, dy: int)
    requires -3 <= dx <= 3 && -3 <= dy <= 3
    ensures FinderInk(Cell(0, 0), Cell(dx, dy)) == Some(FINDER[dy + 3][dx + 3] == '#')
  {
  }

  lemma AlignmentPicture(dx: int, dy: int)
    requires -2 <= dx <= 2 && -2 <= dy <= 2
    ensures AlignInk(Cell(0, 0), Cell(dx, dy)) == Some(ALIGNMENT[dy + 2][dx + 2] == '#')
  {
  }

  /*---- Words ----*/

  /** The cells of the second copy of the format word, highest bit first: up column 8, then right along row 8. */
  function SecondFormatCell(size: nat, k: nat): Cell
    requires k < 15
  {
    if k < 7 then Cell(8, size - 1 - k) else Cell(size - 15 + k, 8)
  }

  function SecondFormatBits(g: Grid, size: nat): (b: seq<bool>)
    requires Square(g, size) && ValidSize(size)
    ensures |b| == 15
  {
    seq(15, k requires 0 <= k < 15 => At(g, size, SecondFormatCell(size, k)))
  }

  /**
   The cells of the version word, highest bit first: above the lower left finder pattern, or
   left of the upper right one, in threes that end at the finder pattern.
   */
  function VersionCell(size: nat, k: nat, lowerLeft: bool): Cell
    requires k < 18
  {
    if lowerLeft then Cell(5 - k / 3, size - 9 - k % 3) else Cell(size - 9 - k % 3, 5 - k / 3)
  }

  function VersionBitsAt(g: Grid, size: nat, lowerLeft: bool): (b: seq<bool>)
    requires Square(g, size) && ValidSize(size)
    ensures |b| == 18
  {
    seq(18, k requires 0 <= k < 18 => At(g, size, VersionCell(size, k, lowerLeft)))
  }

  /** A copy of the version word: a multiple of 0x1F25 whose upper six bits are the version. */
  ghost predicate TellsVersion(g: Grid, size: nat, lowerLeft: bool, ver: int)
    requires Square(g, size) && ValidSize(size)
  {
    var word := Value(VersionBitsAt(g, size, lowerLeft));
    word / 4096 == ver && IsMultiple(word, 0x1F25)
  }

  ghost predicate ShowsPatterns(g: Grid, ver: int)
    requires Version(ver) && Square(g, SizeOf(ver))
  {
    var size := SizeOf(ver);
    && ShowsFinder(g, size, 0, 0) && ShowsFinder(g, size, size - 7, 0) && ShowsFinder(g, size, 0, size - 7)
    && ShowsTiming(g, size) && ShowsAlignments(g, size, Positions(ver))
  }

  ghost predicate TellsWords(g: Grid, ver: int, ecl: Ecc, mask: nat)
    requires Version(ver) && Square(g, SizeOf(ver))
  {
    var size := SizeOf(ver);
    && LevelAndMask(g, size) == (ecl, mask)
    && ReadFormat(Value(SecondFormatBits(g, size))) == (ecl, mask)
    && At(g, size, Cell(8, size - 8))
    && (ver >= 7 ==> TellsVersion(g, size, false, ver) && TellsVersion(g, size, true, ver))
  }

  /** Everything a reader looks for is there. */
  ghost predicate LooksRight(g: Grid, ver: int, ecl: Ecc, mask: nat)
    requires Version(ver) && Square(g, SizeOf(ver))
  {
    ShowsPatterns(g, ver) && TellsWords(g, ver, ecl, mask)
  }

  /*---- Each pattern is where it is expected ----*/

  lemma IsSquare(g: Grid, ver: int, ecl: Ecc, mask: nat)
    requires Version(ver) && ShowsFunctions(g, ver, ecl, mask)
    ensures Square(g, SizeOf(ver))
  {
    hide FunctionInk;
  }

  /** What the patterns put on a cell is what the grid shows there. */
  lemma Shown(g: Grid, ver: int, ecl: Ecc, mask: nat, c: Cell, black: bool)
    requires Version(ver) && ShowsFunctions(g, ver, ecl, mask) && Inside(c, SizeOf(ver))
    requires FunctionInk(SizeOf(ver), Positions(ver), FormatWord(ecl, mask), VersionWord(ver), c) == Some(black)
    ensures At(g, SizeOf(ver), c) == black
  {
    hide FunctionInk, FormatWord, VersionWord, Positions;
  }

  /** Alignment patterns keep away from the finder patterns. */
  lemma AlignmentAvoidsFinders(size: nat, pos: seq<int>, c: Cell)
    requires ValidSize(size) && GoodPositions(pos, size) && Inside(c, size) && InFinder(size, c)
    ensures AlignmentInk(pos, |pos|, 0, c) == None
  {
    if i, j :| 0 <= i < |pos| && 0 <= j < |pos| && !Corner(i, j, |pos|) && Dist(c, Cell(pos[i], pos[j])) <= 2 {
      PositionRange(pos, size, i);
      PositionRange(pos, size, j);
    }
  }

  lemma NoWordInFinder(size: nat, c: Cell)
    requires ValidSize(size) && Inside(c, size) && InFinder(size, c)
    ensures VersionIndex(size, c) < 0 && FormatIndex(size, c) < 0
  {
  }

  predicate IsCentre(size: nat, c: Cell) {
    c == Cell(3, 3) || c == Cell(size - 4, 3) || c == Cell(3, size - 4)
  }

  lemma OneFinder(size: nat, centre: Cell, c: Cell)
    requires ValidSize(size) && IsCentre(size, centre) && Dist(c, centre) <= 4
    ensures FindersInk(size, c) == FinderInk(centre, c) && InFinder(size, c)
  {
  }

  lemma FinderColour(g: Grid, ver: int, ecl: Ecc, mask: nat, centre: Cell, c: Cell)
    requires Version(ver) && ShowsFunctions(g, ver, ecl, mask) && Inside(c, SizeOf(ver))
    requires IsCentre(SizeOf(ver), centre) && Dist(c, centre) <= 4
    ensures Some(At(g, SizeOf(ver), c)) == FinderInk(centre, c)
  {
    hide FindersInk, Dist, FormatWord, VersionWord, Positions, AlignmentInk, FormatIndex, VersionIndex, TimingInk,
         ShowsFunctions, InFinder;
    IsSquare(g, ver, ecl, mask);
    var size := SizeOf(ver);
    PositionsGood(ver);
    OneFinder(size, centre, c);
    NoWordInFinder(size, c);
    AlignmentAvoidsFinders(size, Positions(ver), c);
    Shown(g, ver, ecl, mask, c, FinderInk(centre, c).value);
  }

  lemma FinderMoves(centre: Cell, dx: int, dy: int)
    ensures FinderInk(centre, Cell(centre.x + dx, centre.y + dy)) == FinderInk(Cell(0, 0), Cell(dx, dy))
    ensures Dist(Cell(centre.x + dx, centre.y + dy), centre) == Dist(Cell(dx, dy), Cell(0, 0))
  {
  }

  lemma FinderRoom(size: nat, centre: Cell, dx: int, dy: int)
    requires ValidSize(size) && IsCentre(size, centre) && -3 <= dx <= 3 && -3 <= dy <= 3
    ensures Inside(Cell(centre.x + dx, centre.y + dy), size) && Dist(Cell(dx, dy), Cell(0, 0)) <= 4
  {
  }

  lemma FinderPixel(g: Grid, ver: int, ecl: Ecc, mask: nat, centre: Cell, dx: int, dy: int)
    requires Version(ver) && ShowsFunctions(g, ver, ecl, mask) && IsCentre(SizeOf(ver), centre)
    requires -3 <= dx <= 3 && -3 <= dy <= 3
    ensures Square(g, SizeOf(ver)) && |FINDER[dy + 3]| == 7
    ensures ShowsPixel(g, SizeOf(ver), FINDER[dy + 3][dx + 3], centre.x + dx, centre.y + dy)
  {
    hide ShowsFunctions, FinderInk, Dist, IsCentre, SizeOf, At;
    IsSquare(g, ver, ecl, mask);
    FinderMoves(centre, dx, dy);
    FinderPicture(dx, dy);
    FinderRoom(SizeOf(ver), centre, dx, dy);
    FinderColour(g, ver, ecl, mask, centre, Cell(centre.x + dx, centre.y + dy));
  }

  lemma FinderShown(g: Grid, ver: int, ecl: Ecc, mask: nat, x: int, y: int)
    requires Version(ver) && ShowsFunctions(g, ver, ecl, mask)
    requires IsCentre(SizeOf(ver), Cell(x + 3, y + 3))
    ensures ShowsFinder(g, SizeOf(ver), x, y)
  {
    hide ShowsFunctions, ShowsPixel, IsCentre;
    IsSquare(g, ver, ecl, mask);
    var size, centre := SizeOf(ver), Cell(x + 3, y + 3);
    forall i, j | 0 <= j < |FINDER| && 0 <= i < |FINDER[j]|
      ensures ShowsPixel(g, size, FINDER[j][i], x + i, y + j)
    {
      assert |FINDER| == 7 && |FINDER[j]| == 7;
      FinderPixel(g, ver, ecl, mask, centre, i - 3, j - 3);
    }
    forall c | Inside(c, size) && Dist(c, centre) == 4
      ensures !At(g, size, c)
    {
      FinderColour(g, ver, ecl, mask, centre, c);
    }
  }

  /** Alignment patterns on a timing pattern continue its alternation. */
  lemma TimingColour(g: Grid, ver: int, ecl: Ecc, mask: nat, c: Cell, k: int)
    requires Version(ver) && ShowsFunctions(g, ver, ecl, mask)
    requires 8 <= k <= SizeOf(ver) - 9 && (c == Cell(6, k) || c == Cell(k, 6))
    ensures At(g, SizeOf(ver), c) == (k % 2 == 0)
  {
    hide FormatWord, VersionWord, Positions, ShowsFunctions, AlignBlack, CoveredBefore;
    IsSquare(g, ver, ecl, mask);
    var size, pos := SizeOf(ver), Positions(ver);
    PositionsGood(ver);
    TimingFree(size, c, k);
    if CoveredBefore(pos, |pos|, 0, c) {
      TimingCrossed(ver, c, k);
    }
    Shown(g, ver, ecl, mask, c, k % 2 == 0);
  }

  lemma TimingFree(size: nat, c: Cell, k: int)
    requires ValidSize(size) && 8 <= k <= size - 9 && (c == Cell(6, k) || c == Cell(k, 6))
    ensures VersionIndex(size, c) < 0 && FormatIndex(size, c) < 0 && FindersInk(size, c) == None
    ensures TimingInk(c) == Some(k % 2 == 0)
  {
  }

  lemma TimingCrossed(ver: int, c: Cell, k: int)
    requires Version(ver) && 8 <= k <= SizeOf(ver) - 9 && (c == Cell(6, k) || c == Cell(k, 6))
    requires CoveredBefore(Positions(ver), |Positions(ver)|, 0, c)
    ensures AlignBlack(Positions(ver), c) <==> k % 2 == 0
  {
    hide AlignBlack, Positions, AlignStep, Dist;
    var size, pos := SizeOf(ver), Positions(ver);
    PositionsGood(ver);
    var i, j :| 0 <= i < |pos| && 0 <= j < |pos| && !Corner(i, j, |pos|) && Dist(c, Cell(pos[i], pos[j])) <= 2;
    PatternColour(pos, size, i, j, c);
    PositionRange(pos, size, i);
    PositionRange(pos, size, j);
    PositionsEven(ver, i);
    PositionsEven(ver, j);
    CrossedColour(pos[i], pos[j], c, k);
  }

  lemma CrossedColour(x: int, y: int, c: Cell, k: int)
    requires x % 2 == 0 && y % 2 == 0 && (x == 6 || x >= 13) && (y == 6 || y >= 13)
    requires (c == Cell(6, k) || c == Cell(k, 6)) && Dist(c, Cell(x, y)) <= 2 && k >= 8
    ensures Dist(c, Cell(x, y)) != 1 <==> k % 2 == 0
  {
  }

  lemma TimingShown(g: Grid, ver: int, ecl: Ecc, mask: nat)
    requires Version(ver) && ShowsFunctions(g, ver, ecl, mask)
    ensures ShowsTiming(g, SizeOf(ver))
  {
    hide ShowsFunctions;
    IsSquare(g, ver, ecl, mask);
    forall k | 8 <= k <= SizeOf(ver) - 9
      ensures g[6][k] == (k % 2 == 0) && g[k][6] == (k % 2 == 0)
    {
      TimingColour(g, ver, ecl, mask, Cell(k, 6), k);
      TimingColour(g, ver, ecl, mask, Cell(6, k), k);
    }
  }

  lemma AlignmentColour(g: Grid, ver: int, ecl: Ecc, mask: nat, i: nat, j: nat, c: Cell)
    requires Version(ver) && ShowsFunctions(g, ver, ecl, mask) && i < |Positions(ver)| && j < |Positions(ver)|
    requires !Corner(i, j, |Positions(ver)|) && Dist(c, Cell(Positions(ver)[i], Positions(ver)[j])) <= 2
    ensures Inside(c, SizeOf(ver))
    ensures Some(At(g, SizeOf(ver), c)) == AlignInk(Cell(Positions(ver)[i], Positions(ver)[j]), c)
  {
    hide FormatWord, VersionWord, Positions, ShowsFunctions, AlignBlack, Dist, FindersInk, TimingInk;
    IsSquare(g, ver, ecl, mask);
    var size, pos := SizeOf(ver), Positions(ver);
    PositionsGood(ver);
    NoWordInAlignment(size, pos, i, j, c);
    PatternColour(pos, size, i, j, c);
    assert CoveredBefore(pos, |pos|, 0, c);
    Shown(g, ver, ecl, mask, c, AlignBlack(pos, c));
  }

  lemma NoWordInAlignment(size: nat, pos: seq<int>, i: nat, j: nat, c: Cell)
    requires ValidSize(size) && GoodPositions(pos, size) && i < |pos| && j < |pos| && !Corner(i, j, |pos|)
    requires Dist(c, Cell(pos[i], pos[j])) <= 2
    ensures Inside(c, size) && VersionIndex(size, c) < 0 && FormatIndex(size, c) < 0
  {
    hide BaseSet, Dist, InTiming, InFinder, GoodPositions, VersionIndex, FormatIndex;
    PatternOverlap(size, pos, i, j, c);
    BaseSetIs(size, c);
    if c.x == 6 || c.y == 6 {
      NoWordOnTiming(size, c);
    }
  }

  lemma NoWordOnTiming(size: nat, c: Cell)
    requires ValidSize(size) && Inside(c, size) && (c.x == 6 || c.y == 6)
    ensures VersionIndex(size, c) < 0 && FormatIndex(size, c) < 0
  {
  }

  lemma AlignMoves(centre: Cell, dx: int, dy: int)
    ensures AlignInk(centre, Cell(centre.x + dx, centre.y + dy)) == AlignInk(Cell(0, 0), Cell(dx, dy))
    ensures Dist(Cell(centre.x + dx, centre.y + dy), centre) == Dist(Cell(dx, dy), Cell(0, 0))
  {
  }

  lemma AlignmentPixel(g: Grid, ver: int, ecl: Ecc, mask: nat, i: nat, j: nat, dx: int, dy: int)
    requires Version(ver) && ShowsFunctions(g, ver, ecl, mask) && i < |Positions(ver)| && j < |Positions(ver)|
    requires !Corner(i, j, |Positions(ver)|) && -2 <= dx <= 2 && -2 <= dy <= 2
    ensures Square(g, SizeOf(ver)) && |ALIGNMENT[dy + 2]| == 5
    ensures ShowsPixel(g, SizeOf(ver), ALIGNMENT[dy + 2][dx + 2], Positions(ver)[i] + dx, Positions(ver)[j] + dy)
  {
    hide ShowsFunctions, Positions, Corner, AlignInk, Dist;
    IsSquare(g, ver, ecl, mask);
    AlignmentPicture(dx, dy);
    SmallDist(dx, dy);
    var centre := Cell(Positions(ver)[i], Positions(ver)[j]);
    AlignMoves(centre, dx, dy);
    AlignmentColour(g, ver, ecl, mask, i, j, Cell(centre.x + dx, centre.y + dy));
  }

  lemma AlignmentShown(g: Grid, ver: int, ecl: Ecc, mask: nat, i: nat, j: nat)
    requires Version(ver) && ShowsFunctions(g, ver, ecl, mask) && i < |Positions(ver)| && j < |Positions(ver)|
    requires !Corner(i, j, |Positions(ver)|)
    ensures Square(g, SizeOf(ver))
    ensures ShowsPicture(g, SizeOf(ver), ALIGNMENT, Positions(ver)[i] - 2, Positions(ver)[j] - 2)
  {
    hide ShowsFunctions, Positions, Corner, ShowsPixel;
    IsSquare(g, ver, ecl, mask);
    var x, y := Positions(ver)[i] - 2, Positions(ver)[j] - 2;
    forall u, v | 0 <= v < |ALIGNMENT| && 0 <= u < |ALIGNMENT[v]|
      ensures ShowsPixel(g, SizeOf(ver), ALIGNMENT[v][u], x + u, y + v)
    {
      assert |ALIGNMENT| == 5 && |ALIGNMENT[v]| == 5;
      AlignmentPixel(g, ver, ecl, mask, i, j, u - 2, v - 2);
    }
  }

  lemma SmallDist(dx: int, dy: int)
    requires -2 <= dx <= 2 && -2 <= dy <= 2
    ensures Dist(Cell(dx, dy), Cell(0, 0)) <= 2
  {
  }

  lemma AlignmentsShown(g: Grid, ver: int, ecl: Ecc, mask: nat)
    requires Version(ver) && ShowsFunctions(g, ver, ecl, mask)
    ensures ShowsAlignments(g, SizeOf(ver), Positions(ver))
  {
    hide ShowsFunctions, ShowsPicture, Positions, Corner;
    IsSquare(g, ver, ecl, mask);
    var pos := Positions(ver);
    forall i, j | 0 <= i < |pos| && 0 <= j < |pos| && !Corner(i, j, |pos|)
      ensures ShowsPicture(g, SizeOf(ver), ALIGNMENT, pos[i] - 2, pos[j] - 2)
    {
      AlignmentShown(g, ver, ecl, mask, i, j);
    }
  }

  lemma SecondFormatCellIs(size: nat, k: nat)
    requires ValidSize(size) && k < 15
    ensures Inside(SecondFormatCell(size, k), size) && FormatIndex(size, SecondFormatCell(size, k)) == 14 - k
    ensures VersionIndex(size, SecondFormatCell(size, k)) < 0
    ensures FormatIndex(size, Cell(8, size - 8)) == 15 && VersionIndex(size, Cell(8, size - 8)) < 0
  {
  }

  lemma FirstFormatCellIs(size: nat, i: nat)
    requires ValidSize(size) && i < 15
    ensures VersionIndex(size, FormatCell(i)) < 0
  {
  }

  /** The ink of the words lies on top. */
  lemma WordShown(g: Grid, ver: int, ecl: Ecc, mask: nat, c: Cell)
    requires Version(ver) && ShowsFunctions(g, ver, ecl, mask) && Inside(c, SizeOf(ver))
    ensures Square(g, SizeOf(ver))
    ensures var i := VersionIndex(SizeOf(ver), c);
            i >= 0 ==> At(g, SizeOf(ver), c) == GetBit(VersionWord(ver), i)
    ensures var i := FormatIndex(SizeOf(ver), c);
            VersionIndex(SizeOf(ver), c) < 0 && i >= 0 ==>
              At(g, SizeOf(ver), c) == (i == 15 || GetBit(FormatWord(ecl, mask), i))
  {
    hide FormatWord, VersionWord, Positions, AlignmentInk, FindersInk, TimingInk, FormatIndex, VersionIndex, GetBit;
    IsSquare(g, ver, ecl, mask);
  }

  lemma FormatBitShown(g: Grid, ver: int, ecl: Ecc, mask: nat, c: Cell, k: nat)
    requires Version(ver) && ShowsFunctions(g, ver, ecl, mask) && Inside(c, SizeOf(ver)) && k < 15
    requires FormatIndex(SizeOf(ver), c) == 14 - k && VersionIndex(SizeOf(ver), c) < 0
    ensures Square(g, SizeOf(ver)) && At(g, SizeOf(ver), c) == Bits(FormatWord(ecl, mask), 15)[k]
  {
    hide FormatWord, VersionWord, ShowsFunctions, FormatIndex, VersionIndex, GetBit, Bits, At;
    WordShown(g, ver, ecl, mask, c);
    BitsAt(FormatWord(ecl, mask), 15, k);
  }

  lemma FirstFormatBit(g: Grid, size: nat, k: nat)
    requires Square(g, size) && ValidSize(size) && k < 15
    ensures Inside(FormatCell(14 - k), size) && FormatBitsAt(g, size)[k] == At(g, size, FormatCell(14 - k))
  {
  }

  lemma FirstFormatShown(g: Grid, ver: int, ecl: Ecc, mask: nat)
    requires Version(ver) && ShowsFunctions(g, ver, ecl, mask)
    ensures FormatBitsAt(g, SizeOf(ver)) == Bits(FormatWord(ecl, mask), 15)
  {
    hide FormatWord, ShowsFunctions, FormatIndex, VersionIndex, FormatCell, Bits, At, FormatBitsAt;
    IsSquare(g, ver, ecl, mask);
    forall k | 0 <= k < 15
      ensures FormatBitsAt(g, SizeOf(ver))[k] == Bits(FormatWord(ecl, mask), 15)[k]
    {
      FormatCellIs(SizeOf(ver), 14 - k);
      FirstFormatCellIs(SizeOf(ver), 14 - k);
      FirstFormatBit(g, SizeOf(ver), k);
      FormatBitShown(g, ver, ecl, mask, FormatCell(14 - k), k);
    }
  }

  lemma SecondFormatShown(g: Grid, ver: int, ecl: Ecc, mask: nat)
    requires Version(ver) && ShowsFunctions(g, ver, ecl, mask)
    ensures SecondFormatBits(g, SizeOf(ver)) == Bits(FormatWord(ecl, mask), 15)
  {
    hide FormatWord, ShowsFunctions, FormatIndex, VersionIndex, SecondFormatCell, Bits, At;
    IsSquare(g, ver, ecl, mask);
    forall k | 0 <= k < 15
      ensures SecondFormatBits(g, SizeOf(ver))[k] == Bits(FormatWord(ecl, mask), 15)[k]
    {
      SecondFormatCellIs(SizeOf(ver), k);
      FormatBitShown(g, ver, ecl, mask, SecondFormatCell(SizeOf(ver), k), k);
    }
  }

  lemma DarkShown(g: Grid, ver: int, ecl: Ecc, mask: nat)
    requires Version(ver) && ShowsFunctions(g, ver, ecl, mask)
    ensures Square(g, SizeOf(ver)) && At(g, SizeOf(ver), Cell(8, SizeOf(ver) - 8))
  {
    hide FormatWord, VersionWord, ShowsFunctions, FormatIndex, VersionIndex, GetBit;
    SecondFormatCellIs(SizeOf(ver), 0);
    WordShown(g, ver, ecl, mask, Cell(8, SizeOf(ver) - 8));
  }

  lemma FormatTold(g: Grid, ver: int, ecl: Ecc, mask: nat)
    requires Version(ver) && mask < 8 && ShowsFunctions(g, ver, ecl, mask)
    ensures Square(g, SizeOf(ver)) && LevelAndMask(g, SizeOf(ver)) == (ecl, mask)
    ensures ReadFormat(Value(SecondFormatBits(g, SizeOf(ver)))) == (ecl, mask)
    ensures At(g, SizeOf(ver), Cell(8, SizeOf(ver) - 8))
  {
    hide ShowsFunctions, FormatWord, Bits, Value, ReadFormat, FormatBitsAt, SecondFormatBits, Pow2;
    IsSquare(g, ver, ecl, mask);
    FirstFormatShown(g, ver, ecl, mask);
    SecondFormatShown(g, ver, ecl, mask);
    DarkShown(g, ver, ecl, mask);
    FormatWordRange(ecl, mask);
    ValueOfBits(FormatWord(ecl, mask), 15);
    ReadFormatWord(ecl, mask);
  }

  lemma VersionCellIs(size: nat, k: nat, lowerLeft: bool)
    requires ValidSize(size) && size >= 45 && k < 18
    ensures Inside(VersionCell(size, k, lowerLeft), size)
    ensures VersionIndex(size, VersionCell(size, k, lowerLeft)) == 17 - k
  {
    assert k == 3 * (k / 3) + k % 3;
  }

  lemma VersionShown(g: Grid, ver: int, ecl: Ecc, mask: nat, lowerLeft: bool)
    requires Version(ver) && ver >= 7 && ShowsFunctions(g, ver, ecl, mask)
    ensures TellsVersion(g, SizeOf(ver), lowerLeft, ver)
  {
    hide FormatWord, VersionWord, ShowsFunctions, FormatIndex, VersionIndex, VersionCell, GetBit, Bits, Value,
         IsMultiple;
    IsSquare(g, ver, ecl, mask);
    var size, word := SizeOf(ver), VersionWord(ver);
    forall k | 0 <= k < 18
      ensures VersionBitsAt(g, size, lowerLeft)[k] == Bits(word, 18)[k]
    {
      VersionCellIs(size, k, lowerLeft);
      WordShown(g, ver, ecl, mask, VersionCell(size, k, lowerLeft));
      BitsAt(word, 18, k);
    }
    assert VersionBitsAt(g, size, lowerLeft) == Bits(word, 18);
    VersionWordRange(ver);
    ValueOfBits(word, 18);
    VersionWordTells(ver);
  }

  lemma VersionWordTells(ver: int)
    requires Version(ver)
    ensures VersionWord(ver) / 4096 == ver && IsMultiple(VersionWord(ver), 0x1F25)
  {
    hide Protected, IsMultiple, Shr, Shl, Pow2;
    GeneratorDegrees();
    ProtectedUnique(ver, VersionWord(ver), VERSION_GENERATOR, 12);
    var h := LowPart(VersionWord(ver), 12);
    ShlIs(ver, 12);
  }

  lemma {:induction false} ShlIs(x: nat, n: nat)
    ensures Shl(x, n) == x * Pow2(n)
  {
    if n > 0 {
      ShlIs(x, n - 1);
      Regroup(x, Pow2(n - 1));
    }
  }

  lemma Regroup(q: nat, d: nat)
    ensures q * (2 * d) == 2 * (q * d)
  {
  }

  lemma SizeIsLarge(ver: int)
    requires Version(ver)
    ensures SizeOf(ver) >= 21
  {
  }

  lemma Centres(size: nat)
    ensures IsCentre(size, Cell(0 + 3, 0 + 3))
    ensures IsCentre(size, Cell(size - 7 + 3, 0 + 3)) && IsCentre(size, Cell(0 + 3, size - 7 + 3))
  {
  }

  lemma PatternsShown(g: Grid, ver: int, ecl: Ecc, mask: nat)
    requires Version(ver) && ShowsFunctions(g, ver, ecl, mask)
    ensures Square(g, SizeOf(ver)) && ShowsPatterns(g, ver)
  {
    hide ShowsFunctions, ShowsFinder, ShowsTiming, ShowsAlignments, Positions, IsCentre, Square, ValidSize, SizeOf;
    var size := SizeOf(ver);
    SizeIsLarge(ver);
    IsSquare(g, ver, ecl, mask);
    Centres(size);
    FinderShown(g, ver, ecl, mask, 0, 0);
    FinderShown(g, ver, ecl, mask, size - 7, 0);
    FinderShown(g, ver, ecl, mask, 0, size - 7);
    TimingShown(g, ver, ecl, mask);
    AlignmentsShown(g, ver, ecl, mask);
  }

  lemma WordsTold(g: Grid, ver: int, ecl: Ecc, mask: nat)
    requires Version(ver) && mask < 8 && ShowsFunctions(g, ver, ecl, mask)
    ensures Square(g, SizeOf(ver)) && TellsWords(g, ver, ecl, mask)
  {
    hide ShowsFunctions, TellsVersion, Value, ReadFormat, FormatBitsAt, SecondFormatBits, LevelAndMask, At;
    IsSquare(g, ver, ecl, mask);
    FormatTold(g, ver, ecl, mask);
    if ver >= 7 {
      VersionShown(g, ver, ecl, mask, false);
      VersionShown(g, ver, ecl, mask, true);
    }
  }

  /** A symbol that shows its function patterns has everything a reader looks for. */
  lemma FunctionsLookRight(g: Grid, ver: int, ecl: Ecc, mask: nat)
    requires Version(ver) && mask < 8 && ShowsFunctions(g, ver, ecl, mask)
    ensures Square(g, SizeOf(ver)) && LooksRight(g, ver, ecl, mask)
  {
    hide ShowsFunctions, ShowsPatterns, TellsWords;
    PatternsShown(g, ver, ecl, mask);
    WordsTold(g, ver, ecl, mask);
  }
}
