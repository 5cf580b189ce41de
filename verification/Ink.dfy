/**
 What the drawing operations put on the grid: an ink says, cell by cell, which colour a
 function pattern has there, or that it does not cover the cell.
 */
module Ink {
  import opened Bitwise
  import opened Zigzag
  import opened FunctionPatterns
  import opened Outcomes

  /** From (f0, g0) to (f1, g1) exactly the inked cells were marked and coloured. */
  ghost predicate Painted(f0: Grid, g0: Grid, f1: Grid, g1: Grid, size: nat, ink: Cell -> Option<bool>) {
    && Square(f0, size) && Square(g0, size) && Square(f1, size) && Square(g1, size)
    && forall c :: Inside(c, size) ==>
         match ink(c)
         case None => At(f1, size, c) == At(f0, size, c) && At(g1, size, c) == At(g0, size, c)
         case Some(black) => At(f1, size, c) && At(g1, size, c) == black
  }

  /** The first ink on top of the second. */
  function Over(top: Option<bool>, bottom: Option<bool>): Option<bool> {
    if top.Some? then top else bottom
  }

  function DotInk(d: Cell, black: bool, c: Cell): Option<bool> {
    if c == d then Some(black) else None
  }

  function TimingInk(c: Cell): Option<bool> {
    if c.x == 6 then Some(c.y % 2 == 0) else if c.y == 6 then Some(c.x % 2 == 0) else None
  }

  /** Rings around the centre: black but for distances 2 and 4. */
  function FinderInk(centre: Cell, c: Cell): Option<bool> {
    var d := Dist(c, centre);
    if d <= 4 then Some(d != 2 && d != 4) else None
  }

  function FindersInk(size: nat, c: Cell): Option<bool> {
    Over(FinderInk(Cell(3, size - 4), c), Over(FinderInk(Cell(size - 4, 3), c), FinderInk(Cell(3, 3), c)))
  }

  function AlignInk(centre: Cell, c: Cell): Option<bool> {
    var d := Dist(c, centre);
    if d <= 2 then Some(d != 1) else None
  }

  /** c is covered by a pattern (i, j) that is drawn and comes before (k, m). */
  predicate CoveredBefore(pos: seq<int>, k: nat, m: nat, c: Cell) {
    exists i, j :: 0 <= i < |pos| && 0 <= j < |pos| && (i < k || (i == k && j < m))
                   && !Corner(i, j, |pos|) && Dist(c, Cell(pos[i], pos[j])) <= 2
  }

  /** c is a black cell of some alignment pattern. */
  predicate AlignBlack(pos: seq<int>, c: Cell) {
    exists i, j :: 0 <= i < |pos| && 0 <= j < |pos| && !Corner(i, j, |pos|)
                   && Dist(c, Cell(pos[i], pos[j])) <= 2 && Dist(c, Cell(pos[i], pos[j])) != 1
  }

  function AlignmentInk(pos: seq<int>, k: nat, m: nat, c: Cell): Option<bool> {
    if CoveredBefore(pos, k, m, c) then Some(AlignBlack(pos, c)) else None
  }

  function FormatInk(size: nat, word: nat, c: Cell): Option<bool> {
    var i := FormatIndex(size, c);
    if i < 0 then None else Some(i == 15 || GetBit(word, i))
  }

  /** The copy of the format word around the top left finder pattern. */
  function FirstCopyInk(word: nat, c: Cell): Option<bool> {
    if c.x <= 8 && c.y <= 8 && FirstIndex(c) >= 0 then Some(GetBit(word, FirstIndex(c))) else None
  }

  /** The copy along the other two finder patterns, with the module that is always black. */
  function SecondCopyInk(size: nat, word: nat, c: Cell): Option<bool> {
    var i := SecondIndex(size, c);
    if (c.x <= 8 && c.y <= 8) || i < 0 then None else Some(i == 15 || GetBit(word, i))
  }

  function VersionInk(size: nat, word: nat, c: Cell): Option<bool> {
    var i := VersionIndex(size, c);
    if i < 0 then None else Some(GetBit(word, i))
  }

  /** All function patterns: later ones lie on top. */
  function FunctionInk(size: nat, pos: seq<int>, format: nat, version: nat, c: Cell): Option<bool> {
    Over(VersionInk(size, version, c),
         Over(FormatInk(size, format, c),
              Over(AlignmentInk(pos, |pos|, 0, c),
                   Over(FindersInk(size, c), TimingInk(c)))))
  }

  /** The ink covers the function modules and nothing else. */
  lemma FunctionInkCovers(size: nat, pos: seq<int>, format: nat, version: nat, c: Cell)
    ensures FunctionInk(size, pos, format, version, c).Some? <==> IsFunctionModule(size, pos, c)
  {
    hide Dist, GetBit, FormatIndex, VersionIndex;
    assert CoveredBefore(pos, |pos|, 0, c) <==> InAlignment(pos, c);
  }

  lemma SamePosition(pos: seq<int>, size: nat, i: nat, k: nat, x: int)
    requires GoodPositions(pos, size) && i < |pos| && k < |pos|
    requires Abs(x - pos[i]) <= 2 && Abs(x - pos[k]) <= 2
    ensures i == k
  {
  }

  /** A cell of alignment pattern (i, j) belongs to no other one. */
  lemma PatternColour(pos: seq<int>, size: nat, i: nat, j: nat, c: Cell)
    requires GoodPositions(pos, size) && i < |pos| && j < |pos| && !Corner(i, j, |pos|)
    requires Dist(c, Cell(pos[i], pos[j])) <= 2
    ensures AlignBlack(pos, c) <==> Dist(c, Cell(pos[i], pos[j])) != 1
  {
    forall k, m | 0 <= k < |pos| && 0 <= m < |pos| && Dist(c, Cell(pos[k], pos[m])) <= 2
      ensures k == i && m == j
    {
      SamePosition(pos, size, i, k, c.x);
      SamePosition(pos, size, j, m, c.y);
    }
    hide Dist, Corner;
  }

  lemma NextPattern(pos: seq<int>, size: nat, k: nat, m: nat, c: Cell)
    requires GoodPositions(pos, size) && k < |pos| && m < |pos|
    ensures AlignmentInk(pos, k, m + 1, c) ==
            Over(if Corner(k, m, |pos|) then None else AlignInk(Cell(pos[k], pos[m]), c), AlignmentInk(pos, k, m, c))
  {
    hide Dist;
    if !Corner(k, m, |pos|) && Dist(c, Cell(pos[k], pos[m])) <= 2 {
      PatternColour(pos, size, k, m, c);
    }
  }

  lemma NextPatternRow(pos: seq<int>, k: nat, c: Cell)
    requires k < |pos|
    ensures AlignmentInk(pos, k, |pos|, c) == AlignmentInk(pos, k + 1, 0, c)
  {
    hide Dist, AlignBlack;
  }

  lemma NoPatternYet(f: Grid, g: Grid, size: nat, pos: seq<int>)
    requires Square(f, size) && Square(g, size)
    ensures Painted(f, g, f, g, size, c => AlignmentInk(pos, 0, 0, c))
  {
  }

  /** Drawing pattern (k, m), or skipping it in a corner, keeps the account of what is drawn. */
  lemma PatternPainted(f0: Grid, g0: Grid, f1: Grid, g1: Grid, f2: Grid, g2: Grid,
                       size: nat, pos: seq<int>, k: nat, m: nat)
    requires GoodPositions(pos, size) && k < |pos| && m < |pos|
    requires Painted(f0, g0, f1, g1, size, c => AlignmentInk(pos, k, m, c))
    requires if Corner(k, m, |pos|) then f2 == f1 && g2 == g1
             else Painted(f1, g1, f2, g2, size, c => AlignInk(Cell(pos[k], pos[m]), c))
    ensures Painted(f0, g0, f2, g2, size, c => AlignmentInk(pos, k, m + 1, c))
  {
    hide AlignmentInk, AlignInk;
    forall c | Inside(c, size)
      ensures AlignmentInk(pos, k, m + 1, c) ==
              Over(if Corner(k, m, |pos|) then None else AlignInk(Cell(pos[k], pos[m]), c), AlignmentInk(pos, k, m, c))
    {
      NextPattern(pos, size, k, m, c);
    }
  }

  lemma RowPainted(f0: Grid, g0: Grid, f1: Grid, g1: Grid, size: nat, pos: seq<int>, k: nat)
    requires k < |pos| && Painted(f0, g0, f1, g1, size, c => AlignmentInk(pos, k, |pos|, c))
    ensures Painted(f0, g0, f1, g1, size, c => AlignmentInk(pos, k + 1, 0, c))
  {
    hide AlignmentInk;
    forall c | Inside(c, size)
      ensures AlignmentInk(pos, k, |pos|, c) == AlignmentInk(pos, k + 1, 0, c)
    {
      NextPatternRow(pos, k, c);
    }
  }
}
