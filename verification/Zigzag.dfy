/**
 The module grid and the zigzag order in which codeword bits are placed in it, for
 every size 4 * v + 17.
 */
module Zigzag {
  import opened Arithmetic

  type Grid = seq<seq<bool>>

  /** Column x and row y. */
  datatype Cell = Cell(x: int, y: int)

  predicate Square(g: Grid, size: nat) {
    |g| == size && forall y :: 0 <= y < size ==> |g[y]| == size
  }

  predicate Inside(c: Cell, size: nat) {
    0 <= c.x < size && 0 <= c.y < size
  }

  predicate At(g: Grid, size: nat, c: Cell)
    requires Square(g, size) && Inside(c, size)
  {
    g[c.y][c.x]
  }

  function Set(g: Grid, size: nat, c: Cell, v: bool): (h: Grid)
    requires Square(g, size) && Inside(c, size)
    ensures Square(h, size)
    ensures forall d :: Inside(d, size) ==> At(h, size, d) == if d == c then v else At(g, size, d)
  {
    g[c.y := g[c.y][c.x := v]]
  }

  predicate ValidSize(size: nat) {
    size >= 21 && size % 4 == 1
  }

  /*---- The order of the scan ----*/

  /** The right column of column pair p; the pairs step over column 6. */
  function Right(size: nat, p: nat): int {
    var right := size - 1 - 2 * p;
    if right <= 6 then right - 1 else right
  }

  predicate Upward(right: int) {
    ((right + 1) / 2) % 2 == 0
  }

  function ScanLength(size: nat): nat {
    size * (size - 1)
  }

  /** Step t is cell j of row `vert` of pair p: two cells per row, `size` rows per pair. */
  function StepOf(size: nat, p: nat, vert: nat, j: nat): nat {
    2 * (p * size + vert) + j
  }

  function PairOf(size: nat, t: nat): nat
    requires size >= 1
  {
    t / 2 / size
  }

  function RowOf(size: nat, t: nat): nat
    requires size >= 1
  {
    t / 2 % size
  }

  /** The cell of step t. */
  function CellAt(size: nat, t: nat): Cell
    requires size >= 1
  {
    var right, vert := Right(size, PairOf(size, t)), RowOf(size, t);
    Cell(right - t % 2, if Upward(right) then size - 1 - vert else vert)
  }

  function IndexOf(size: nat, c: Cell): int {
    var k := size - (if c.x > 6 then 1 else 2) - c.x;
    if k < 0 then -1
    else
      var right := Right(size, k / 2);
      var vert := if Upward(right) then size - 1 - c.y else c.y;
      if vert < 0 then -1 else StepOf(size, k / 2, vert, k % 2)
  }

  /** The direction alternates from pair to pair, starting upward, also across column 6. */
  lemma DirectionAlternates(size: nat, p: nat)
    requires ValidSize(size) && 2 * p < size - 1
    ensures Upward(Right(size, p)) <==> p % 2 == 0
  {
  }

  lemma PairRange(size: nat, p: nat)
    requires ValidSize(size) && 2 * p < size - 1
    ensures 1 <= Right(size, p) < size && Right(size, p) != 6 && Right(size, p) - 1 != 6
  {
  }

  lemma Reorder(size: nat, h: nat)
    requires size - 1 == 2 * h
    ensures size * (size - 1) == 2 * (h * size)
  {
    assert size * (2 * h) == 2 * (h * size);
  }

  lemma ScanLengthIs(size: nat)
    requires ValidSize(size)
    ensures ScanLength(size) == 2 * ((size - 1) / 2 * size)
  {
    var h := (size - 1) / 2;
    Reorder(size, h);
  }

  lemma RowBound(size: nat, p: nat, vert: nat)
    requires ValidSize(size) && 2 * p < size - 1 && vert < size
    ensures (p * size + vert) / size == p && (p * size + vert) % size == vert
    ensures 2 * (p * size + vert) + 2 <= ScanLength(size)
  {
    hide ScanLength;
    DivMod(p, vert, size);
    ScanLengthIs(size);
    MulStep(p, (size - 1) / 2, size);
  }

  lemma ScanStep(size: nat, p: nat, vert: nat, j: nat)
    requires ValidSize(size) && 2 * p < size - 1 && vert < size && j < 2
    ensures var t := StepOf(size, p, vert, j);
            t < ScanLength(size) && PairOf(size, t) == p && RowOf(size, t) == vert && t % 2 == j
  {
    hide ScanLength;
    RowBound(size, p, vert);
    var u := p * size + vert;
    assert (2 * u + j) / 2 == u;
  }

  lemma StepParts(size: nat, t: nat)
    requires ValidSize(size) && t < ScanLength(size)
    ensures 2 * PairOf(size, t) < size - 1 && RowOf(size, t) < size
    ensures t == StepOf(size, PairOf(size, t), RowOf(size, t), t % 2)
  {
    hide ScanLength;
    ScanLengthIs(size);
    DivModIs(t / 2, size);
    DivBelow(t / 2, (size - 1) / 2, size);
  }

  /** The scan visits cells of the grid outside column 6, none of them twice. */
  lemma ScanVisits(size: nat, t: nat)
    requires ValidSize(size) && t < ScanLength(size)
    ensures Inside(CellAt(size, t), size) && CellAt(size, t).x != 6
    ensures IndexOf(size, CellAt(size, t)) == t
  {
    hide ScanLength, PairOf, RowOf, StepOf;
    StepParts(size, t);
    PairRange(size, PairOf(size, t));
    PairColumns(size, PairOf(size, t), t % 2);
  }

  lemma PairColumns(size: nat, p: nat, j: nat)
    requires ValidSize(size) && 2 * p < size - 1 && j < 2
    ensures var x := Right(size, p) - j;
            size - (if x > 6 then 1 else 2) - x == 2 * p + j
  {
    HalfSize(size);
    if (size - 1) / 2 - p <= 3 {
      assert Right(size, p) <= 5;
    } else {
      assert Right(size, p) >= 8;
    }
  }

  lemma HalfSize(size: nat)
    requires ValidSize(size)
    ensures size == 2 * ((size - 1) / 2) + 1
  {
    var q := size / 4;
    assert size == 4 * q + 1;
    assert (size - 1) / 2 == 2 * q;
  }

  lemma ColumnOfPair(size: nat, h: nat, x: int, p: int, j: int)
    requires size == 2 * h + 1 && h >= 10 && 0 <= x < size && x != 6 && 0 <= j < 2
    requires 2 * p + j == size - (if x > 6 then 1 else 2) - x
    ensures 0 <= p < h && Right(size, p) - j == x
  {
  }

  lemma ColumnPair(size: nat, c: Cell)
    requires ValidSize(size) && Inside(c, size) && c.x != 6
    ensures var k := size - (if c.x > 6 then 1 else 2) - c.x;
            k >= 0 && 2 * (k / 2) < size - 1 && Right(size, k / 2) - k % 2 == c.x
  {
    hide Right;
    HalfSize(size);
    var k := size - (if c.x > 6 then 1 else 2) - c.x;
    ColumnOfPair(size, (size - 1) / 2, c.x, k / 2, k % 2);
  }

  /** The scan visits every cell outside column 6. */
  lemma ScanCovers(size: nat, c: Cell)
    requires ValidSize(size) && Inside(c, size) && c.x != 6
    ensures 0 <= IndexOf(size, c) < ScanLength(size)
    ensures CellAt(size, IndexOf(size, c)) == c
  {
    hide ScanLength, PairOf, RowOf, StepOf, Right, Upward;
    var k := size - (if c.x > 6 then 1 else 2) - c.x;
    ColumnPair(size, c);
    var vert := if Upward(Right(size, k / 2)) then size - 1 - c.y else c.y;
    ScanStep(size, k / 2, vert, k % 2);
  }

  lemma ScanAt(size: nat, p: nat, v: nat, j: nat)
    requires ValidSize(size) && 2 * p < size - 1 && v < size && j < 2
    ensures CellAt(size, StepOf(size, p, v, j)) ==
            Cell(Right(size, p) - j, if p % 2 == 0 then size - 1 - v else v)
  {
    hide PairOf, RowOf, ScanLength, Upward;
    ScanStep(size, p, v, j);
    DirectionAlternates(size, p);
  }

  lemma StepCounts(size: nat, p: nat, v: nat)
    ensures StepOf(size, 0, 0, 0) == 0 && StepOf(size, p, v, 1) == StepOf(size, p, v, 0) + 1
    ensures StepOf(size, p, v + 1, 0) == StepOf(size, p, v, 0) + 2
    ensures v + 1 == size ==> StepOf(size, p + 1, 0, 0) == StepOf(size, p, v, 0) + 2
  {
    var s := p * size;
    assert (p + 1) * size == s + size;
  }

  /** The scan starts in the lower right corner. */
  lemma ScanStart(size: nat)
    requires ValidSize(size)
    ensures CellAt(size, 0) == Cell(size - 1, size - 1)
  {
    RightStart(size);
    hide CellAt, Right, StepOf, ValidSize;
    StepCounts(size, 0, 0);
    ScanAt(size, 0, 0, 0);
  }

  /** It goes left in a row, then to the next row of the pair: up in the first pair, and turning from pair to pair. */
  lemma ScanMoves(size: nat, p: nat, v: nat)
    requires ValidSize(size) && 2 * p < size - 1 && v < size
    ensures var t := StepOf(size, p, v, 0);
            var c := CellAt(size, t);
            && CellAt(size, t + 1) == Cell(c.x - 1, c.y)
            && (v + 1 < size ==> CellAt(size, t + 2) == Cell(c.x, if p % 2 == 0 then c.y - 1 else c.y + 1))
  {
    hide CellAt, Right, StepOf, ValidSize;
    StepCounts(size, p, v);
    ScanAt(size, p, v, 0);
    ScanAt(size, p, v, 1);
    if v + 1 < size {
      ScanAt(size, p, v + 1, 0);
    }
  }

  /** From the end of a pair it goes on in the same row, in the next column but for column 6. */
  lemma ScanTurns(size: nat, p: nat)
    requires ValidSize(size) && 2 * p + 2 < size - 1
    ensures var t := StepOf(size, p, size - 1, 0);
            var c := CellAt(size, t + 1);
            CellAt(size, t + 2) == Cell(if c.x == 7 then 5 else c.x - 1, c.y)
  {
    NextColumns(size, p);
    Turn(p);
    hide CellAt, Right, StepOf;
    StepCounts(size, p, size - 1);
    ScanAt(size, p, size - 1, 1);
    ScanAt(size, p + 1, 0, 0);
  }

  lemma Turn(p: nat)
    ensures (p + 1) % 2 == 0 <==> p % 2 != 0
  {
  }

  lemma RightStart(size: nat)
    requires size >= 21
    ensures Right(size, 0) == size - 1
  {
  }

  lemma NextColumns(size: nat, p: nat)
    requires ValidSize(size) && 2 * p + 2 < size - 1
    ensures var left := Right(size, p) - 1;
            Right(size, p + 1) == if left == 7 then 5 else left - 1
  {
    HalfSize(size);
  }

  lemma ScanInjective(size: nat, s: nat, t: nat)
    requires ValidSize(size) && s < t < ScanLength(size)
    ensures CellAt(size, s) != CellAt(size, t)
  {
    ScanVisits(size, s);
    ScanVisits(size, t);
  }

  /*---- The free cells of the scan ----*/

  /** The number of cells among the first t that are not function modules. */
  function FreeCount(f: Grid, size: nat, t: nat): nat
    requires Square(f, size) && ValidSize(size) && t <= ScanLength(size)
  {
    if t == 0 then 0
    else
      ScanVisits(size, t - 1);
      FreeCount(f, size, t - 1) + (if At(f, size, CellAt(size, t - 1)) then 0 else 1)
  }

  /** The modules at the free cells among the first t, in the order of the scan. */
  function FreeBits(f: Grid, g: Grid, size: nat, t: nat): (b: seq<bool>)
    requires Square(f, size) && Square(g, size) && ValidSize(size) && t <= ScanLength(size)
    ensures |b| == FreeCount(f, size, t)
  {
    if t == 0 then []
    else
      ScanVisits(size, t - 1);
      var c := CellAt(size, t - 1);
      FreeBits(f, g, size, t - 1) + (if At(f, size, c) then [] else [At(g, size, c)])
  }

  lemma {:induction false} FreeBitsAgree(f: Grid, g: Grid, h: Grid, size: nat, t: nat)
    requires Square(f, size) && Square(g, size) && Square(h, size) && ValidSize(size) && t <= ScanLength(size)
    requires forall c :: Inside(c, size) && c.x != 6 && IndexOf(size, c) < t && !At(f, size, c) ==>
               At(g, size, c) == At(h, size, c)
    ensures FreeBits(f, g, size, t) == FreeBits(f, h, size, t)
  {
    hide CellAt, IndexOf, ScanLength;
    if t > 0 {
      FreeBitsAgree(f, g, h, size, t - 1);
      ScanVisits(size, t - 1);
    }
  }

  /*---- Drawing codewords ----*/

  /** The free cells hold the bits, then what they held before; all other cells are as before. */
  ghost predicate Drawn(f: Grid, before: Grid, after: Grid, size: nat, bits: seq<bool>)
    requires Square(f, size) && Square(before, size) && ValidSize(size)
  {
    && Square(after, size)
    && |bits| <= FreeCount(f, size, ScanLength(size))
    && FreeBits(f, after, size, ScanLength(size)) == bits + FreeBits(f, before, size, ScanLength(size))[|bits|..]
    && forall c :: Inside(c, size) && (At(f, size, c) || c.x == 6) ==> At(after, size, c) == At(before, size, c)
  }

  /** The same, after t steps of the scan and with i bits drawn. */
  ghost predicate Drawing(f: Grid, before: Grid, after: Grid, size: nat, bits: seq<bool>, t: nat, i: nat)
    requires Square(f, size) && Square(before, size) && ValidSize(size) && t <= ScanLength(size)
  {
    && Square(after, size)
    && i == (if FreeCount(f, size, t) < |bits| then FreeCount(f, size, t) else |bits|)
    && FreeBits(f, after, size, t) == bits[..i] + FreeBits(f, before, size, t)[i..]
    && forall c :: Inside(c, size) && (At(f, size, c) || c.x == 6 || IndexOf(size, c) >= t) ==>
         At(after, size, c) == At(before, size, c)
  }

  lemma DrawingStep(f: Grid, before: Grid, after: Grid, size: nat, bits: seq<bool>, t: nat, i: nat)
    requires Square(f, size) && Square(before, size) && ValidSize(size) && t < ScanLength(size)
    requires Drawing(f, before, after, size, bits, t, i)
    ensures var c := CellAt(size, t);
            && Inside(c, size)
            && if !At(f, size, c) && i < |bits|
               then Drawing(f, before, Set(after, size, c, bits[i]), size, bits, t + 1, i + 1)
               else Drawing(f, before, after, size, bits, t + 1, i)
  {
    hide CellAt, IndexOf, ScanLength, Set, Drawing;
    var c := CellAt(size, t);
    ScanVisits(size, t);
    if !At(f, size, c) && i < |bits| {
      DrawingBit(f, before, after, size, bits, t, i);
    } else {
      DrawingSkip(f, before, after, size, bits, t, i);
    }
  }

  lemma DrawingBit(f: Grid, before: Grid, after: Grid, size: nat, bits: seq<bool>, t: nat, i: nat)
    requires Square(f, size) && Square(before, size) && ValidSize(size) && t < ScanLength(size)
    requires Drawing(f, before, after, size, bits, t, i)
    requires Inside(CellAt(size, t), size) && !At(f, size, CellAt(size, t)) && i < |bits|
    ensures Drawing(f, before, Set(after, size, CellAt(size, t), bits[i]), size, bits, t + 1, i + 1)
  {
    hide CellAt, IndexOf, ScanLength, Set;
    ScanVisits(size, t);
    var next := Set(after, size, CellAt(size, t), bits[i]);
    FreeBitsAgree(f, after, next, size, t);
    assert FreeBits(f, before, size, t)[i..] == [];
    assert FreeBits(f, before, size, t + 1)[i + 1..] == [];
    assert bits[..i + 1] == bits[..i] + [bits[i]];
  }

  lemma DrawingSkip(f: Grid, before: Grid, after: Grid, size: nat, bits: seq<bool>, t: nat, i: nat)
    requires Square(f, size) && Square(before, size) && ValidSize(size) && t < ScanLength(size)
    requires Drawing(f, before, after, size, bits, t, i)
    requires Inside(CellAt(size, t), size) && (At(f, size, CellAt(size, t)) || i >= |bits|)
    ensures Drawing(f, before, after, size, bits, t + 1, i)
  {
    hide CellAt, IndexOf, ScanLength;
    ScanVisits(size, t);
  }
}
