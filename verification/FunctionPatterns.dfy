/**
 Which modules are function modules, and how many are left for data.  The count is
 proved for every size 4 * v + 17 and every list of alignment pattern positions that
 ascends from 6 to size - 7 in steps of at least 7.
 */
module FunctionPatterns {
  import opened Zigzag

  function Max(a: int, b: int): int {
    if a < b then b else a
  }

  function Abs(a: int): nat {
    if a < 0 then -a else a
  }

  /** Chebyshev distance. */
  function Dist(c: Cell, d: Cell): int {
    Max(Abs(c.x - d.x), Abs(c.y - d.y))
  }

  predicate InTiming(c: Cell) {
    c.x == 6 || c.y == 6
  }

  /** The nine by nine squares around the three finder centres. */
  predicate InFinder(size: nat, c: Cell) {
    || Dist(c, Cell(3, 3)) <= 4
    || Dist(c, Cell(size - 4, 3)) <= 4
    || Dist(c, Cell(3, size - 4)) <= 4
  }

  /** The bit of the format word at c; 15 stands for the module that is always black, -1 for none. */
  function FormatIndex(size: nat, c: Cell): int {
    if c.x <= 8 && c.y <= 8 then FirstIndex(c) else SecondIndex(size, c)
  }

  /** In the copy around the top left finder pattern. */
  function FirstIndex(c: Cell): (i: int)
    ensures i < 15
  {
    if c.x == 8 && 0 <= c.y <= 5 then c.y
    else if c == Cell(8, 7) then 6
    else if c == Cell(8, 8) then 7
    else if c == Cell(7, 8) then 8
    else if c.y == 8 && 0 <= c.x <= 5 then 14 - c.x
    else -1
  }

  /** In the copy along the other two finder patterns. */
  function SecondIndex(size: nat, c: Cell): int {
    if c.y == 8 && c.x >= size - 8 then size - 1 - c.x
    else if c.x == 8 && c.y >= size - 7 then c.y - size + 15
    else if c == Cell(8, size - 8) then 15
    else -1
  }

  /** The bit of the version word at c, -1 for none; only versions from 7 on have one. */
  function VersionIndex(size: nat, c: Cell): int {
    if size < 45 then -1
    else if size - 11 <= c.x <= size - 9 && c.y <= 5 then 3 * c.y + c.x - (size - 11)
    else if size - 11 <= c.y <= size - 9 && c.x <= 5 then 3 * c.x + c.y - (size - 11)
    else -1
  }

  /** Pattern (i, j) of an n by n arrangement lies on a finder pattern and is not drawn. */
  predicate Corner(i: int, j: int, n: int) {
    (i == 0 && j == 0) || (i == 0 && j == n - 1) || (i == n - 1 && j == 0)
  }

  predicate InAlignment(pos: seq<int>, c: Cell) {
    exists i, j :: 0 <= i < |pos| && 0 <= j < |pos| && !Corner(i, j, |pos|) && Dist(c, Cell(pos[i], pos[j])) <= 2
  }

  /** Everything but the alignment patterns. */
  predicate InBase(size: nat, c: Cell) {
    InTiming(c) || InFinder(size, c) || FormatIndex(size, c) >= 0 || VersionIndex(size, c) >= 0
  }

  predicate IsFunctionModule(size: nat, pos: seq<int>, c: Cell) {
    InBase(size, c) || InAlignment(pos, c)
  }

  ghost predicate GoodPositions(pos: seq<int>, size: nat) {
    && |pos| != 1
    && (|pos| >= 2 ==> pos[0] == 6 && pos[|pos| - 1] == size - 7)
    && forall i, j :: 0 <= i < j < |pos| ==> pos[i] + 7 <= pos[j]
  }

  /*---- Counting cells ----*/

  ghost function Rect(x: int, y: int, w: nat, h: nat): (r: set<Cell>)
    ensures forall c :: c in r <==> x <= c.x < x + w && y <= c.y < y + h
    ensures |r| == w * h
  {
    if h == 0 then {}
    else Row(x, y + h - 1, w) + Rect(x, y, w, h - 1)
  }

  ghost function Row(x: int, y: int, w: nat): (r: set<Cell>)
    ensures forall c :: c in r <==> x <= c.x < x + w && c.y == y
    ensures |r| == w
  {
    if w == 0 then {} else Row(x, y, w - 1) + {Cell(x + w - 1, y)}
  }

  ghost function BaseSet(size: nat): set<Cell>
    requires ValidSize(size)
  {
    Rect(0, 0, 9, 9) + Rect(size - 8, 0, 8, 9) + Rect(0, size - 8, 9, 8)
    + Rect(9, 6, size - 17, 1) + Rect(6, 9, 1, size - 17)
    + (if size < 45 then {} else Rect(size - 11, 0, 3, 6) + Rect(0, size - 11, 6, 3))
  }

  predicate InBaseRects(size: nat, c: Cell) {
    || (c.x < 9 && c.y < 9)
    || (c.x >= size - 8 && c.y < 9)
    || (c.x < 9 && c.y >= size - 8)
    || InTiming(c)
    || (size >= 45 && c.y < 6 && c.x >= size - 11)
    || (size >= 45 && c.x < 6 && c.y >= size - 11)
  }

  lemma BaseIsRects(size: nat, c: Cell)
    requires ValidSize(size) && Inside(c, size)
    ensures InBase(size, c) <==> InBaseRects(size, c)
  {
  }

  lemma BaseSetIs(size: nat, c: Cell)
    requires ValidSize(size) && Inside(c, size)
    ensures c in BaseSet(size) <==> InBase(size, c)
  {
    hide Rect, Row, InBase;
    BaseIsRects(size, c);
  }

  lemma BaseSetCount(size: nat)
    requires ValidSize(size)
    ensures |BaseSet(size)| == 225 + 2 * (size - 17) + (if size < 45 then 0 else 36)
  {
    hide Rect, Row;
    var tl, tr, bl := Rect(0, 0, 9, 9), Rect(size - 8, 0, 8, 9), Rect(0, size - 8, 9, 8);
    var th, tv := Rect(9, 6, size - 17, 1), Rect(6, 9, 1, size - 17);
    assert tl !! tr;
    assert tl + tr !! bl;
    assert tl + tr + bl !! th;
    assert tl + tr + bl + th !! tv;
    if size >= 45 {
      var vr, vl := Rect(size - 11, 0, 3, 6), Rect(0, size - 11, 6, 3);
      assert vr !! vl;
      assert tl + tr + bl + th + tv !! vr + vl;
    }
  }

  /** The cells that alignment pattern (i, j) adds to the base. */
  ghost function Added(size: nat, pos: seq<int>, i: nat, j: nat): set<Cell>
    requires ValidSize(size) && i < |pos| && j < |pos|
  {
    if Corner(i, j, |pos|) then {} else Rect(pos[i] - 2, pos[j] - 2, 5, 5) - BaseSet(size)
  }

  function AddedCount(i: nat, j: nat, n: nat): nat {
    if Corner(i, j, n) then 0 else if i == 0 || j == 0 then 20 else 25
  }

  lemma AddedHas(size: nat, pos: seq<int>, i: nat, j: nat)
    requires ValidSize(size) && GoodPositions(pos, size) && i < |pos| && j < |pos|
    ensures |Added(size, pos, i, j)| == AddedCount(i, j, |pos|)
    ensures forall c :: c in Added(size, pos, i, j) ==> Dist(c, Cell(pos[i], pos[j])) <= 2
  {
    hide Rect, Row, BaseSet, InBase;
    if !Corner(i, j, |pos|) {
      var x, y := pos[i], pos[j];
      var r, base := Rect(x - 2, y - 2, 5, 5), BaseSet(size);
      forall c | c in r
        ensures c in base <==> (i == 0 && c.x == 6) || (j == 0 && c.y == 6)
      {
        PatternOverlap(size, pos, i, j, c);
      }
      var common := if i == 0 then Rect(6, y - 2, 1, 5) else if j == 0 then Rect(x - 2, 6, 5, 1) else {};
      PositionRange(pos, size, i);
      PositionRange(pos, size, j);
      forall c | c in r
        ensures c in base <==> c in common
      {
      }
      SplitCount(r, base, common);
    }
  }

  lemma SplitCount(r: set<Cell>, base: set<Cell>, common: set<Cell>)
    requires common <= r && forall c :: c in r ==> (c in base <==> c in common)
    ensures |r - base| == |r| - |common|
  {
    assert r == (r - base) + common;
  }

  /** Alignment patterns meet the rest only where they cross the timing patterns. */
  lemma PatternOverlap(size: nat, pos: seq<int>, i: nat, j: nat, c: Cell)
    requires ValidSize(size) && GoodPositions(pos, size) && i < |pos| && j < |pos| && !Corner(i, j, |pos|)
    requires Dist(c, Cell(pos[i], pos[j])) <= 2
    ensures Inside(c, size)
    ensures c in BaseSet(size) <==> (i == 0 && c.x == 6) || (j == 0 && c.y == 6)
  {
    hide BaseSet, InBase;
    PositionRange(pos, size, i);
    PositionRange(pos, size, j);
    BaseSetIs(size, c);
    BaseIsRects(size, c);
  }

  lemma PositionRange(pos: seq<int>, size: nat, i: nat)
    requires GoodPositions(pos, size) && i < |pos|
    ensures i == 0 ==> pos[i] == 6
    ensures i > 0 ==> 13 <= pos[i]
    ensures i == |pos| - 1 ==> pos[i] == size - 7
    ensures i < |pos| - 1 ==> pos[i] <= size - 14
  {
  }

  /** The cells of the patterns (i, 0) .. (i, m - 1). */
  ghost function AddedRow(size: nat, pos: seq<int>, i: nat, m: nat): set<Cell>
    requires ValidSize(size) && i < |pos| && m <= |pos|
  {
    if m == 0 then {} else AddedRow(size, pos, i, m - 1) + Added(size, pos, i, m - 1)
  }

  function RowCount(i: nat, m: nat, n: nat): nat {
    if m == 0 then 0 else RowCount(i, m - 1, n) + AddedCount(i, m - 1, n)
  }

  lemma {:induction false} AddedRowHas(size: nat, pos: seq<int>, i: nat, m: nat)
    requires ValidSize(size) && GoodPositions(pos, size) && i < |pos| && m <= |pos|
    ensures |AddedRow(size, pos, i, m)| == RowCount(i, m, |pos|)
    ensures forall c :: c in AddedRow(size, pos, i, m) ==>
              Abs(c.x - pos[i]) <= 2 && (m < |pos| ==> c.y + 2 < pos[m])
  {
    hide Added;
    if m > 0 {
      AddedRowHas(size, pos, i, m - 1);
      AddedHas(size, pos, i, m - 1);
      assert AddedRow(size, pos, i, m - 1) !! Added(size, pos, i, m - 1);
    }
  }

  ghost function AddedRows(size: nat, pos: seq<int>, k: nat): set<Cell>
    requires ValidSize(size) && k <= |pos|
  {
    if k == 0 then {} else AddedRows(size, pos, k - 1) + AddedRow(size, pos, k - 1, |pos|)
  }

  function RowsCount(k: nat, n: nat): nat {
    if k == 0 then 0 else RowsCount(k - 1, n) + RowCount(k - 1, n, n)
  }

  lemma {:induction false} AddedRowsHas(size: nat, pos: seq<int>, k: nat)
    requires ValidSize(size) && GoodPositions(pos, size) && k <= |pos|
    ensures |AddedRows(size, pos, k)| == RowsCount(k, |pos|)
    ensures forall c :: c in AddedRows(size, pos, k) ==> k < |pos| ==> c.x + 2 < pos[k]
  {
    hide AddedRow, RowCount;
    if k > 0 {
      AddedRowsHas(size, pos, k - 1);
      AddedRowHas(size, pos, k - 1, |pos|);
      assert AddedRows(size, pos, k - 1) !! AddedRow(size, pos, k - 1, |pos|);
    }
  }

  /*---- The closed form ----*/

  lemma {:induction false} RowCountIs(i: nat, m: nat, n: nat)
    requires i < n && m <= n && n >= 2
    ensures i == 0 ==> RowCount(i, m, n) == if m == 0 then 0 else if m < n then 20 * (m - 1) else 20 * (n - 2)
    ensures 0 < i < n - 1 ==> RowCount(i, m, n) == if m == 0 then 0 else 25 * m - 5
    ensures i == n - 1 ==> RowCount(i, m, n) == if m == 0 then 0 else 25 * (m - 1)
  {
    if m > 0 {
      RowCountIs(i, m - 1, n);
    }
  }

  lemma {:induction false} RowsCountIs(k: nat, n: nat)
    requires n >= 2 && k <= n
    ensures k == 0 ==> RowsCount(k, n) == 0
    ensures 0 < k < n ==> RowsCount(k, n) == 20 * (n - 2) + (k - 1) * (25 * n - 5)
    ensures k == n ==> RowsCount(k, n) == (25 * n - 10) * n - 55
  {
    if k > 0 {
      RowsCountIs(k - 1, n);
      RowCountIs(k - 1, n, n);
    }
  }

  /*---- All function modules ----*/

  lemma {:induction false} InAddedRow(size: nat, pos: seq<int>, i: nat, m: nat, c: Cell)
    requires ValidSize(size) && i < |pos| && m <= |pos|
    ensures c in AddedRow(size, pos, i, m) <==> exists j: nat :: j < m && c in Added(size, pos, i, j)
  {
    hide Added;
    if m > 0 {
      InAddedRow(size, pos, i, m - 1, c);
    }
  }

  lemma {:induction false} InAddedRows(size: nat, pos: seq<int>, k: nat, c: Cell)
    requires ValidSize(size) && k <= |pos|
    ensures c in AddedRows(size, pos, k) <==>
            exists i: nat, j: nat :: i < k && j < |pos| && c in Added(size, pos, i, j)
  {
    hide Added, AddedRow;
    if k > 0 {
      InAddedRows(size, pos, k - 1, c);
      InAddedRow(size, pos, k - 1, |pos|, c);
    }
  }

  ghost function MarkedSet(size: nat, pos: seq<int>): set<Cell>
    requires ValidSize(size)
  {
    BaseSet(size) + AddedRows(size, pos, |pos|)
  }

  lemma MarkedSetIs(size: nat, pos: seq<int>, c: Cell)
    requires ValidSize(size) && Inside(c, size)
    ensures c in MarkedSet(size, pos) <==> IsFunctionModule(size, pos, c)
  {
    hide InBase, BaseSet, AddedRows, Rect;
    BaseSetIs(size, c);
    InAddedRows(size, pos, |pos|, c);
    if InAlignment(pos, c) && c !in BaseSet(size) {
      var i, j :| 0 <= i < |pos| && 0 <= j < |pos| && !Corner(i, j, |pos|) && Dist(c, Cell(pos[i], pos[j])) <= 2;
      assert c in Added(size, pos, i, j);
    }
  }

  /** The number of cells that are not function modules. */
  lemma MarkedSetCount(size: nat, pos: seq<int>)
    requires ValidSize(size) && GoodPositions(pos, size)
    ensures |MarkedSet(size, pos)| == 225 + 2 * (size - 17) + (if size < 45 then 0 else 36)
                                      + (if pos == [] then 0 else (25 * |pos| - 10) * |pos| - 55)
    ensures MarkedSet(size, pos) <= Rect(0, 0, size, size)
  {
    hide BaseSet, AddedRows, Added, Rect, InBase;
    BaseSetCount(size);
    AddedRowsHas(size, pos, |pos|);
    if |pos| >= 2 {
      RowsCountIs(|pos|, |pos|);
    }
    forall c | c in AddedRows(size, pos, |pos|)
      ensures c !in BaseSet(size) && Inside(c, size)
    {
      InAddedRows(size, pos, |pos|, c);
      var i: nat, j: nat :| i < |pos| && j < |pos| && c in Added(size, pos, i, j);
      AddedInside(size, pos, i, j, c);
    }
    BaseInside(size);
    assert BaseSet(size) !! AddedRows(size, pos, |pos|);
  }

  lemma AddedInside(size: nat, pos: seq<int>, i: nat, j: nat, c: Cell)
    requires ValidSize(size) && GoodPositions(pos, size) && i < |pos| && j < |pos| && c in Added(size, pos, i, j)
    ensures c !in BaseSet(size) && Inside(c, size)
  {
    hide BaseSet, Rect;
    AddedHas(size, pos, i, j);
    PatternOverlap(size, pos, i, j, c);
  }

  lemma BaseInside(size: nat)
    requires ValidSize(size)
    ensures forall c :: c in BaseSet(size) ==> Inside(c, size)
  {
    hide Rect;
  }

  /*---- The free cells of the scan ----*/

  ghost function ScanFree(f: Grid, size: nat, t: nat): set<Cell>
    requires Square(f, size) && ValidSize(size) && t <= ScanLength(size)
  {
    if t == 0 then {}
    else
      ScanVisits(size, t - 1);
      var c := CellAt(size, t - 1);
      ScanFree(f, size, t - 1) + (if At(f, size, c) then {} else {c})
  }

  lemma {:induction false} ScanFreeHas(f: Grid, size: nat, t: nat)
    requires Square(f, size) && ValidSize(size) && t <= ScanLength(size)
    ensures |ScanFree(f, size, t)| == FreeCount(f, size, t)
    ensures forall c :: c in ScanFree(f, size, t) <==>
              Inside(c, size) && c.x != 6 && IndexOf(size, c) < t && !At(f, size, c)
  {
    hide CellAt, IndexOf, ScanLength;
    if t == 0 {
      forall c | Inside(c, size) && c.x != 6
        ensures IndexOf(size, c) >= 0
      {
        ScanCovers(size, c);
      }
    } else {
      ScanFreeHas(f, size, t - 1);
      ScanVisits(size, t - 1);
      forall c | Inside(c, size) && c.x != 6 && IndexOf(size, c) == t - 1
        ensures c == CellAt(size, t - 1)
      {
        ScanCovers(size, c);
      }
    }
  }

  /** The grid marks exactly the function modules. */
  ghost predicate MarksFunctions(f: Grid, size: nat, pos: seq<int>) {
    Square(f, size) && forall c :: Inside(c, size) ==> (At(f, size, c) <==> IsFunctionModule(size, pos, c))
  }

  /** The scan meets exactly as many free cells as the closed form says. */
  lemma FreeCountIs(f: Grid, size: nat, pos: seq<int>)
    requires ValidSize(size) && GoodPositions(pos, size) && MarksFunctions(f, size, pos)
    ensures FreeCount(f, size, ScanLength(size))
            == size * size - 225 - 2 * (size - 17) - (if size < 45 then 0 else 36)
               - (if pos == [] then 0 else (25 * |pos| - 10) * |pos| - 55)
  {
    hide MarkedSet, Rect, ScanFree, IsFunctionModule;
    var all, marked, free := Rect(0, 0, size, size), MarkedSet(size, pos), ScanFree(f, size, ScanLength(size));
    MarkedSetCount(size, pos);
    ScanFreeHas(f, size, ScanLength(size));
    forall c | Inside(c, size)
      ensures c in free <==> c !in marked
    {
      MarkedSetIs(size, pos, c);
      if c.x == 6 {
        TimingIsFunction(size, pos, c);
      } else {
        ScanCovers(size, c);
      }
    }
    assert free == all - marked;
  }

  lemma TimingIsFunction(size: nat, pos: seq<int>, c: Cell)
    requires InTiming(c)
    ensures IsFunctionModule(size, pos, c)
  {
  }
}
