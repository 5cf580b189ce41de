/** The penalty score of a whole grid, by which the best mask is chosen. */
module Scores {
  import opened Arithmetic
  import opened Zigzag
  import opened FunctionPatterns
  import opened Penalty

  const PENALTY_N2: nat := 3
  const PENALTY_N4: nat := 10

  function Column(g: Grid, size: nat, x: nat): (s: seq<bool>)
    requires Square(g, size) && x < size
    ensures |s| == size
  {
    seq(size, y requires 0 <= y < size => g[y][x])
  }

  /** The penalties of the first k rows. */
  function RowsPenalty(g: Grid, size: nat, k: nat): nat
    requires Square(g, size) && k <= size
  {
    if k == 0 then 0 else RowsPenalty(g, size, k - 1) + LinePenalty(g[k - 1])
  }

  function ColumnsPenalty(g: Grid, size: nat, k: nat): nat
    requires Square(g, size) && k <= size
  {
    if k == 0 then 0 else ColumnsPenalty(g, size, k - 1) + LinePenalty(Column(g, size, k - 1))
  }

  /** The two by two square at c has one colour. */
  predicate OneColour(g: Grid, size: nat, c: Cell)
    requires Square(g, size) && 0 <= c.x < size - 1 && 0 <= c.y < size - 1
  {
    g[c.y][c.x] == g[c.y][c.x + 1] == g[c.y + 1][c.x] == g[c.y + 1][c.x + 1]
  }

  /** c comes before column x of row y, reading row by row. */
  predicate Before(c: Cell, x: int, y: int) {
    c.y < y || (c.y == y && c.x < x)
  }

  ghost function BlocksBefore(g: Grid, size: nat, x: int, y: int): set<Cell>
    requires Square(g, size) && size >= 1
  {
    set c | c in Rect(0, 0, size - 1, size - 1) && OneColour(g, size, c) && Before(c, x, y)
  }

  ghost function BlackBefore(g: Grid, size: nat, x: int, y: int): set<Cell>
    requires Square(g, size)
  {
    set c | c in Rect(0, 0, size, size) && At(g, size, c) && Before(c, x, y)
  }

  ghost function BlackCount(g: Grid, size: nat): nat
    requires Square(g, size)
  {
    |BlackBefore(g, size, 0, size)|
  }

  /** How many steps of five percent the share of black lies outside 45% .. 55%. */
  function Imbalance(black: nat, total: nat): int
    requires total > 0
  {
    (Abs(black * 20 - total * 10) + total - 1) / total - 1
  }

  /** The penalty is the least k with (45 - 5 k)% <= black / total <= (55 + 5 k)%. */
  lemma ImbalanceIsLeast(black: nat, total: nat)
    requires black <= total && total % 2 == 1
    ensures var k := Imbalance(black, total);
            && 0 <= k <= 9
            && (45 - 5 * k) * total <= 100 * black <= (55 + 5 * k) * total
            && (k > 0 ==> !((50 - 5 * k) * total <= 100 * black <= (50 + 5 * k) * total))
  {
    var d := Abs(black * 20 - total * 10);
    var k := Imbalance(black, total);
    var x := d + total - 1;
    DivModIs(x, total);
    assert x / total * total == (k + 1) * total;
    var kt := k * total;
    assert (k + 1) * total == kt + total;
    MulMono(k + 1, 0, total);
    MulMono(10, k, total);
    Spread(k, total);
  }

  lemma ImbalanceRange(black: nat, total: nat)
    requires black <= total && total % 2 == 1
    ensures 0 <= Imbalance(black, total) <= 9
  {
    hide Imbalance;
    ImbalanceIsLeast(black, total);
  }

  lemma Spread(k: int, total: nat)
    ensures (45 - 5 * k) * total == 45 * total - 5 * (k * total)
    ensures (55 + 5 * k) * total == 55 * total + 5 * (k * total)
    ensures (50 - 5 * k) * total == 50 * total - 5 * (k * total)
    ensures (50 + 5 * k) * total == 50 * total + 5 * (k * total)
  {
  }

  ghost function PenaltyScore(g: Grid, size: nat): int
    requires Square(g, size) && size >= 1
  {
    RowsPenalty(g, size, size) + ColumnsPenalty(g, size, size)
    + |BlocksBefore(g, size, 0, size - 1)| * PENALTY_N2
    + Imbalance(BlackCount(g, size), size * size) * PENALTY_N4
  }

  /*---- getPenaltyScore ----*/

  lemma NextBefore(d: Cell, x: int, y: int)
    ensures Before(d, x + 1, y) <==> Before(d, x, y) || d == Cell(x, y)
  {
  }

  lemma NextBlock(g: Grid, size: nat, x: nat, y: nat)
    requires Square(g, size) && x < size - 1 && y < size - 1
    ensures |BlocksBefore(g, size, x + 1, y)| ==
            |BlocksBefore(g, size, x, y)| + (if OneColour(g, size, Cell(x, y)) then 1 else 0)
  {
    hide Rect, OneColour;
    var c := Cell(x, y);
    var before, after := BlocksBefore(g, size, x, y), BlocksBefore(g, size, x + 1, y);
    forall d | d in Rect(0, 0, size - 1, size - 1)
      ensures d in after <==> d in before || (d == c && OneColour(g, size, c))
    {
      NextBefore(d, x, y);
    }
    assert c !in before;
    assert after == if OneColour(g, size, c) then before + {c} else before;
  }

  lemma BlockRows(g: Grid, size: nat, y: nat)
    requires Square(g, size) && size >= 1
    ensures BlocksBefore(g, size, 0, 0) == {}
    ensures BlocksBefore(g, size, size - 1, y) == BlocksBefore(g, size, 0, y + 1)
  {
    hide Rect, OneColour;
  }

  method CountBlocks(g: Grid, size: nat) returns (count: nat)
    requires Square(g, size) && size >= 1
    ensures count == |BlocksBefore(g, size, 0, size - 1)|
  {
    hide BlocksBefore;
    count := 0;
    BlockRows(g, size, 0);
    for y := 0 to size - 1
      invariant count == |BlocksBefore(g, size, 0, y)|
    {
      for x := 0 to size - 1
        invariant count == |BlocksBefore(g, size, x, y)|
      {
        NextBlock(g, size, x, y);
        var color := g[y][x];
        if color == g[y][x + 1] && color == g[y + 1][x] && color == g[y + 1][x + 1] {
          count := count + 1;
        }
      }
      BlockRows(g, size, y);
    }
  }

  lemma NextBlack(g: Grid, size: nat, x: nat, y: nat)
    requires Square(g, size) && x < size && y < size
    ensures |BlackBefore(g, size, x + 1, y)| == |BlackBefore(g, size, x, y)| + (if g[y][x] then 1 else 0)
  {
    hide Rect;
    var c := Cell(x, y);
    var before, after := BlackBefore(g, size, x, y), BlackBefore(g, size, x + 1, y);
    if g[y][x] {
      assert after == before + {c};
    } else {
      assert after == before;
    }
  }

  lemma BlackRows(g: Grid, size: nat, y: nat)
    requires Square(g, size)
    ensures BlackBefore(g, size, 0, 0) == {}
    ensures BlackBefore(g, size, size, y) == BlackBefore(g, size, 0, y + 1)
  {
    hide Rect;
  }

  method CountBlack(g: Grid, size: nat) returns (black: nat)
    requires Square(g, size)
    ensures black == BlackCount(g, size)
  {
    hide BlackBefore;
    black := 0;
    BlackRows(g, size, 0);
    for y := 0 to size
      invariant black == |BlackBefore(g, size, 0, y)|
    {
      for x := 0 to size
        invariant black == |BlackBefore(g, size, x, y)|
      {
        NextBlack(g, size, x, y);
        if g[y][x] {
          black := black + 1;
        }
      }
      BlackRows(g, size, y);
    }
  }

  method GetPenaltyScore(g: Grid, size: nat) returns (result: int)
    requires Square(g, size) && size >= 1
    ensures result == PenaltyScore(g, size)
  {
    hide LinePenalty, Rect, BlocksBefore, BlackBefore, Imbalance;
    result := 0;
    for y := 0 to size
      invariant result == RowsPenalty(g, size, y)
    {
      var line := ScanLine(g[y]);
      result := result + line;
    }
    for x := 0 to size
      invariant result == RowsPenalty(g, size, size) + ColumnsPenalty(g, size, x)
    {
      var line := ScanLine(Column(g, size, x));
      result := result + line;
    }
    var blocks := CountBlocks(g, size);
    result := result + blocks * PENALTY_N2;
    var black := CountBlack(g, size);
    result := result + Imbalance(black, size * size) * PENALTY_N4;
  }

  /*---- The score fits a long ----*/

  lemma {:induction false} RunPenaltyBound(r: seq<Run>)
    ensures RunPenalty(r) <= TotalLength(r)
  {
    if r != [] {
      RunPenaltyBound(r[..|r| - 1]);
    }
  }

  lemma {:induction false} PatternsBound(r: seq<Run>)
    requires Alternating(r)
    ensures Patterns(r) <= 2 * |r| && |r| <= TotalLength(r)
  {
    hide WindowCount;
    if r != [] {
      AlternatingPrefix(r);
      PatternsBound(r[..|r| - 1]);
      if |r| >= 7 {
        WindowBound(r[|r| - 7..]);
      }
    }
  }

  lemma WindowBound(w: seq<Run>)
    requires |w| == 7
    ensures WindowCount(w) <= 2
  {
  }

  lemma LinePenaltyBound(line: seq<bool>)
    ensures LinePenalty(line) <= 241 * |line|
  {
    hide RunsOf, Patterns, RunPenalty;
    RunsAreMaximal(line);
    RunPenaltyBound(RunsOf(line));
    RunsAreMaximal(Bordered(line));
    PatternsBound(RunsOf(Bordered(line)));
  }

  lemma {:induction false} LinesBound(g: Grid, size: nat, k: nat)
    requires Square(g, size) && k <= size
    ensures RowsPenalty(g, size, k) <= 241 * (k * size) && ColumnsPenalty(g, size, k) <= 241 * (k * size)
  {
    hide LinePenalty;
    if k > 0 {
      LinesBound(g, size, k - 1);
      LinePenaltyBound(g[k - 1]);
      LinePenaltyBound(Column(g, size, k - 1));
      assert k * size == (k - 1) * size + size;
    }
  }

  lemma SubsetCount(a: set<Cell>, b: set<Cell>)
    requires a <= b
    ensures |a| <= |b|
  {
    assert b == a + (b - a);
  }

  lemma ScoreBound(g: Grid, size: nat)
    requires Square(g, size) && ValidSize(size) && size <= 177
    ensures 0 <= PenaltyScore(g, size) < 0x7FFF_FFFF
  {
    hide RowsPenalty, ColumnsPenalty, Imbalance, Rect, BlackBefore, BlocksBefore, BlackCount;
    OddSize(size);
    hide ValidSize;
    SetsBound(g, size);
    LinesBound(g, size, size);
    OddSquare(size);
    SquareBound(size);
    var total := size * size;
    ImbalanceRange(BlackCount(g, size), total);
  }

  lemma SetsBound(g: Grid, size: nat)
    requires Square(g, size) && 1 <= size <= 177
    ensures |BlocksBefore(g, size, 0, size - 1)| <= 31329 && BlackCount(g, size) <= size * size
  {
    hide Rect, OneColour;
    SubsetCount(BlocksBefore(g, size, 0, size - 1), Rect(0, 0, size - 1, size - 1));
    SubsetCount(BlackBefore(g, size, 0, size), Rect(0, 0, size, size));
    SquareBound(size - 1);
  }

  lemma SquareBound(n: nat)
    requires n <= 177
    ensures n * n <= 31329
  {
    MulMono(n, 177, n);
    MulMono(n, 177, 177);
  }

  lemma OddSize(size: nat)
    requires ValidSize(size)
    ensures size % 2 == 1
  {
    HalfSize(size);
  }

  lemma OddSquare(n: nat)
    requires n % 2 == 1
    ensures (n * n) % 2 == 1
  {
    var h := n / 2;
    assert n == 2 * h + 1;
    assert n * n == 2 * (2 * h * h + 2 * h) + 1;
  }
}
