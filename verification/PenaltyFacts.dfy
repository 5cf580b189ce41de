/** What the penalty score says about some grids: finished symbols, and an all white grid. */
module PenaltyFacts {
  import opened Arithmetic
  import opened Segments
  import opened Zigzag
  import opened FunctionPatterns
  import opened Alignment
  import opened FunctionReader
  import opened Penalty
  import opened Scores

  lemma ExtendGrows(a: seq<Run>, x: bool, m: nat)
    requires 1 <= m <= |a|
    ensures var b := Extend(a, x);
            |a| <= |b| && b[..m - 1] == a[..m - 1] && b[m - 1].black == a[m - 1].black && b[m - 1].len >= a[m - 1].len
  {
  }

  lemma SomeRun(s: seq<bool>)
    requires s != []
    ensures RunsOf(s) != []
  {
  }

  /** More modules only add to the last run or come after it. */
  lemma {:induction false} RunsGrow(s: seq<bool>, t: seq<bool>)
    requires s != []
    ensures var a, b := RunsOf(s), RunsOf(s + t);
            && 0 < |a| <= |b| && b[..|a| - 1] == a[..|a| - 1]
            && b[|a| - 1].black == a[|a| - 1].black && b[|a| - 1].len >= a[|a| - 1].len
    decreases |t|
  {
    hide RunsOf, Extend;
    SomeRun(s);
    if t == [] {
      assert s + t == s;
    } else {
      var t', x := t[..|t| - 1], t[|t| - 1];
      RunsGrow(s, t');
      assert s + t == (s + t') + [x];
      RunsAppend(s + t', x);
      ExtendGrows(RunsOf(s + t'), x, |RunsOf(s)|);
    }
  }

  lemma {:induction false} PatternsPrefix(r: seq<Run>, m: nat)
    requires m <= |r|
    ensures Patterns(r[..m]) <= Patterns(r)
  {
    if m == |r| {
      assert r[..m] == r;
    } else {
      PatternsPrefix(r[..|r| - 1], m);
      assert r[..|r| - 1][..m] == r[..m];
    }
  }

  /** A line through the centre of a finder pattern with modules of k units: 1 : 1 : 3 : 1 : 1. */
  function FinderLine(k: nat): (s: seq<bool>)
    ensures |s| == 7 * k
  {
    Repeat(true, k) + Repeat(false, k) + Repeat(true, 3 * k) + Repeat(false, k) + Repeat(true, k)
  }

  function FinderRuns(k: nat): (r: seq<Run>)
    ensures |r| == 5
  {
    [Run(true, k), Run(false, k), Run(true, 3 * k), Run(false, k), Run(true, k)]
  }

  lemma NextRun(s: seq<bool>, r: seq<Run>, b: bool, n: nat)
    requires n >= 1 && r != [] && RunsOf(s) == r && r[|r| - 1].black != b
    ensures RunsOf(s + Repeat(b, n)) == r + [Run(b, n)]
  {
    hide RunsOf;
    AppendRun(s, b, n);
  }

  lemma TwoRuns(s: seq<bool>, r: seq<Run>, m: nat, n: nat)
    requires m >= 1 && n >= 1 && r != [] && RunsOf(s) == r && !r[|r| - 1].black
    ensures RunsOf((s + Repeat(true, m)) + Repeat(false, n)) == r + [Run(true, m), Run(false, n)]
  {
    hide RunsOf, Repeat;
    NextRun(s, r, true, m);
    NextRun(s + Repeat(true, m), r + [Run(true, m)], false, n);
  }

  lemma JoinFinder(s: seq<bool>, k: nat)
    ensures s + FinderLine(k) ==
            ((((s + Repeat(true, k)) + Repeat(false, k)) + Repeat(true, 3 * k)) + Repeat(false, k)) + Repeat(true, k)
  {
  }

  /** After white modules, a finder line and then white again. */
  lemma RunsAroundFinder(s: seq<bool>, k: nat, n: nat)
    requires k >= 1 && n >= 1 && s != [] && !s[|s| - 1]
    ensures var r := RunsOf(s);
            && r != [] && !r[|r| - 1].black
            && RunsOf(s + FinderLine(k) + Repeat(false, n)) == r + FinderRuns(k) + [Run(false, n)]
  {
    LastRun(s);
    hide RunsOf, Repeat, FinderLine;
    JoinFinder(s, k);
    var r := RunsOf(s);
    var s2, r2 := (s + Repeat(true, k)) + Repeat(false, k), r + [Run(true, k), Run(false, k)];
    TwoRuns(s, r, k, k);
    var s4, r4 := (s2 + Repeat(true, 3 * k)) + Repeat(false, k), r2 + [Run(true, 3 * k), Run(false, k)];
    TwoRuns(s2, r2, 3 * k, k);
    TwoRuns(s4, r4, k, n);
    assert r4 + [Run(true, k), Run(false, n)] == r + FinderRuns(k) + [Run(false, n)];
  }

  lemma LastRun(s: seq<bool>)
    requires s != []
    ensures RunsOf(s) != [] && RunsOf(s)[|RunsOf(s)| - 1].black == s[|s| - 1]
  {
  }

  lemma FinderWindow(w: seq<Run>, k: nat)
    requires k >= 1 && |w| == 7 && w[1..6] == FinderRuns(k)
    requires (w[0].len >= 4 * k && w[6].len >= k) || (w[6].len >= 4 * k && w[0].len >= k)
    ensures WindowCount(w) >= 1
  {
    assert forall i :: 1 <= i < 6 ==> w[i] == w[1..6][i - 1];
  }

  lemma PatternsStep(r: seq<Run>)
    requires |r| >= 7 && !r[|r| - 1].black
    ensures Patterns(r) >= WindowCount(r[|r| - 7..])
  {
  }

  /** A line that starts with a finder line and white of one unit has a finder-like pattern, which costs 40. */
  lemma FinderStartCosts(line: seq<bool>, k: nat)
    requires k >= 1 && |line| >= 8 * k && line[..8 * k] == FinderLine(k) + Repeat(false, k)
    ensures LinePenalty(line) >= 40
  {
    hide RunsOf, Patterns, RunPenalty, FinderRuns, FinderLine;
    var n := |line|;
    var white := Repeat(false, n);
    var s, t := white + FinderLine(k) + Repeat(false, k), line[8 * k..] + Repeat(false, n);
    assert Bordered(line) == s + t;
    RunsOfWhite(n);
    RunsAroundFinder(white, k, k);
    RunsGrow(s, t);
    StartWindow(RunsOf(s), RunsOf(s + t), k, n);
  }

  lemma StartWindow(a: seq<Run>, b: seq<Run>, k: nat, n: nat)
    requires k >= 1 && n >= 8 * k && a == [Run(false, n)] + FinderRuns(k) + [Run(false, k)]
    requires |b| >= 7 && b[..6] == a[..6] && !b[6].black && b[6].len >= k
    ensures Patterns(b) >= 1
  {
    hide Patterns;
    var w := b[..7];
    assert forall i :: 0 <= i < 6 ==> w[i] == b[..6][i] == a[i];
    assert w[1..6] == FinderRuns(k);
    FinderWindow(w, k);
    PatternsStep(w);
    assert w[0..] == w;
    PatternsPrefix(b, 7);
  }

  /** So has a line that ends with white of one unit and a finder line. */
  lemma FinderEndCosts(line: seq<bool>, k: nat)
    requires k >= 1 && |line| >= 8 * k && line[|line| - 8 * k..] == Repeat(false, k) + FinderLine(k)
    ensures LinePenalty(line) >= 40
  {
    hide RunsOf, Patterns, RunPenalty, FinderRuns, FinderLine;
    var n := |line|;
    var front := Repeat(false, n) + line[..n - 8 * k];
    var s := front + Repeat(false, k);
    assert Bordered(line) == s + FinderLine(k) + Repeat(false, n);
    RunsAroundFinder(s, k, n);
    AppendRun(front, false, k);
    EndWindow(RunsOf(s), RunsOf(Bordered(line)), k, n);
  }

  lemma EndWindow(a: seq<Run>, b: seq<Run>, k: nat, n: nat)
    requires k >= 1 && n >= 8 * k && a != [] && a[|a| - 1].len >= k && b == a + FinderRuns(k) + [Run(false, n)]
    ensures Patterns(b) >= 1
  {
    hide Patterns;
    var w := b[|b| - 7..];
    assert w[1..6] == FinderRuns(k);
    FinderWindow(w, k);
    PatternsStep(b);
  }

  const FINDER_LINE := [true, false, true, true, true, false, true, false]

  lemma FinderLineCosts(line: seq<bool>)
    requires |line| >= 8 && line[..8] == FINDER_LINE
    ensures LinePenalty(line) >= 40
  {
    hide LinePenalty;
    assert FINDER_LINE == FinderLine(1) + Repeat(false, 1);
    FinderStartCosts(line, 1);
  }

  lemma {:induction false} RowsAtLeast(g: Grid, size: nat, k: nat, i: nat, j: nat)
    requires Square(g, size) && i < j < k <= size
    ensures RowsPenalty(g, size, k) >= LinePenalty(g[i]) + LinePenalty(g[j])
    ensures ColumnsPenalty(g, size, k) >= LinePenalty(Column(g, size, i)) + LinePenalty(Column(g, size, j))
  {
    hide LinePenalty, Column;
    if k - 1 > j {
      RowsAtLeast(g, size, k - 1, i, j);
    } else {
      RowAtLeast(g, size, k - 1, i);
    }
  }

  lemma {:induction false} RowAtLeast(g: Grid, size: nat, k: nat, i: nat)
    requires Square(g, size) && i < k <= size
    ensures RowsPenalty(g, size, k) >= LinePenalty(g[i])
    ensures ColumnsPenalty(g, size, k) >= LinePenalty(Column(g, size, i))
  {
    hide LinePenalty, Column;
    if k - 1 > i {
      RowAtLeast(g, size, k - 1, i);
    }
  }

  lemma FinderLines(g: Grid, size: nat, x: nat, y: nat)
    requires Square(g, size) && ShowsFinder(g, size, x, y) && x + 7 <= size && y + 7 <= size && size >= 8
    ensures x == 0 ==> g[y + 3][..8] == FINDER_LINE
    ensures y == 0 ==> Column(g, size, x + 3)[..8] == FINDER_LINE
  {
    forall k | 0 <= k < 7
      ensures At(g, size, Cell(x + k, y + 3)) == FINDER_LINE[k] && At(g, size, Cell(x + 3, y + k)) == FINDER_LINE[k]
    {
      FinderCross(k);
      assert ShowsPixel(g, size, FINDER[3][k], x + k, y + 3) && ShowsPixel(g, size, FINDER[k][3], x + 3, y + k);
    }
    var centre := Cell(x + 3, y + 3);
    if x == 0 {
      assert Inside(Cell(7, y + 3), size) && Dist(Cell(7, y + 3), centre) == 4;
      assert !At(g, size, Cell(7, y + 3));
      forall k | 0 <= k < 8
        ensures g[y + 3][k] == FINDER_LINE[k]
      {
        assert k < 7 ==> At(g, size, Cell(x + k, y + 3)) == FINDER_LINE[k];
      }
    }
    if y == 0 {
      assert Inside(Cell(x + 3, 7), size) && Dist(Cell(x + 3, 7), centre) == 4;
      assert !At(g, size, Cell(x + 3, 7));
      forall k | 0 <= k < 8
        ensures g[k][x + 3] == FINDER_LINE[k]
      {
        assert k < 7 ==> At(g, size, Cell(x + 3, y + k)) == FINDER_LINE[k];
      }
    }
  }

  lemma FinderCross(k: nat)
    requires k < 7
    ensures |FINDER[3]| == |FINDER[k]| == 7 && (FINDER[3][k] == '#') == FINDER_LINE[k] == (FINDER[k][3] == '#')
  {
  }

  /** No mask can hide the finder patterns: every finished symbol costs at least four finder-like patterns. */
  lemma SymbolScore(g: Grid, ver: int)
    requires Version(ver) && Square(g, SizeOf(ver)) && ShowsPatterns(g, ver)
    ensures PenaltyScore(g, SizeOf(ver)) >= 160
  {
    hide LinePenalty, Column, RowsPenalty, ColumnsPenalty, BlocksBefore, BlackCount, Imbalance, ShowsFinder,
         ShowsTiming, ShowsAlignments, Positions;
    var size := SizeOf(ver);
    FinderLines(g, size, 0, 0);
    FinderLines(g, size, size - 7, 0);
    FinderLines(g, size, 0, size - 7);
    FinderLineCosts(g[3]);
    FinderLineCosts(g[size - 4]);
    FinderLineCosts(Column(g, size, 3));
    FinderLineCosts(Column(g, size, size - 4));
    RowsAtLeast(g, size, size, 3, size - 4);
    ImbalancePositive(g, size);
  }

  lemma ImbalancePositive(g: Grid, size: nat)
    requires Square(g, size) && ValidSize(size) && size <= 177
    ensures size * size > 0 && Imbalance(BlackCount(g, size), size * size) >= 0
  {
    hide Imbalance, BlackCount;
    OddSize(size);
    hide ValidSize;
    SetsBound(g, size);
    OddSquare(size);
    var total := size * size;
    ImbalanceRange(BlackCount(g, size), total);
  }

  /*---- All white ----*/

  function White(size: nat): (g: Grid)
    ensures Square(g, size)
  {
    seq(size, _ => Repeat(false, size))
  }

  lemma OneRun(r: Run)
    ensures RunPenalty([r]) == RunCost(r.len) && Patterns([r]) == 0
  {
    assert [r][..0] == [];
  }

  lemma WhiteLine(n: nat)
    requires n >= 5
    ensures LinePenalty(Repeat(false, n)) == n - 2
  {
    hide RunsOf, RunPenalty, Patterns;
    RunsOfWhite(n);
    assert Bordered(Repeat(false, n)) == Repeat(false, 3 * n);
    RunsOfWhite(3 * n);
    OneRun(Run(false, n));
    OneRun(Run(false, 3 * n));
  }

  lemma {:induction false} WhiteLines(size: nat, k: nat)
    requires k <= size && size >= 5
    ensures RowsPenalty(White(size), size, k) == ColumnsPenalty(White(size), size, k) == k * (size - 2)
  {
    hide LinePenalty;
    if k > 0 {
      WhiteLines(size, k - 1);
      WhiteLine(size);
      assert Column(White(size), size, k - 1) == Repeat(false, size);
      assert k * (size - 2) == (k - 1) * (size - 2) + (size - 2);
    }
  }

  lemma WhiteCounts(size: nat)
    requires size >= 5
    ensures |BlocksBefore(White(size), size, 0, size - 1)| == (size - 1) * (size - 1)
    ensures BlackCount(White(size), size) == 0
  {
    hide Rect;
    assert BlocksBefore(White(size), size, 0, size - 1) == Rect(0, 0, size - 1, size - 1);
    assert BlackBefore(White(size), size, 0, size) == {};
  }

  lemma WhiteImbalance(total: nat)
    requires total >= 1
    ensures Imbalance(0, total) == 9
  {
    assert Abs(0 * 20 - total * 10) == 10 * total;
    assert 11 * total - 1 == 10 * total + (total - 1);
    DivMod(10, total - 1, total);
  }

  /** An all white grid costs its lines less two, three for every block and nine steps of imbalance. */
  lemma WhiteScore(size: nat)
    requires size >= 5
    ensures PenaltyScore(White(size), size) == 2 * (size * (size - 2)) + 3 * ((size - 1) * (size - 1)) + 90
  {
    hide RowsPenalty, ColumnsPenalty, BlocksBefore, BlackCount, Imbalance, White;
    WhiteLines(size, size);
    WhiteCounts(size);
    assert size * size >= 1;
    WhiteImbalance(size * size);
  }
}
