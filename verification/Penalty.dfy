/**
 The penalty of one row or column: long runs of one colour and patterns that look like
 a finder pattern, found in one pass by a scanner that keeps the last seven run lengths.
 */
module Penalty {

  const PENALTY_N1: nat := 3
  const PENALTY_N3: nat := 40

  /*---- What the penalty means ----*/

  datatype Run = Run(black: bool, len: nat)

  /** The maximal runs of a line. */
  function RunsOf(s: seq<bool>): seq<Run> {
    if s == [] then [] else Extend(RunsOf(s[..|s| - 1]), s[|s| - 1])
  }

  function Extend(r: seq<Run>, b: bool): seq<Run> {
    if r != [] && r[|r| - 1].black == b then r[..|r| - 1] + [Run(b, r[|r| - 1].len + 1)] else r + [Run(b, 1)]
  }

  function Repeat(b: bool, n: nat): (s: seq<bool>)
    ensures |s| == n
  {
    seq(n, _ => b)
  }

  function Expand(r: seq<Run>): seq<bool> {
    if r == [] then [] else Expand(r[..|r| - 1]) + Repeat(r[|r| - 1].black, r[|r| - 1].len)
  }

  /** Runs that cannot be joined: none is empty and neighbours differ in colour. */
  predicate Alternating(r: seq<Run>) {
    && (forall i :: 0 <= i < |r| ==> r[i].len > 0)
    && (forall i :: 0 < i < |r| ==> r[i - 1].black != r[i].black)
  }

  function TotalLength(r: seq<Run>): nat {
    if r == [] then 0 else TotalLength(r[..|r| - 1]) + r[|r| - 1].len
  }

  /** RunsOf is the decomposition of a line into maximal runs. */
  lemma {:induction false} RunsAreMaximal(s: seq<bool>)
    ensures Alternating(RunsOf(s)) && Expand(RunsOf(s)) == s && TotalLength(RunsOf(s)) == |s|
  {
    if s != [] {
      var t, b := s[..|s| - 1], s[|s| - 1];
      RunsAreMaximal(t);
      ExtendAppends(RunsOf(t), b);
      assert s == t + [b];
    }
  }

  lemma ExtendAppends(r: seq<Run>, b: bool)
    requires Alternating(r)
    ensures Alternating(Extend(r, b)) && Expand(Extend(r, b)) == Expand(r) + [b]
    ensures TotalLength(Extend(r, b)) == TotalLength(r) + 1
  {
    var e := Extend(r, b);
    var n := |e| - 1;
    if r != [] && r[|r| - 1].black == b {
      assert e[..n] == r[..n];
      assert Repeat(b, r[n].len + 1) == Repeat(b, r[n].len) + [b];
    } else {
      assert e[..n] == r;
      assert Repeat(b, 1) == [b];
    }
  }

  function RunCost(len: nat): nat {
    if len >= 5 then len - 2 else 0
  }

  /** A run of five or more costs its length less two. */
  function RunPenalty(r: seq<Run>): nat {
    if r == [] then 0 else RunPenalty(r[..|r| - 1]) + RunCost(r[|r| - 1].len)
  }

  /**
   Seven runs, white first: 1 : 1 : 3 : 1 : 1 in the middle, with white of at least four
   units on one side and of at least one unit on the other.  Both sides may count.
   */
  function WindowCount(w: seq<Run>): nat
    requires |w| == 7
  {
    var n := w[1].len;
    if n > 0 && w[2].len == n && w[3].len == 3 * n && w[4].len == n && w[5].len == n
    then (if w[6].len >= 4 * n && w[0].len >= n then 1 else 0) + (if w[0].len >= 4 * n && w[6].len >= n then 1 else 0)
    else 0
  }

  /** All finder-like patterns: one window for every white run. */
  function Patterns(r: seq<Run>): nat {
    if |r| == 0 then 0
    else Patterns(r[..|r| - 1]) + (if |r| >= 7 && !r[|r| - 1].black then WindowCount(r[|r| - 7..]) else 0)
  }

  /** The line with a white border of `size` modules on both sides. */
  function Bordered(line: seq<bool>): seq<bool> {
    Repeat(false, |line|) + line + Repeat(false, |line|)
  }

  function LinePenalty(line: seq<bool>): nat {
    RunPenalty(RunsOf(line)) + Patterns(RunsOf(Bordered(line))) * PENALTY_N3
  }

  /*---- The scanner ----*/

  /** The last seven run lengths, latest first, 0 where there are fewer. */
  function History(r: seq<Run>): (h: seq<int>)
    ensures |h| == 7
  {
    seq(7, i requires 0 <= i < 7 => if i < |r| then r[|r| - 1 - i].len else 0)
  }

  /** finderPenaltyAddHistory */
  function AddHistory(len: int, h: seq<int>, size: nat): (h': seq<int>)
    requires |h| == 7
    ensures |h'| == 7
  {
    [if h[0] == 0 then len + size else len] + h[..6]
  }

  /** finderPenaltyCountPatterns */
  function CountPatterns(h: seq<int>): nat
    requires |h| == 7
  {
    var n := h[1];
    var core := n > 0 && h[2] == n && h[3] == n * 3 && h[4] == n && h[5] == n;
    (if core && h[0] >= n * 4 && h[6] >= n then 1 else 0) + (if core && h[6] >= n * 4 && h[0] >= n then 1 else 0)
  }

  lemma HistoryPush(r: seq<Run>, run: Run, size: nat, len: nat)
    requires Alternating(r) && run.len == len + (if r == [] then size else 0)
    ensures AddHistory(len, History(r), size) == History(r + [run])
  {
    assert r != [] ==> History(r)[0] == r[|r| - 1].len;
  }

  lemma HistoryCounts(r: seq<Run>)
    requires r != [] && !r[|r| - 1].black
    ensures Patterns(r) == Patterns(r[..|r| - 1]) + CountPatterns(History(r))
  {
    var h := History(r);
    if |r| >= 7 {
      var w := r[|r| - 7..];
      assert w[6].len == h[0] && w[5].len == h[1] && w[4].len == h[2] && w[3].len == h[3]
             && w[2].len == h[4] && w[1].len == h[5] && w[0].len == h[6];
    } else {
      assert h[6] == 0;
    }
  }

  lemma RunsAppend(s: seq<bool>, b: bool)
    ensures RunsOf(s + [b]) == Extend(RunsOf(s), b)
  {
    assert (s + [b])[..|s|] == s;
  }

  lemma {:induction false} RunsOfWhite(n: nat)
    requires n >= 1
    ensures RunsOf(Repeat(false, n)) == [Run(false, n)]
  {
    assert Repeat(false, n)[..n - 1] == Repeat(false, n - 1);
    if n == 1 {
      assert RunsOf(Repeat(false, 0)) == [];
    } else {
      RunsOfWhite(n - 1);
    }
  }

  lemma RunPenaltyExtend(r: seq<Run>, b: bool)
    ensures RunPenalty(Extend(r, b)) ==
            if r != [] && r[|r| - 1].black == b
            then RunPenalty(r) - RunCost(r[|r| - 1].len) + RunCost(r[|r| - 1].len + 1)
            else RunPenalty(r)
  {
    var e := Extend(r, b);
    if r != [] && r[|r| - 1].black == b {
      assert e[..|e| - 1] == r[..|r| - 1];
    } else {
      assert e[..|e| - 1] == r;
    }
  }

  lemma {:induction false} RunBelowTotal(r: seq<Run>, i: nat)
    requires i < |r|
    ensures r[i].len <= TotalLength(r)
  {
    if i < |r| - 1 {
      RunBelowTotal(r[..|r| - 1], i);
    }
  }

  /** The check of finderPenaltyCountPatterns cannot fail: no run is longer than the bordered line. */
  lemma HistoryRange(r: seq<Run>, size: nat)
    requires TotalLength(r) <= 3 * size
    ensures History(r)[1] <= size * 3
  {
    if |r| >= 2 {
      RunBelowTotal(r, |r| - 2);
    }
  }

  /** The run that is still open after x modules, and those that are complete. */
  ghost predicate Scanning(line: seq<bool>, x: nat, black: bool, len: nat, h: seq<int>, result: nat)
    requires x <= |line|
  {
    var runs := RunsOf(Repeat(false, |line|) + line[..x]);
    var own := RunsOf(line[..x]);
    && runs != []
    && runs[|runs| - 1] == Run(black, len + (if |runs| == 1 then |line| else 0))
    && h == History(runs[..|runs| - 1])
    && (if x == 0 then len == 0 && !black else own != [] && own[|own| - 1] == Run(black, len))
    && result == RunPenalty(own) + Patterns(runs[..|runs| - 1]) * PENALTY_N3
  }

  lemma ScanSame(line: seq<bool>, x: nat, black: bool, len: nat, h: seq<int>, result: nat)
    requires x < |line| && Scanning(line, x, black, len, h, result) && line[x] == black
    ensures Scanning(line, x + 1, black, len + 1, h,
                     result + (if len + 1 == 5 then PENALTY_N1 else if len + 1 > 5 then 1 else 0))
  {
    hide Patterns, History, RunsOf, RunPenalty;
    var q, own := Repeat(false, |line|) + line[..x], RunsOf(line[..x]);
    assert line[..x + 1] == line[..x] + [black];
    assert Repeat(false, |line|) + line[..x + 1] == q + [black];
    RunsAppend(q, black);
    RunsAppend(line[..x], black);
    RunPenaltyExtend(own, black);
    NoRuns();
    var runs := RunsOf(q);
    assert Extend(runs, black)[..|runs| - 1] == runs[..|runs| - 1];
  }

  lemma ScanChange(line: seq<bool>, x: nat, black: bool, len: nat, h: seq<int>, result: nat)
    requires x < |line| && |h| == 7 && Scanning(line, x, black, len, h, result) && line[x] != black
    ensures var h' := AddHistory(len, h, |line|);
            && h'[1] <= |line| * 3
            && Scanning(line, x + 1, !black, 1, h', result + (if black then 0 else CountPatterns(h') * PENALTY_N3))
  {
    hide Patterns, History, AddHistory, CountPatterns, RunsOf, RunPenalty, Alternating, TotalLength, Expand;
    var q, own := Repeat(false, |line|) + line[..x], RunsOf(line[..x]);
    assert line[..x + 1] == line[..x] + [!black];
    assert Repeat(false, |line|) + line[..x + 1] == q + [!black];
    RunsAppend(q, !black);
    RunsAppend(line[..x], !black);
    RunPenaltyExtend(own, !black);
    NoRuns();
    RunsAreMaximal(q);
    var runs := RunsOf(q);
    var done := runs[..|runs| - 1];
    assert runs == done + [runs[|runs| - 1]];
    AlternatingPrefix(runs);
    HistoryPush(done, runs[|runs| - 1], |line|, len);
    HistoryRange(runs, |line|);
    assert Extend(runs, !black)[..|runs|] == runs;
    if black {
      BlackEnds(runs);
    } else {
      HistoryCounts(runs);
    }
  }

  lemma NoRuns()
    ensures RunsOf([]) == []
  {
  }

  lemma AlternatingPrefix(r: seq<Run>)
    requires r != [] && Alternating(r)
    ensures Alternating(r[..|r| - 1])
  {
  }

  lemma BlackEnds(r: seq<Run>)
    requires r != [] && r[|r| - 1].black
    ensures Patterns(r) == Patterns(r[..|r| - 1])
  {
  }

  function Terminated(black: bool, len: nat, h: seq<int>, size: nat): (h': seq<int>)
    requires |h| == 7
    ensures |h'| == 7
  {
    if black then AddHistory(size, AddHistory(len, h, size), size) else AddHistory(len + size, h, size)
  }

  lemma {:induction false} AppendRun(s: seq<bool>, b: bool, n: nat)
    requires n >= 1
    ensures var r := RunsOf(s);
            RunsOf(s + Repeat(b, n)) ==
            if r != [] && r[|r| - 1].black == b then r[..|r| - 1] + [Run(b, r[|r| - 1].len + n)]
            else r + [Run(b, n)]
  {
    hide RunsOf;
    var t := s + Repeat(b, n - 1);
    assert s + Repeat(b, n) == t + [b];
    RunsAppend(t, b);
    if n == 1 {
      assert t == s;
    } else {
      AppendRun(s, b, n - 1);
    }
  }

  /** There is only one decomposition into maximal runs. */
  lemma {:induction false} RunsUnique(r: seq<Run>)
    requires Alternating(r)
    ensures RunsOf(Expand(r)) == r
  {
    if r != [] {
      hide RunsOf;
      var init, last := r[..|r| - 1], r[|r| - 1];
      AlternatingPrefix(r);
      RunsUnique(init);
      AppendRun(Expand(init), last.black, last.len);
      assert r == init + [last];
    }
  }

  lemma ScanEnd(line: seq<bool>, black: bool, len: nat, h: seq<int>, result: nat)
    requires |line| >= 1 && |h| == 7 && Scanning(line, |line|, black, len, h, result)
    ensures var h' := Terminated(black, len, h, |line|);
            && h' == History(RunsOf(Bordered(line))) && h'[1] <= |line| * 3
            && result + CountPatterns(h') * PENALTY_N3 == LinePenalty(line)
  {
    hide Patterns, History, AddHistory, CountPatterns, RunsOf, RunPenalty, Alternating, TotalLength, Expand;
    assert line[..|line|] == line;
    var q := Repeat(false, |line|) + line;
    var runs, all := RunsOf(q), RunsOf(Bordered(line));
    var done, open := runs[..|runs| - 1], runs[|runs| - 1];
    AppendRun(q, false, |line|);
    RunsAreMaximal(q);
    RunsAreMaximal(Bordered(line));
    HistoryRange(all, |line|);
    HistoryCounts(all);
    AlternatingPrefix(runs);
    if black {
      assert runs == done + [open];
      HistoryPush(done, open, |line|, len);
      HistoryPush(runs, Run(false, |line|), |line|, |line|);
      assert all[..|runs|] == runs;
      BlackEnds(runs);
    } else {
      HistoryPush(done, Run(false, open.len + |line|), |line|, len + |line|);
      assert all[..|runs| - 1] == done;
    }
  }

  /** finderPenaltyTerminateAndCount: closes the border of a line whose modules have all been scanned. */
  method TerminateAndCount(black: bool, len: nat, h: seq<int>, size: nat) returns (count: nat, h': seq<int>)
    requires |h| == 7
    ensures |h'| == 7
    ensures forall line: seq<bool>, result: nat ::
              |line| == size >= 1 && Scanning(line, size, black, len, h, result) ==>
                && h' == History(RunsOf(Bordered(line))) && h'[1] <= size * 3
                && result + count * PENALTY_N3 == LinePenalty(line)
  {
    hide Scanning, History, RunsOf, LinePenalty, CountPatterns;
    var length := len;
    h' := h;
    if black {
      h' := AddHistory(length, h', size);
      length := 0;
    }
    length := length + size;
    h' := AddHistory(length, h', size);
    count := CountPatterns(h');
    assert h' == Terminated(black, len, h, size);
    forall line: seq<bool>, result: nat | |line| == size >= 1 && Scanning(line, size, black, len, h, result)
      ensures h' == History(RunsOf(Bordered(line))) && h'[1] <= size * 3
      ensures result + count * PENALTY_N3 == LinePenalty(line)
    {
      ScanEnd(line, black, len, h, result);
    }
  }

  /** One row or column of getPenaltyScore. */
  method ScanLine(line: seq<bool>) returns (result: nat)
    requires |line| >= 1
    ensures result == LinePenalty(line)
  {
    hide LinePenalty, Scanning, AddHistory, CountPatterns;
    result := 0;
    var runColor, runX := false, 0;
    var runHistory: seq<int> := [0, 0, 0, 0, 0, 0, 0];
    ScanStart(line);
    for x := 0 to |line|
      invariant |runHistory| == 7 && 0 <= runX
      invariant Scanning(line, x, runColor, runX, runHistory, result)
    {
      if line[x] == runColor {
        ScanSame(line, x, runColor, runX, runHistory, result);
        runX := runX + 1;
        if runX == 5 {
          result := result + PENALTY_N1;
        } else if runX > 5 {
          result := result + 1;
        }
      } else {
        ScanChange(line, x, runColor, runX, runHistory, result);
        runHistory := AddHistory(runX, runHistory, |line|);
        if !runColor {
          assert runHistory[1] <= |line| * 3;
          result := result + CountPatterns(runHistory) * PENALTY_N3;
        }
        runColor := line[x];
        runX := 1;
      }
    }
    var count, last := TerminateAndCount(runColor, runX, runHistory, |line|);
    assert last[1] <= |line| * 3;
    result := result + count * PENALTY_N3;
  }

  lemma ScanStart(line: seq<bool>)
    requires |line| >= 1
    ensures Scanning(line, 0, false, 0, [0, 0, 0, 0, 0, 0, 0], 0)
  {
    RunsOfWhite(|line|);
    assert Repeat(false, |line|) + line[..0] == Repeat(false, |line|);
    assert [Run(false, |line|)][..0] == [];
    assert History([]) == [0, 0, 0, 0, 0, 0, 0];
  }
}
