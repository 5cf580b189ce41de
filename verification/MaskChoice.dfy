/** Trial masks, applied and undone in place, and the choice of the best one. */
module MaskChoice {
  import opened Bitwise
  import opened Sizes
  import opened Zigzag
  import opened FunctionPatterns
  import opened InfoWords
  import opened Ink
  import opened Masking
  import opened Scores
  import opened QrSymbol

  /** The least value that LONG_MAX may have in C++. */
  const LONG_MAX: nat := 0x7FFF_FFFF

  /** The grid with both copies of the format word (and the dark module) drawn on it. */
  function Repaint(g: Grid, size: nat, word: nat): (h: Grid)
    requires Square(g, size)
    ensures Square(h, size)
    ensures forall c :: Inside(c, size) ==>
              At(h, size, c) == match FormatInk(size, word, c) case Some(black) => black case None => At(g, size, c)
  {
    seq(size, y requires 0 <= y < size =>
      seq(size, x requires 0 <= x < size =>
        match FormatInk(size, word, Cell(x, y)) case Some(black) => black case None => g[y][x]))
  }

  /** The finished grid for mask m: masked, with the format word that announces the mask. */
  function Candidate(g: Grid, f: Grid, size: nat, ecl: Ecc, m: nat): (h: Grid)
    requires Square(g, size) && Square(f, size) && m < 8
    ensures Square(h, size)
  {
    Repaint(Masked(g, f, size, m), size, FormatWord(ecl, m))
  }

  /** The grids agree on all modules but those of the format word. */
  ghost predicate SameButFormat(g: Grid, h: Grid, size: nat) {
    && Square(g, size) && Square(h, size)
    && forall c :: Inside(c, size) && FormatIndex(size, c) < 0 ==> At(g, size, c) == At(h, size, c)
  }

  /** The format modules are marked as function modules. */
  ghost predicate MarksFormat(f: Grid, size: nat) {
    Square(f, size) && forall c :: Inside(c, size) && FormatIndex(size, c) >= 0 ==> At(f, size, c)
  }

  /** drawFormatBits, once the function modules are marked, only repaints. */
  lemma PaintedIsRepaint(f0: Grid, g0: Grid, f1: Grid, g1: Grid, size: nat, word: nat)
    requires MarksFormat(f0, size) && Painted(f0, g0, f1, g1, size, c => FormatInk(size, word, c))
    ensures f1 == f0 && g1 == Repaint(g0, size, word)
  {
    hide FormatIndex, GetBit, Repaint;
    GridsEqual(f0, f1, size);
    GridsEqual(g1, Repaint(g0, size, word), size);
  }

  /** A candidate does not depend on the format word that was on the grid before. */
  lemma CandidateSame(g: Grid, h: Grid, f: Grid, size: nat, ecl: Ecc, m: nat)
    requires SameButFormat(g, h, size) && Square(f, size) && m < 8
    ensures Candidate(g, f, size, ecl, m) == Candidate(h, f, size, ecl, m)
  {
    hide FormatIndex, GetBit, Repaint, Masked, Invert, FormatWord;
    GridsEqual(Candidate(g, f, size, ecl, m), Candidate(h, f, size, ecl, m), size);
  }

  /** Unmasking a candidate gives back the codeword modules. */
  lemma CandidateUnmasked(g: Grid, f: Grid, size: nat, ecl: Ecc, m: nat)
    requires Square(g, size) && MarksFormat(f, size) && m < 8
    ensures SameButFormat(Masked(Candidate(g, f, size, ecl, m), f, size, m), g, size)
  {
    hide FormatIndex, GetBit, Repaint, Masked, Invert, FormatWord;
  }

  /** The mask with the least penalty, and the lowest index among equals. */
  ghost predicate BestMask(g: Grid, f: Grid, size: nat, ecl: Ecc, m: nat)
    requires Square(g, size) && Square(f, size) && size >= 1
  {
    && m < 8
    && forall i :: 0 <= i < 8 ==>
         var chosen := PenaltyScore(Candidate(g, f, size, ecl, m), size);
         var other := PenaltyScore(Candidate(g, f, size, ecl, i), size);
         if i < m then chosen < other else chosen <= other
  }

  /** One trial: the candidate is scored, and then the mask is taken off again. */
  method TryMask(q: QrCode, i: nat) returns (penalty: int)
    requires q.Valid() && MarksFormat(q.isFunction, q.size) && i < 8
    modifies q`modules, q`isFunction
    ensures q.Valid() && q.isFunction == old(q.isFunction) && q.mask == old(q.mask)
    ensures SameButFormat(q.modules, old(q.modules), q.size)
    ensures penalty == PenaltyScore(Candidate(old(q.modules), q.isFunction, q.size, q.ecl, i), q.size)
    ensures 0 <= penalty < LONG_MAX
  {
    hide Repaint, Masked, FormatWord, PenaltyScore, FormatInk, MarksFormat;
    ghost var g, f := q.modules, q.isFunction;
    var ok := q.ApplyMask(i);
    ghost var masked := q.modules;
    q.DrawFormatBits(i);
    PaintedIsRepaint(f, masked, q.isFunction, q.modules, q.size, FormatWord(q.ecl, i));
    penalty := GetPenaltyScore(q.modules, q.size);
    ScoreBound(q.modules, q.size);
    ok := q.ApplyMask(i);
    CandidateUnmasked(g, f, q.size, q.ecl, i);
  }

  /** The masking part of the QrCode constructor. */
  method DoMasking(q: QrCode, msk: int)
    requires q.Valid() && MarksFormat(q.isFunction, q.size) && -1 <= msk <= 7
    modifies q`modules, q`isFunction, q`mask
    ensures q.Valid() && q.isFunction == old(q.isFunction)
    ensures 0 <= q.mask <= 7
    ensures msk >= 0 ==> q.mask == msk
    ensures q.modules == Candidate(old(q.modules), q.isFunction, q.size, q.ecl, q.mask)
    ensures msk == -1 ==> BestMask(old(q.modules), q.isFunction, q.size, q.ecl, q.mask)
  {
    hide Repaint, Masked, FormatWord, PenaltyScore, FormatInk, MarksFormat, SameButFormat, Candidate;
    ghost var g, f := q.modules, q.isFunction;
    var chosen := msk;
    SameAsItself(g, q.size);
    if msk == -1 {
      var minPenalty := LONG_MAX;
      for i := 0 to 8
        invariant q.Valid() && q.isFunction == f
        invariant SameButFormat(q.modules, g, q.size)
        invariant if i == 0 then chosen == -1 && minPenalty == LONG_MAX
                  else 0 <= chosen < i && minPenalty == PenaltyScore(Candidate(g, f, q.size, q.ecl, chosen), q.size)
        invariant forall k :: 0 <= k < i ==>
                    var other := PenaltyScore(Candidate(g, f, q.size, q.ecl, k), q.size);
                    if k < chosen then minPenalty < other else minPenalty <= other
      {
        ghost var h := q.modules;
        CandidateSame(h, g, f, q.size, q.ecl, i);
        var penalty := TryMask(q, i);
        SameThrough(q.modules, h, g, q.size);
        if penalty < minPenalty {
          chosen := i;
          minPenalty := penalty;
        }
      }
    }
    assert 0 <= chosen <= 7;
    q.mask := chosen;
    CandidateSame(q.modules, g, f, q.size, q.ecl, chosen);
    ghost var h := q.modules;
    var ok := q.ApplyMask(chosen);
    ghost var masked := q.modules;
    q.DrawFormatBits(chosen);
    PaintedIsRepaint(f, masked, q.isFunction, q.modules, q.size, FormatWord(q.ecl, chosen));
    CandidateIs(h, f, q.size, q.ecl, chosen);
  }

  lemma CandidateIs(g: Grid, f: Grid, size: nat, ecl: Ecc, m: nat)
    requires Square(g, size) && Square(f, size) && m < 8
    ensures Candidate(g, f, size, ecl, m) == Repaint(Masked(g, f, size, m), size, FormatWord(ecl, m))
  {
  }

  lemma SameAsItself(g: Grid, size: nat)
    requires Square(g, size)
    ensures SameButFormat(g, g, size)
  {
  }

  lemma SameThrough(g: Grid, h: Grid, k: Grid, size: nat)
    requires SameButFormat(g, h, size) && SameButFormat(h, k, size)
    ensures SameButFormat(g, k, size)
  {
  }
}
