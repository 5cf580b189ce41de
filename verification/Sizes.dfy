/**
 Sizes: the tables of error correction parameters and the number of data modules of
 each version.
 */
module Sizes {
  import opened Segments

  datatype Ecc = Low | Medium | Quartile | High

  function Rank(ecl: Ecc): nat {
    match ecl case Low => 0 case Medium => 1 case Quartile => 2 case High => 3
  }

  /** ECC_CODEWORDS_PER_BLOCK */
  function EccPerBlock(ecl: Ecc, ver: int): (r: int)
    requires Version(ver)
  {
    match ecl
    case Low => (match ver
      case 1 => 7 case 2 => 10 case 3 => 15 case 4 => 20 case 5 => 26
      case 6 => 18 case 7 => 20 case 8 => 24 case 9 => 30 case 10 => 18
      case 11 => 20 case 12 => 24 case 13 => 26 case 14 => 30 case 15 => 22
      case 16 => 24 case 17 => 28 case 18 => 30 case 19 => 28 case 20 => 28
      case 21 => 28 case 22 => 28 case 23 => 30 case 24 => 30 case 25 => 26
      case 26 => 28 case 27 => 30 case 28 => 30 case 29 => 30 case 30 => 30
      case 31 => 30 case 32 => 30 case 33 => 30 case 34 => 30 case 35 => 30
      case 36 => 30 case 37 => 30 case 38 => 30 case 39 => 30 case _ => 30)
    case Medium => (match ver
      case 1 => 10 case 2 => 16 case 3 => 26 case 4 => 18 case 5 => 24
      case 6 => 16 case 7 => 18 case 8 => 22 case 9 => 22 case 10 => 26
      case 11 => 30 case 12 => 22 case 13 => 22 case 14 => 24 case 15 => 24
      case 16 => 28 case 17 => 28 case 18 => 26 case 19 => 26 case 20 => 26
      case 21 => 26 case 22 => 28 case 23 => 28 case 24 => 28 case 25 => 28
      case 26 => 28 case 27 => 28 case 28 => 28 case 29 => 28 case 30 => 28
      case 31 => 28 case 32 => 28 case 33 => 28 case 34 => 28 case 35 => 28
      case 36 => 28 case 37 => 28 case 38 => 28 case 39 => 28 case _ => 28)
    case Quartile => (match ver
      case 1 => 13 case 2 => 22 case 3 => 18 case 4 => 26 case 5 => 18
      case 6 => 24 case 7 => 18 case 8 => 22 case 9 => 20 case 10 => 24
      case 11 => 28 case 12 => 26 case 13 => 24 case 14 => 20 case 15 => 30
      case 16 => 24 case 17 => 28 case 18 => 28 case 19 => 26 case 20 => 30
      case 21 => 28 case 22 => 30 case 23 => 30 case 24 => 30 case 25 => 30
      case 26 => 28 case 27 => 30 case 28 => 30 case 29 => 30 case 30 => 30
      case 31 => 30 case 32 => 30 case 33 => 30 case 34 => 30 case 35 => 30
      case 36 => 30 case 37 => 30 case 38 => 30 case 39 => 30 case _ => 30)
    case High => (match ver
      case 1 => 17 case 2 => 28 case 3 => 22 case 4 => 16 case 5 => 22
      case 6 => 28 case 7 => 26 case 8 => 26 case 9 => 24 case 10 => 28
      case 11 => 24 case 12 => 28 case 13 => 22 case 14 => 24 case 15 => 24
      case 16 => 30 case 17 => 28 case 18 => 28 case 19 => 26 case 20 => 28
      case 21 => 30 case 22 => 24 case 23 => 30 case 24 => 30 case 25 => 30
      case 26 => 30 case 27 => 30 case 28 => 30 case 29 => 30 case 30 => 30
      case 31 => 30 case 32 => 30 case 33 => 30 case 34 => 30 case 35 => 30
      case 36 => 30 case 37 => 30 case 38 => 30 case 39 => 30 case _ => 30)
  }

  /** NUM_ERROR_CORRECTION_BLOCKS */
  function NumBlocks(ecl: Ecc, ver: int): (r: int)
    requires Version(ver)
  {
    match ecl
    case Low => (match ver
      case 1 => 1 case 2 => 1 case 3 => 1 case 4 => 1 case 5 => 1
      case 6 => 2 case 7 => 2 case 8 => 2 case 9 => 2 case 10 => 4
      case 11 => 4 case 12 => 4 case 13 => 4 case 14 => 4 case 15 => 6
      case 16 => 6 case 17 => 6 case 18 => 6 case 19 => 7 case 20 => 8
      case 21 => 8 case 22 => 9 case 23 => 9 case 24 => 10 case 25 => 12
      case 26 => 12 case 27 => 12 case 28 => 13 case 29 => 14 case 30 => 15
      case 31 => 16 case 32 => 17 case 33 => 18 case 34 => 19 case 35 => 19
      case 36 => 20 case 37 => 21 case 38 => 22 case 39 => 24 case _ => 25)
    case Medium => (match ver
      case 1 => 1 case 2 => 1 case 3 => 1 case 4 => 2 case 5 => 2
      case 6 => 4 case 7 => 4 case 8 => 4 case 9 => 5 case 10 => 5
      case 11 => 5 case 12 => 8 case 13 => 9 case 14 => 9 case 15 => 10
      case 16 => 10 case 17 => 11 case 18 => 13 case 19 => 14 case 20 => 16
      case 21 => 17 case 22 => 17 case 23 => 18 case 24 => 20 case 25 => 21
      case 26 => 23 case 27 => 25 case 28 => 26 case 29 => 28 case 30 => 29
      case 31 => 31 case 32 => 33 case 33 => 35 case 34 => 37 case 35 => 38
      case 36 => 40 case 37 => 43 case 38 => 45 case 39 => 47 case _ => 49)
    case Quartile => (match ver
      case 1 => 1 case 2 => 1 case 3 => 2 case 4 => 2 case 5 => 4
      case 6 => 4 case 7 => 6 case 8 => 6 case 9 => 8 case 10 => 8
      case 11 => 8 case 12 => 10 case 13 => 12 case 14 => 16 case 15 => 12
      case 16 => 17 case 17 => 16 case 18 => 18 case 19 => 21 case 20 => 20
      case 21 => 23 case 22 => 23 case 23 => 25 case 24 => 27 case 25 => 29
      case 26 => 34 case 27 => 34 case 28 => 35 case 29 => 38 case 30 => 40
      case 31 => 43 case 32 => 45 case 33 => 48 case 34 => 51 case 35 => 53
      case 36 => 56 case 37 => 59 case 38 => 62 case 39 => 65 case _ => 68)
    case High => (match ver
      case 1 => 1 case 2 => 1 case 3 => 2 case 4 => 4 case 5 => 4
      case 6 => 4 case 7 => 5 case 8 => 6 case 9 => 8 case 10 => 8
      case 11 => 11 case 12 => 11 case 13 => 16 case 14 => 16 case 15 => 18
      case 16 => 16 case 17 => 19 case 18 => 21 case 19 => 25 case 20 => 25
      case 21 => 25 case 22 => 34 case 23 => 30 case 24 => 32 case 25 => 35
      case 26 => 37 case 27 => 40 case 28 => 42 case 29 => 45 case 30 => 48
      case 31 => 51 case 32 => 54 case 33 => 57 case 34 => 60 case 35 => 63
      case 36 => 66 case 37 => 70 case 38 => 74 case 39 => 77 case _ => 81)
  }

  /** getNumRawDataModules: the modules that are left for data, by a closed formula. */
  function RawDataModules(ver: int): int
    requires Version(ver)
  {
    var result := (16 * ver + 128) * ver + 64;
    if ver < 2 then result
    else
      var numAlign := ver / 7 + 2;
      result - ((25 * numAlign - 10) * numAlign - 55) - (if ver >= 7 then 36 else 0)
  }

  function RawCodewords(ver: int): int
    requires Version(ver)
  {
    RawDataModules(ver) / 8
  }

  function DataCodewords(ver: int, ecl: Ecc): int
    requires Version(ver)
  {
    RawCodewords(ver) - EccPerBlock(ecl, ver) * NumBlocks(ecl, ver)
  }

  /** The result check of getNumRawDataModules cannot fail. */
  lemma RawRange(ver: int)
    requires Version(ver)
    ensures 208 <= RawDataModules(ver) <= 29648
  {
    assert ver * ver <= 40 * ver;
    if ver >= 2 {
      assert 2 * ver <= ver * ver;
      assert 2 <= ver / 7 + 2 <= 7;
    }
  }

  lemma EccRange(ver: int, ecl: Ecc)
    requires Version(ver)
    ensures 7 <= EccPerBlock(ecl, ver) <= 30 && 1 <= NumBlocks(ecl, ver)
  {
  }

  function RawTable(ver: int): int
    requires Version(ver)
  {
    match ver
    case 1 => 26 case 2 => 44 case 3 => 70 case 4 => 100 case 5 => 134
    case 6 => 172 case 7 => 196 case 8 => 242 case 9 => 292 case 10 => 346
    case 11 => 404 case 12 => 466 case 13 => 532 case 14 => 581 case 15 => 655
    case 16 => 733 case 17 => 815 case 18 => 901 case 19 => 991 case 20 => 1085
    case 21 => 1156 case 22 => 1258 case 23 => 1364 case 24 => 1474 case 25 => 1588
    case 26 => 1706 case 27 => 1828 case 28 => 1921 case 29 => 2051 case 30 => 2185
    case 31 => 2323 case 32 => 2465 case 33 => 2611 case 34 => 2761 case 35 => 2876
    case 36 => 3034 case 37 => 3196 case 38 => 3362 case 39 => 3532 case _ => 3706
  }

  lemma RawCodewordsLow(ver: int)
    requires 1 <= ver <= 20
    ensures RawCodewords(ver) == RawTable(ver)
  {
  }

  lemma RawCodewordsHigh(ver: int)
    requires 21 <= ver <= 40
    ensures RawCodewords(ver) == RawTable(ver)
  {
  }

  lemma RawCodewordsAre(ver: int)
    requires Version(ver)
    ensures RawCodewords(ver) == RawTable(ver)
  {
    hide RawDataModules, RawTable;
    if ver <= 20 {
      RawCodewordsLow(ver);
    } else {
      RawCodewordsHigh(ver);
    }
  }

  /** Every block has at least one data codeword. */
  lemma BlocksHoldData(ver: int, ecl: Ecc)
    requires Version(ver)
    ensures (EccPerBlock(ecl, ver) + 1) * NumBlocks(ecl, ver) <= RawCodewords(ver)
  {
    hide RawDataModules;
    RawCodewordsAre(ver);
  }

  /** No block is longer than a Reed-Solomon codeword over 255 non-zero elements may be. */
  lemma BlocksAreShort(ver: int, ecl: Ecc)
    requires Version(ver)
    ensures RawCodewords(ver) <= 200 * NumBlocks(ecl, ver)
  {
    hide RawDataModules;
    RawCodewordsAre(ver);
  }

  /** How many percent of the codewords may be damaged at each level, all blocks taken together. */
  function LeastShare(ecl: Ecc): nat {
    match ecl case Low => 7 case Medium => 15 case Quartile => 23 case High => 30
  }

  function GreatestShare(ecl: Ecc): nat {
    match ecl case Low => 12 case Medium => 20 case Quartile => 28 case High => 34
  }

  ghost predicate SharesFit(ver: int, ecl: Ecc)
    requires Version(ver)
  {
    var tolerated := EccPerBlock(ecl, ver) / 2 * NumBlocks(ecl, ver);
    LeastShare(ecl) * RawCodewords(ver) <= 100 * tolerated <= GreatestShare(ecl) * RawCodewords(ver)
  }

  lemma ShareOfLow(ver: int)
    requires Version(ver)
    ensures SharesFit(ver, Low)
  {
    RawCodewordsAre(ver);
    hide RawCodewords;
  }

  lemma ShareOfMedium(ver: int)
    requires Version(ver)
    ensures SharesFit(ver, Medium)
  {
    RawCodewordsAre(ver);
    hide RawCodewords;
  }

  lemma ShareOfQuartile(ver: int)
    requires Version(ver)
    ensures SharesFit(ver, Quartile)
  {
    RawCodewordsAre(ver);
    hide RawCodewords;
  }

  lemma ShareOfHigh(ver: int)
    requires Version(ver)
    ensures SharesFit(ver, High)
  {
    RawCodewordsAre(ver);
    hide RawCodewords;
  }

  lemma ToleratedShare(ver: int, ecl: Ecc)
    requires Version(ver)
    ensures var tolerated := EccPerBlock(ecl, ver) / 2 * NumBlocks(ecl, ver);
            LeastShare(ecl) * RawCodewords(ver) <= 100 * tolerated <= GreatestShare(ecl) * RawCodewords(ver)
  {
    hide EccPerBlock, NumBlocks, RawCodewords, LeastShare, GreatestShare;
    match ecl
    case Low => ShareOfLow(ver);
    case Medium => ShareOfMedium(ver);
    case Quartile => ShareOfQuartile(ver);
    case High => ShareOfHigh(ver);
  }

  /** A greater version holds more data, at every level. */
  lemma CapacityGrows(ver: int, ecl: Ecc)
    requires Version(ver) && Version(ver + 1)
    ensures DataCodewords(ver, ecl) < DataCodewords(ver + 1, ecl)
  {
    RawCodewordsAre(ver);
    RawCodewordsAre(ver + 1);
    hide RawCodewords;
  }

  /** A higher level leaves less room for data. */
  lemma CapacityFalls(ver: int)
    requires Version(ver)
    ensures DataCodewords(ver, Low) > DataCodewords(ver, Medium) > DataCodewords(ver, Quartile)
            > DataCodewords(ver, High) > 0
  {
    hide RawDataModules;
    BlocksHoldData(ver, High);
    EccRange(ver, High);
  }
}
