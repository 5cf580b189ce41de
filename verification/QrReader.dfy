/**
 A reader of finished symbols.  It is given the modules and nothing else: the size tells
 the version, the format word tells level and mask, and the rest follows.
 */
module QrReader {
  import Arithmetic
  import opened Bitwise
  import opened GaloisField
  import opened BitBuffers
  import opened Outcomes
  import opened Segments
  import opened SegmentReader
  import opened Sizes
  import opened Interleaving
  import opened Zigzag
  import opened FunctionPatterns
  import opened Alignment
  import opened InfoWords
  import opened Masking
  import opened MaskChoice

  /** The blocks of a version and level. */
  function LayoutOf(ver: int, ecl: Ecc): (l: Layout)
    requires Version(ver)
    ensures l.Valid()
  {
    EccRange(ver, ecl);
    RawRange(ver);
    BlockRange(ver, ecl);
    Layout(NumBlocks(ecl, ver), EccPerBlock(ecl, ver), RawCodewords(ver))
  }

  lemma BlockRange(ver: int, ecl: Ecc)
    requires Version(ver)
    ensures NumBlocks(ecl, ver) >= 1 && EccPerBlock(ecl, ver) + 1 <= RawCodewords(ver) / NumBlocks(ecl, ver) <= 200
  {
    hide EccPerBlock, NumBlocks, RawDataModules;
    EccRange(ver, ecl);
    RawRange(ver);
    BlocksHoldData(ver, ecl);
    BlocksAreShort(ver, ecl);
    BlockLength(RawCodewords(ver), NumBlocks(ecl, ver), EccPerBlock(ecl, ver));
  }

  lemma LayoutValid(ver: int, ecl: Ecc)
    requires Version(ver)
    ensures 7 <= LayoutOf(ver, ecl).eccLen <= 30
    ensures LayoutOf(ver, ecl).eccLen < LayoutOf(ver, ecl).ShortLen() <= 200
    ensures DataCodewords(ver, ecl) == LayoutOf(ver, ecl).raw - LayoutOf(ver, ecl).numBlocks * LayoutOf(ver, ecl).eccLen
  {
    hide EccPerBlock, NumBlocks, RawDataModules;
    EccRange(ver, ecl);
    BlockRange(ver, ecl);
  }

  lemma BlockLength(raw: nat, n: nat, e: nat)
    requires n >= 1 && (e + 1) * n <= raw <= 200 * n
    ensures e + 1 <= raw / n <= 200
  {
    Arithmetic.DivModIs(raw, n);
    Arithmetic.MulStep(raw / n, e + 1, n);
    Arithmetic.MulStep(200, raw / n, n);
  }

  function FunctionMap(ver: int): (f: Grid)
    requires Version(ver)
    ensures MarksFunctions(f, SizeOf(ver), Positions(ver))
  {
    var size, pos := SizeOf(ver), Positions(ver);
    seq(size, y requires 0 <= y < size =>
      seq(size, x requires 0 <= x < size => IsFunctionModule(size, pos, Cell(x, y))))
  }

  /** Where bit i of the first copy of the format word stands. */
  function FormatCell(i: nat): Cell
    requires i < 15
  {
    if i <= 5 then Cell(8, i) else if i == 6 then Cell(8, 7) else if i == 7 then Cell(8, 8)
    else if i == 8 then Cell(7, 8) else Cell(14 - i, 8)
  }

  function FormatBitsAt(g: Grid, size: nat): (b: seq<bool>)
    requires Square(g, size) && ValidSize(size)
    ensures |b| == 15
  {
    seq(15, k requires 0 <= k < 15 => At(g, size, FormatCell(14 - k)))
  }

  function LevelAndMask(g: Grid, size: nat): (r: (Ecc, nat))
    requires Square(g, size) && ValidSize(size)
    ensures r.1 < 8
  {
    ReadFormat(Value(FormatBitsAt(g, size)))
  }

  /** All codewords of the grid under a mask, in the order in which they are interleaved. */
  function ReadRaw(g: Grid, ver: int, mask: nat): (bytes: seq<byte>)
    requires Version(ver) && Square(g, SizeOf(ver)) && mask < 8
    ensures |bytes| == RawCodewords(ver)
  {
    var size, f := SizeOf(ver), FunctionMap(ver);
    FreeModules(f, ver);
    RawRange(ver);
    PackBytes(FreeBits(f, Masked(g, f, size, mask), size, ScanLength(size))[..8 * RawCodewords(ver)])
  }

  /** The data codewords of the grid. */
  function ReadData(g: Grid, ver: int): seq<byte>
    requires Version(ver) && Square(g, SizeOf(ver))
  {
    var (ecl, mask) := LevelAndMask(g, SizeOf(ver));
    var l := LayoutOf(ver, ecl);
    Deinterleave(ReadRaw(g, ver, mask), l, l.numBlocks)
  }

  /** The contents of the symbol. */
  function ReadSymbol(g: Grid): Option<seq<Content>> {
    var ver := (|g| - 17) / 4;
    if Version(ver) && Square(g, SizeOf(ver)) then ReadSegments(ByteBits(ReadData(g, ver)), ver) else None
  }

  /*---- Finished symbols ----*/

  /** g is the symbol that the constructor makes from these data codewords. */
  ghost predicate IsSymbol(g: Grid, ver: int, ecl: Ecc, mask: nat, data: seq<byte>, codewords: seq<byte>, drawn: Grid)
    requires Version(ver)
  {
    var size, f, l := SizeOf(ver), FunctionMap(ver), LayoutOf(ver, ecl);
    && mask < 8 && |data| == l.Offset(l.numBlocks)
    && Interleaved(codewords, data, l)
    && Square(drawn, size)
    && FreeCount(f, size, ScanLength(size)) >= 8 * |codewords|
    && FreeBits(f, drawn, size, ScanLength(size))[..8 * |codewords|] == ByteBits(codewords)
    && g == Candidate(drawn, f, size, ecl, mask)
  }

  lemma FormatCellIs(size: nat, i: nat)
    requires ValidSize(size) && i < 15
    ensures Inside(FormatCell(i), size) && FormatIndex(size, FormatCell(i)) == i
  {
  }

  lemma CandidateFormatBit(drawn: Grid, f: Grid, size: nat, ecl: Ecc, m: nat, i: nat)
    requires Square(drawn, size) && Square(f, size) && ValidSize(size) && m < 8 && i < 15
    ensures At(Candidate(drawn, f, size, ecl, m), size, FormatCell(i)) == GetBit(FormatWord(ecl, m), i)
  {
    hide FormatWord, Masked, Repaint, FormatIndex, GetBit;
    FormatCellIs(size, i);
  }

  lemma FormatBitsOfCandidate(drawn: Grid, f: Grid, size: nat, ecl: Ecc, m: nat)
    requires Square(drawn, size) && Square(f, size) && ValidSize(size) && m < 8
    ensures FormatBitsAt(Candidate(drawn, f, size, ecl, m), size) == Bits(FormatWord(ecl, m), 15)
  {
    hide FormatWord, Candidate, FormatCell, GetBit, Bits;
    var g, word := Candidate(drawn, f, size, ecl, m), FormatWord(ecl, m);
    forall k | 0 <= k < 15
      ensures FormatBitsAt(g, size)[k] == Bits(word, 15)[k]
    {
      CandidateFormatBit(drawn, f, size, ecl, m, 14 - k);
      BitsAt(word, 15, k);
    }
  }

  lemma ReadFormatOfCandidate(drawn: Grid, f: Grid, size: nat, ecl: Ecc, m: nat)
    requires Square(drawn, size) && Square(f, size) && ValidSize(size) && m < 8
    ensures LevelAndMask(Candidate(drawn, f, size, ecl, m), size) == (ecl, m)
  {
    hide FormatWord, Candidate, FormatBitsAt, Bits, Value, ReadFormat, Pow2;
    FormatBitsOfCandidate(drawn, f, size, ecl, m);
    FormatWordRange(ecl, m);
    ValueOfBits(FormatWord(ecl, m), 15);
    ReadFormatWord(ecl, m);
  }

  lemma FunctionMapMarksFormat(ver: int)
    requires Version(ver)
    ensures MarksFormat(FunctionMap(ver), SizeOf(ver))
  {
    hide InAlignment, InTiming, InFinder, FormatIndex, VersionIndex;
  }

  lemma ReadRawIs(g: Grid, ver: int, mask: nat, codewords: seq<byte>)
    requires Version(ver) && Square(g, SizeOf(ver)) && mask < 8
    requires |codewords| == RawCodewords(ver)
    requires var size, f := SizeOf(ver), FunctionMap(ver);
             var bits := FreeBits(f, Masked(g, f, size, mask), size, ScanLength(size));
             |bits| >= 8 * |codewords| && bits[..8 * |codewords|] == ByteBits(codewords)
    ensures ReadRaw(g, ver, mask) == codewords
  {
    hide Masked, FunctionMap, FreeBits, ByteBits, PackBytes, RawDataModules, ScanLength;
    PackOfByteBits(codewords, []);
    assert ByteBits(codewords) + [] == ByteBits(codewords);
  }

  /** Unmasking and scanning a finished symbol gives the interleaved codewords. */
  lemma ReadRawOfCandidate(ver: int, ecl: Ecc, mask: nat, codewords: seq<byte>, drawn: Grid)
    requires Version(ver) && mask < 8 && |codewords| == RawCodewords(ver) && Square(drawn, SizeOf(ver))
    requires var size, f := SizeOf(ver), FunctionMap(ver);
             var bits := FreeBits(f, drawn, size, ScanLength(size));
             |bits| >= 8 * |codewords| && bits[..8 * |codewords|] == ByteBits(codewords)
    ensures var g := Candidate(drawn, FunctionMap(ver), SizeOf(ver), ecl, mask);
            LevelAndMask(g, SizeOf(ver)) == (ecl, mask) && ReadRaw(g, ver, mask) == codewords
  {
    hide LevelAndMask, Candidate, Masked, FunctionMap, FreeBits, ByteBits, RawDataModules,
         ScanLength, ReadRaw, MarksFormat, SameButFormat;
    var size, f := SizeOf(ver), FunctionMap(ver);
    var g := Candidate(drawn, f, size, ecl, mask);
    ReadFormatOfCandidate(drawn, f, size, ecl, mask);
    FunctionMapMarksFormat(ver);
    CandidateUnmasked(drawn, f, size, ecl, mask);
    FormatIsNotFree(f, Masked(g, f, size, mask), drawn, size);
    ReadRawIs(g, ver, mask, codewords);
  }

  lemma RawOfLayout(ver: int, ecl: Ecc)
    requires Version(ver)
    ensures LayoutOf(ver, ecl).raw == RawCodewords(ver)
  {
  }

  lemma FormatIsNotFree(f: Grid, g: Grid, h: Grid, size: nat)
    requires ValidSize(size) && MarksFormat(f, size) && SameButFormat(g, h, size)
    ensures FreeBits(f, g, size, ScanLength(size)) == FreeBits(f, h, size, ScanLength(size))
  {
    hide FreeBits, IndexOf, FormatIndex, ScanLength;
    FreeBitsAgree(f, g, h, size, ScanLength(size));
  }

  /** End to end: reading a finished symbol gives exactly the data codewords it was made from. */
  lemma ReadDataOfSymbol(g: Grid, ver: int, ecl: Ecc, mask: nat, data: seq<byte>, codewords: seq<byte>, drawn: Grid)
    requires Version(ver) && IsSymbol(g, ver, ecl, mask, data, codewords, drawn)
    ensures Square(g, SizeOf(ver)) && ReadData(g, ver) == data
  {
    hide LevelAndMask, ReadRaw, Candidate, FreeBits, FreeCount, ByteBits, FunctionMap, Deinterleave, LayoutOf,
         BlockCodeword;
    RawOfLayout(ver, ecl);
    ReadRawOfCandidate(ver, ecl, mask, codewords, drawn);
    var l := LayoutOf(ver, ecl);
    DeinterleaveInterleaved(codewords, data, l, l.numBlocks);
    assert data[..|data|] == data;
  }
}
