/** How much damage a symbol survives: the data is the only explanation of what is read. */
module Damage {
  import opened GaloisField
  import opened ReedSolomon
  import opened MinimumDistance
  import opened Interleaving
  import opened Segments
  import opened Sizes
  import opened Zigzag
  import opened Alignment
  import opened QrReader
  import opened QrCodes
  import opened BitBuffers
  import opened FunctionPatterns
  import opened InfoWords
  import opened Masking
  import opened MaskChoice
  import opened BitErrors
  import opened InfoCodes
  import opened Scores

  /** Each block of the received bytes is within half its error correction of the codeword of the data. */
  ghost predicate Explains(data: seq<byte>, bytes: seq<byte>, l: Layout)
    requires l.Valid() && |data| == l.Offset(l.numBlocks) && |bytes| == l.raw
  {
    forall j :: 0 <= j < l.numBlocks ==> 2 * Distance(ReadBlock(bytes, l, j), BlockCodeword(data, l, j)) <= l.eccLen
  }

  /** Data is determined by its blocks. */
  lemma {:induction false} SameBlocks(data: seq<byte>, other: seq<byte>, l: Layout, n: nat)
    requires l.Valid() && |data| == |other| == l.Offset(l.numBlocks) && n <= l.numBlocks
    requires forall j :: 0 <= j < n ==> BlockData(data, l, j) == BlockData(other, l, j)
    ensures l.Offset(n) <= |data| && data[..l.Offset(n)] == other[..l.Offset(n)]
  {
    OffsetMono(l, n, l.numBlocks);
    if n > 0 {
      SameBlocks(data, other, l, n - 1);
      var a, b := l.Offset(n - 1), l.Offset(n);
      assert data[..b] == data[..a] + BlockData(data, l, n - 1);
      assert other[..b] == other[..a] + BlockData(other, l, n - 1);
    }
  }

  /** No two different data explain the same bytes. */
  lemma OneExplanation(data: seq<byte>, other: seq<byte>, bytes: seq<byte>, l: Layout)
    requires l.Valid() && l.ShortLen() + 1 <= 255
    requires |data| == |other| == l.Offset(l.numBlocks) && |bytes| == l.raw
    requires Explains(data, bytes, l) && Explains(other, bytes, l)
    ensures data == other
  {
    hide Codeword, ReadBlock, Distance;
    forall j | 0 <= j < l.numBlocks
      ensures BlockData(data, l, j) == BlockData(other, l, j)
    {
      UniqueDecoding(ReadBlock(bytes, l, j), BlockData(data, l, j), BlockData(other, l, j), l.eccLen);
    }
    SameBlocks(data, other, l, l.numBlocks);
    assert data[..|data|] == data && other[..|data|] == other;
  }

  /*---- Damage anywhere counts at most once in each block ----*/

  lemma {:induction false} RepairOne(u: seq<byte>, v: seq<byte>, k: nat)
    requires |u| == |v| && k < |u|
    ensures Distance(u[k := v[k]], v) + (if u[k] == v[k] then 0 else 1) == Distance(u, v)
  {
    if k == 0 {
      assert u[0 := v[0]][1..] == u[1..];
    } else {
      assert u[k := v[k]][1..] == u[1..][k - 1 := v[1..][k - 1]];
      RepairOne(u[1..], v[1..], k - 1);
    }
  }

  function Gather(u: seq<byte>, places: seq<nat>): (r: seq<byte>)
    requires forall i :: 0 <= i < |places| ==> places[i] < |u|
    ensures |r| == |places|
  {
    seq(|places|, i requires 0 <= i < |places| => u[places[i]])
  }

  /** Words picked from distinct places differ no more than the words they are picked from. */
  lemma {:induction false} GatherDistance(u: seq<byte>, v: seq<byte>, places: seq<nat>)
    requires |u| == |v| && forall i :: 0 <= i < |places| ==> places[i] < |u|
    requires forall i, k :: 0 <= i < k < |places| ==> places[i] != places[k]
    ensures Distance(Gather(u, places), Gather(v, places)) <= Distance(u, v)
    decreases |places|
  {
    if places != [] {
      var k, rest := places[0], places[1..];
      var w := u[k := v[k]];
      RepairOne(u, v, k);
      GatherDistance(w, v, rest);
      assert Gather(u, places)[1..] == Gather(w, rest);
      assert Gather(v, places)[1..] == Gather(v, rest);
    }
  }

  lemma BlockDistance(bytes: seq<byte>, codewords: seq<byte>, l: Layout, j: nat)
    requires l.Valid() && |bytes| == |codewords| == l.raw && j < l.numBlocks
    ensures Distance(ReadBlock(bytes, l, j), ReadBlock(codewords, l, j)) <= Distance(bytes, codewords)
  {
    hide Index, Distance;
    var n := l.DataLen(j) + l.eccLen;
    forall m: nat | m < n
      ensures 0 <= Index(l, j, m) < l.raw
    {
      IndexRange(l, j, m);
    }
    var places: seq<nat> := seq(n, m requires 0 <= m < n => Index(l, j, m));
    forall i, k | 0 <= i < k < n
      ensures places[i] != places[k]
    {
      if places[i] == places[k] {
        IndexInjective(l, j, i, j, k);
      }
    }
    GatherDistance(bytes, codewords, places);
    assert Gather(bytes, places) == ReadBlock(bytes, l, j);
    assert Gather(codewords, places) == ReadBlock(codewords, l, j);
  }

  /**
   Each block has its own budget: up to half its error correction bytes may be damaged, wherever
   they are, and the data remains the only explanation of what is read.
   */
  lemma DamageTolerated(bytes: seq<byte>, codewords: seq<byte>, data: seq<byte>, other: seq<byte>, l: Layout)
    requires l.Valid() && l.ShortLen() + 1 <= 255
    requires |data| == |other| == l.Offset(l.numBlocks) && Interleaved(codewords, data, l) && |bytes| == l.raw
    requires forall j :: 0 <= j < l.numBlocks ==>
               2 * Distance(ReadBlock(codewords, l, j), ReadBlock(bytes, l, j)) <= l.eccLen
    ensures Explains(data, bytes, l)
    ensures Explains(other, bytes, l) ==> other == data
  {
    hide Distance, ReadBlock, BlockCodeword;
    forall j | 0 <= j < l.numBlocks
      ensures 2 * Distance(ReadBlock(bytes, l, j), BlockCodeword(data, l, j)) <= l.eccLen
    {
      ReadInterleaved(codewords, data, l, j);
      TriangleInequality(ReadBlock(codewords, l, j), ReadBlock(bytes, l, j), ReadBlock(bytes, l, j));
    }
    if Explains(other, bytes, l) {
      OneExplanation(data, other, bytes, l);
    }
  }

  /*---- Damaged modules ----*/

  /** Each damaged byte has a damaged bit. */
  lemma {:induction false} PackedDistance(u: seq<bool>, v: seq<bool>)
    requires |u| == |v|
    ensures Distance(PackBytes(u), PackBytes(v)) <= Flips(u, v)
  {
    hide PackByte;
    if |u| >= 8 {
      FlipsSplit(u, v, 8);
      PackedDistance(u[8..], v[8..]);
      if Flips(u[..8], v[..8]) == 0 {
        NoFlips(u[..8], v[..8]);
      }
      assert PackBytes(u)[1..] == PackBytes(u[8..]) && PackBytes(v)[1..] == PackBytes(v[8..]);
    }
  }

  /** The codeword modules among the first t of the scan in which two grids differ. */
  ghost function DamagedBefore(f: Grid, g: Grid, h: Grid, size: nat, t: nat): set<Cell>
    requires Square(f, size) && Square(g, size) && Square(h, size)
  {
    set c | && c in Rect(0, 0, size, size) && !At(f, size, c) && c.x != 6 && IndexOf(size, c) < t
            && At(g, size, c) != At(h, size, c)
  }

  ghost function Damaged(f: Grid, g: Grid, h: Grid, size: nat): set<Cell>
    requires Square(f, size) && Square(g, size) && Square(h, size)
  {
    set c | c in Rect(0, 0, size, size) && !At(f, size, c) && At(g, size, c) != At(h, size, c)
  }

  lemma DamagedNext(f: Grid, g: Grid, h: Grid, size: nat, t: nat)
    requires Square(f, size) && Square(g, size) && Square(h, size) && ValidSize(size) && t < ScanLength(size)
    requires Inside(CellAt(size, t), size)
    ensures var c := CellAt(size, t);
            |DamagedBefore(f, g, h, size, t + 1)| >=
            |DamagedBefore(f, g, h, size, t)| + (if !At(f, size, c) && At(g, size, c) != At(h, size, c) then 1 else 0)
  {
    hide Rect, CellAt, IndexOf, ScanLength;
    ScanVisits(size, t);
    var c := CellAt(size, t);
    var before, after := DamagedBefore(f, g, h, size, t), DamagedBefore(f, g, h, size, t + 1);
    if !At(f, size, c) && At(g, size, c) != At(h, size, c) {
      SubsetCount(before + {c}, after);
    } else {
      SubsetCount(before, after);
    }
  }

  /** The bits that are read differ in no more places than the modules they are read from. */
  lemma {:induction false} FreeFlips(f: Grid, g: Grid, h: Grid, size: nat, t: nat)
    requires Square(f, size) && Square(g, size) && Square(h, size) && ValidSize(size) && t <= ScanLength(size)
    ensures Flips(FreeBits(f, g, size, t), FreeBits(f, h, size, t)) <= |DamagedBefore(f, g, h, size, t)|
  {
    hide Rect, CellAt, IndexOf, ScanLength, DamagedBefore, Flips;
    NothingFlips();
    if t > 0 {
      FreeFlips(f, g, h, size, t - 1);
      ScanVisits(size, t - 1);
      DamagedNext(f, g, h, size, t - 1);
      var c, u, v := CellAt(size, t - 1), FreeBits(f, g, size, t - 1), FreeBits(f, h, size, t - 1);
      assert u + [] == u && v + [] == v;
      FlipsAppend(u, v, At(g, size, c), At(h, size, c));
    }
  }

  /** Masks do not spread damage. */
  lemma MaskedDamage(f: Grid, g: Grid, h: Grid, size: nat, m: nat, t: nat)
    requires Square(f, size) && Square(g, size) && Square(h, size) && m < 8
    ensures |DamagedBefore(f, Masked(g, f, size, m), Masked(h, f, size, m), size, t)| <= |Damaged(f, g, h, size)|
  {
    hide Rect, IndexOf, Masked, Invert;
    SubsetCount(DamagedBefore(f, Masked(g, f, size, m), Masked(h, f, size, m), size, t), Damaged(f, g, h, size));
  }

  /** Damage to n codeword modules changes at most n codewords. */
  lemma RawDistance(g: Grid, h: Grid, ver: int, mask: nat)
    requires Version(ver) && Square(g, SizeOf(ver)) && Square(h, SizeOf(ver)) && mask < 8
    ensures Distance(ReadRaw(g, ver, mask), ReadRaw(h, ver, mask)) <= |Damaged(FunctionMap(ver), g, h, SizeOf(ver))|
  {
    hide FunctionMap, Masked, FreeBits, DamagedBefore, Damaged, ScanLength, RawDataModules, PackBytes, Flips, Distance;
    var size, f := SizeOf(ver), FunctionMap(ver);
    var t, n := ScanLength(size), 8 * RawCodewords(ver);
    var u, v := FreeBits(f, Masked(g, f, size, mask), size, t), FreeBits(f, Masked(h, f, size, mask), size, t);
    FreeModules(f, ver);
    RawRange(ver);
    FreeFlips(f, Masked(g, f, size, mask), Masked(h, f, size, mask), size, t);
    MaskedDamage(f, g, h, size, mask, t);
    FlipsSplit(u, v, n);
    PackedDistance(u[..n], v[..n]);
  }

  /*---- The modules of one block ----*/

  /** The module at c carries a bit of codeword b, in the order of the scan. */
  predicate Carries(f: Grid, size: nat, c: Cell, b: nat)
    requires Square(f, size) && ValidSize(size) && Inside(c, size)
  {
    && !At(f, size, c) && c.x != 6 && 0 <= IndexOf(size, c) < ScanLength(size)
    && FreeCount(f, size, IndexOf(size, c)) / 8 == b
  }

  /** The module at c carries a bit of block j. */
  predicate InBlock(f: Grid, size: nat, l: Layout, j: nat, c: Cell)
    requires Square(f, size) && ValidSize(size) && Inside(c, size) && l.Valid()
  {
    exists m: nat :: m < l.DataLen(j) + l.eccLen && Index(l, j, m) >= 0 && Carries(f, size, c, Index(l, j, m))
  }

  /** The damaged modules of block j. */
  ghost function DamagedIn(f: Grid, g: Grid, h: Grid, size: nat, l: Layout, j: nat): set<Cell>
    requires Square(f, size) && Square(g, size) && Square(h, size) && ValidSize(size) && l.Valid()
  {
    set c | c in Damaged(f, g, h, size) && InBlock(f, size, l, j, c)
  }

  /** The grid g with the damage to block j and no other. */
  ghost function OnlyBlock(f: Grid, g: Grid, h: Grid, size: nat, l: Layout, j: nat): (k: Grid)
    requires Square(f, size) && Square(g, size) && Square(h, size) && ValidSize(size) && l.Valid()
    ensures Square(k, size)
    ensures forall c :: Inside(c, size) ==>
              At(k, size, c) == if InBlock(f, size, l, j, c) then At(h, size, c) else At(g, size, c)
  {
    seq(size, y requires 0 <= y < size =>
      seq(size, x requires 0 <= x < size => if InBlock(f, size, l, j, Cell(x, y)) then h[y][x] else g[y][x]))
  }

  lemma OnlyBlockDamaged(f: Grid, g: Grid, h: Grid, size: nat, l: Layout, j: nat)
    requires Square(f, size) && Square(g, size) && Square(h, size) && ValidSize(size) && l.Valid()
    ensures Damaged(f, g, OnlyBlock(f, g, h, size, l, j), size) == DamagedIn(f, g, h, size, l, j)
  {
    hide Rect, OnlyBlock, InBlock;
    var k := OnlyBlock(f, g, h, size, l, j);
    forall c | c in Rect(0, 0, size, size)
      ensures c in Damaged(f, g, k, size) <==> c in DamagedIn(f, g, h, size, l, j)
    {
      assert Inside(c, size);
      assert At(k, size, c) == if InBlock(f, size, l, j, c) then At(h, size, c) else At(g, size, c);
    }
  }

  /** A bit depends only on the module that carries it. */
  lemma {:induction false} FreeBitLocal(f: Grid, g: Grid, h: Grid, size: nat, t: nat, i: nat)
    requires Square(f, size) && Square(g, size) && Square(h, size) && ValidSize(size) && t <= ScanLength(size)
    requires i < FreeCount(f, size, t)
    requires forall c :: Inside(c, size) && Carries(f, size, c, i / 8) ==> At(g, size, c) == At(h, size, c)
    ensures FreeBits(f, g, size, t)[i] == FreeBits(f, h, size, t)[i]
    decreases t
  {
    hide CellAt, IndexOf, ScanLength;
    ScanVisits(size, t - 1);
    if i < FreeCount(f, size, t - 1) {
      FreeBitLocal(f, g, h, size, t - 1, i);
    } else {
      assert Carries(f, size, CellAt(size, t - 1), i / 8);
    }
  }

  lemma ReadRawAt(g: Grid, ver: int, mask: nat, b: nat)
    requires Version(ver) && Square(g, SizeOf(ver)) && mask < 8 && b < RawCodewords(ver)
    ensures var f, size := FunctionMap(ver), SizeOf(ver);
            var u := FreeBits(f, Masked(g, f, size, mask), size, ScanLength(size));
            8 * b + 8 <= |u| && ReadRaw(g, ver, mask)[b] == Value(u[8 * b..8 * b + 8])
  {
    hide FunctionMap, Masked, FreeBits, FreeCount, ScanLength, RawDataModules, PackBytes, Value;
    var f, size := FunctionMap(ver), SizeOf(ver);
    var u, n := FreeBits(f, Masked(g, f, size, mask), size, ScanLength(size)), 8 * RawCodewords(ver);
    FreeModules(f, ver);
    RawRange(ver);
    PackAt(u[..n], b);
    SameSlice(u[..n], u, n, 8 * b, 8 * b + 8);
  }

  /** A codeword depends only on the modules that carry its bits. */
  lemma RawLocal(g: Grid, h: Grid, ver: int, mask: nat, b: nat)
    requires Version(ver) && Square(g, SizeOf(ver)) && Square(h, SizeOf(ver)) && mask < 8 && b < RawCodewords(ver)
    requires forall c :: Inside(c, SizeOf(ver)) && Carries(FunctionMap(ver), SizeOf(ver), c, b) ==>
               At(g, SizeOf(ver), c) == At(h, SizeOf(ver), c)
    ensures ReadRaw(g, ver, mask)[b] == ReadRaw(h, ver, mask)[b]
  {
    hide FunctionMap, FreeBits, FreeCount, ScanLength, RawDataModules, Carries, Value, ReadRaw, Masked, Invert;
    var size, f := SizeOf(ver), FunctionMap(ver);
    var g', h' := Masked(g, f, size, mask), Masked(h, f, size, mask);
    ReadRawAt(g, ver, mask, b);
    ReadRawAt(h, ver, mask, b);
    BitsLocal(f, g', h', size, b);
  }

  lemma BitsLocal(f: Grid, g: Grid, h: Grid, size: nat, b: nat)
    requires Square(f, size) && Square(g, size) && Square(h, size) && ValidSize(size)
    requires 8 * b + 8 <= FreeCount(f, size, ScanLength(size))
    requires forall c :: Inside(c, size) && Carries(f, size, c, b) ==> At(g, size, c) == At(h, size, c)
    ensures FreeBits(f, g, size, ScanLength(size))[8 * b..8 * b + 8]
            == FreeBits(f, h, size, ScanLength(size))[8 * b..8 * b + 8]
  {
    hide FreeBits, FreeCount, ScanLength, Carries, At;
    var t := ScanLength(size);
    forall i | 8 * b <= i < 8 * b + 8
      ensures FreeBits(f, g, size, t)[i] == FreeBits(f, h, size, t)[i]
    {
      FreeBitLocal(f, g, h, size, t, i);
    }
  }

  lemma SameSlice(u: seq<bool>, v: seq<bool>, n: nat, lo: nat, hi: nat)
    requires lo <= hi <= n <= |v| && u == v[..n]
    ensures u[lo..hi] == v[lo..hi]
  {
  }

  /** Damage to n modules of a block changes at most n bytes of its codeword. */
  lemma BlockDamage(g: Grid, h: Grid, ver: int, mask: nat, l: Layout, j: nat)
    requires Version(ver) && Square(g, SizeOf(ver)) && Square(h, SizeOf(ver)) && mask < 8
    requires l.Valid() && l.raw == RawCodewords(ver) && j < l.numBlocks
    ensures Distance(ReadBlock(ReadRaw(g, ver, mask), l, j), ReadBlock(ReadRaw(h, ver, mask), l, j))
            <= |DamagedIn(FunctionMap(ver), g, h, SizeOf(ver), l, j)|
  {
    hide FunctionMap, ReadRaw, Distance, Carries, Index, Rect, RawDataModules, OnlyBlock;
    var size, f := SizeOf(ver), FunctionMap(ver);
    var k := OnlyBlock(f, g, h, size, l, j);
    RawDistance(g, k, ver, mask);
    OnlyBlockDamaged(f, g, h, size, l, j);
    BlockDistance(ReadRaw(g, ver, mask), ReadRaw(k, ver, mask), l, j);
    forall m: nat | m < l.DataLen(j) + l.eccLen
      ensures 0 <= Index(l, j, m) < l.raw
      ensures ReadRaw(k, ver, mask)[Index(l, j, m)] == ReadRaw(h, ver, mask)[Index(l, j, m)]
    {
      IndexRange(l, j, m);
      RawLocal(k, h, ver, mask, Index(l, j, m));
    }
    SameBlock(ReadRaw(k, ver, mask), ReadRaw(h, ver, mask), l, j);
  }

  lemma SameBlock(bytes: seq<byte>, other: seq<byte>, l: Layout, j: nat)
    requires l.Valid() && |bytes| == |other| == l.raw && j < l.numBlocks
    requires forall m: nat :: m < l.DataLen(j) + l.eccLen ==>
               0 <= Index(l, j, m) < l.raw && bytes[Index(l, j, m)] == other[Index(l, j, m)]
    ensures ReadBlock(bytes, l, j) == ReadBlock(other, l, j)
  {
    hide Index;
    forall m: nat | m < l.DataLen(j) + l.eccLen
      ensures ReadBlock(bytes, l, j)[m] == ReadBlock(other, l, j)[m]
    {
      assert bytes[Index(l, j, m)] == other[Index(l, j, m)];
    }
  }

  /*---- Damaged symbols ----*/

  /**
   The grid reads as this level, mask and data: at most three modules of the format word are
   wrong, and in each block at most half as many codewords as it has for error correction.
   */
  ghost predicate ReadsAs(h: Grid, ver: int, ecl: Ecc, mask: nat, data: seq<byte>)
    requires Version(ver) && Square(h, SizeOf(ver))
  {
    && mask < 8
    && |data| == LayoutOf(ver, ecl).Offset(LayoutOf(ver, ecl).numBlocks)
    && Flips(FormatBitsAt(h, SizeOf(ver)), Bits(FormatWord(ecl, mask), 15)) <= 3
    && Explains(data, ReadRaw(h, ver, mask), LayoutOf(ver, ecl))
  }

  /** No grid reads in two ways. */
  lemma OneReading(h: Grid, ver: int, ecl: Ecc, mask: nat, data: seq<byte>, ecl': Ecc, mask': nat, data': seq<byte>)
    requires Version(ver) && Square(h, SizeOf(ver))
    requires ReadsAs(h, ver, ecl, mask, data) && ReadsAs(h, ver, ecl', mask', data')
    ensures ecl == ecl' && mask == mask' && data == data'
  {
    hide FormatWord, FormatBitsAt, Bits, Flips, Explains, ReadRaw, LayoutOf, Layout.Offset;
    var u, v, w := Bits(FormatWord(ecl, mask), 15), FormatBitsAt(h, SizeOf(ver)), Bits(FormatWord(ecl', mask'), 15);
    FlipsTriangle(u, v, w);
    if ecl != ecl' || mask != mask' {
      FormatWordsApart(ecl, mask, ecl', mask');
    }
    LayoutValid(ver, ecl);
    RawOfLayout(ver, ecl);
    OneExplanation(data, data', ReadRaw(h, ver, mask), LayoutOf(ver, ecl));
  }

  lemma SymbolReadsAs(g: Grid, h: Grid, ver: int, ecl: Ecc, mask: nat, data: seq<byte>,
                      codewords: seq<byte>, drawn: Grid)
    requires Version(ver) && IsSymbol(g, ver, ecl, mask, data, codewords, drawn)
    requires Square(g, SizeOf(ver)) && Square(h, SizeOf(ver))
    requires Flips(FormatBitsAt(g, SizeOf(ver)), FormatBitsAt(h, SizeOf(ver))) <= 3
    requires forall j :: 0 <= j < LayoutOf(ver, ecl).numBlocks ==>
               2 * |DamagedIn(FunctionMap(ver), g, h, SizeOf(ver), LayoutOf(ver, ecl), j)| <= LayoutOf(ver, ecl).eccLen
    ensures ReadsAs(h, ver, ecl, mask, data)
  {
    hide ReadRaw, Candidate, FreeBits, FreeCount, ByteBits, FunctionMap, LayoutOf, Distance, Explains, BlockCodeword,
         DamagedIn, FormatBitsAt, LevelAndMask, FormatWord, Bits, Flips, ReadBlock;
    var l, size := LayoutOf(ver, ecl), SizeOf(ver);
    LayoutValid(ver, ecl);
    RawOfLayout(ver, ecl);
    ReadRawOfCandidate(ver, ecl, mask, codewords, drawn);
    FormatBitsOfCandidate(drawn, FunctionMap(ver), size, ecl, mask);
    FlipsTriangle(FormatBitsAt(g, size), FormatBitsAt(h, size), FormatBitsAt(h, size));
    forall j | 0 <= j < l.numBlocks
      ensures 2 * Distance(ReadBlock(codewords, l, j), ReadBlock(ReadRaw(h, ver, mask), l, j)) <= l.eccLen
    {
      BlockDamage(g, h, ver, mask, l, j);
    }
    DamageTolerated(ReadRaw(h, ver, mask), codewords, data, data, l);
  }

  /**
   Every grid g that the constructor finishes survives damage.  h is g with any function modules
   changed, but no more than three of those that carry the format word, and with up to half the
   error correction length of codeword modules changed in each block.  Then h reads as the level,
   mask and data of g, and in no other way.
   */
  lemma SymbolSurvives(g: Grid, h: Grid, ver: int, ecl: Ecc, mask: nat, data: seq<byte>, automatic: bool)
    requires Version(ver) && Finished(g, ver, ecl, mask, data, automatic)
    requires Square(g, SizeOf(ver)) && Square(h, SizeOf(ver))
    requires Flips(FormatBitsAt(g, SizeOf(ver)), FormatBitsAt(h, SizeOf(ver))) <= 3
    requires forall j :: 0 <= j < NumBlocks(ecl, ver) ==>
               2 * |DamagedIn(FunctionMap(ver), g, h, SizeOf(ver), LayoutOf(ver, ecl), j)| <= EccPerBlock(ecl, ver)
    ensures forall ecl', mask', data' ::
              ReadsAs(h, ver, ecl', mask', data') <==> ecl' == ecl && mask' == mask && data' == data
  {
    hide FunctionMap, IsSymbol, BestMask, DamagedIn, FormatBitsAt, Flips, ReadsAs, EccPerBlock, NumBlocks;
    var codewords, drawn :| IsSymbol(g, ver, ecl, mask, data, codewords, drawn);
    SymbolReadsAs(g, h, ver, ecl, mask, data, codewords, drawn);
    forall ecl', mask', data' | ReadsAs(h, ver, ecl', mask', data')
      ensures ecl' == ecl && mask' == mask && data' == data
    {
      OneReading(h, ver, ecl, mask, data, ecl', mask', data');
    }
  }
}
