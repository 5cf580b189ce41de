/**
 Splitting the data codewords into blocks, appending error correction to each block
 and interleaving the blocks, for any number of blocks and any lengths.
 */
module Interleaving {
  import opened Arithmetic
  import opened GaloisField
  import opened ReedSolomon
  import opened Outcomes

  /** numBlocks blocks with eccLen error correction bytes each, `raw` bytes in all. */
  datatype Layout = Layout(numBlocks: nat, eccLen: nat, raw: nat) {

    ghost predicate Valid() {
      numBlocks >= 1 && 1 <= eccLen <= raw / numBlocks
    }

    function ShortLen(): nat
      requires numBlocks >= 1
    {
      raw / numBlocks
    }

    function NumShort(): nat
      requires numBlocks >= 1
    {
      numBlocks - raw % numBlocks
    }

    /** The number of data bytes of a short block. */
    function ShortData(): nat
      requires Valid()
    {
      ShortLen() - eccLen
    }

    function DataLen(j: nat): nat
      requires Valid()
    {
      ShortData() + (if j < NumShort() then 0 else 1)
    }

    /** Where the data of block j starts. */
    function Offset(j: nat): nat
      requires Valid()
    {
      if j == 0 then 0 else Offset(j - 1) + DataLen(j - 1)
    }

    /** The place of column i of block j in the interleaved bytes; short blocks have a gap in column ShortData(). */
    function Place(i: nat, j: nat): int
      requires Valid()
    {
      i * numBlocks + j - (if i >= ShortData() then NumShort() else 0)
    }

    /** The column that holds byte m of the codeword of block j. */
    function Column(j: nat, m: nat): nat
      requires Valid()
    {
      if j < NumShort() && m >= ShortData() then m + 1 else m
    }

    /** Column i of block j is a gap. */
    predicate Gap(i: nat, j: nat)
      requires Valid()
    {
      i == ShortData() && j < NumShort()
    }
  }

  lemma {:induction false} OffsetIs(l: Layout, j: nat)
    requires l.Valid() && j <= l.numBlocks
    ensures l.Offset(j) == j * l.ShortData() + (if j <= l.NumShort() then 0 else j - l.NumShort())
  {
    if j > 0 {
      OffsetIs(l, j - 1);
      assert j * l.ShortData() == (j - 1) * l.ShortData() + l.ShortData();
    }
  }

  /** The blocks use up all data bytes. */
  lemma OffsetTotal(l: Layout)
    requires l.Valid()
    ensures l.Offset(l.numBlocks) == l.raw - l.numBlocks * l.eccLen
  {
    var n := l.numBlocks;
    OffsetIs(l, n);
    assert l.raw == n * l.ShortLen() + l.raw % n;
    assert n * l.ShortLen() == n * l.ShortData() + n * l.eccLen;
  }

  lemma {:induction false} OffsetMono(l: Layout, j: nat, k: nat)
    requires l.Valid() && j <= k
    ensures l.Offset(j) <= l.Offset(k)
  {
    if j < k {
      OffsetMono(l, j, k - 1);
    }
  }

  /** The number of bytes before column i, row j, gaps left out. */
  function Count(l: Layout, i: nat, j: nat): int
    requires l.Valid()
  {
    var d, s := l.ShortData(), l.NumShort();
    i * l.numBlocks + j - (if i < d then 0 else if i > d then s else if j < s then j else s)
  }

  lemma CountNextColumn(l: Layout, i: nat)
    requires l.Valid()
    ensures Count(l, i, l.numBlocks) == Count(l, i + 1, 0)
  {
    assert (i + 1) * l.numBlocks == i * l.numBlocks + l.numBlocks;
  }

  lemma CountTotal(l: Layout)
    requires l.Valid()
    ensures Count(l, l.ShortLen() + 1, 0) == l.raw
  {
    var n := l.numBlocks;
    assert (l.ShortLen() + 1) * n == l.ShortLen() * n + n;
    assert l.raw == n * l.ShortLen() + l.raw % n;
  }

  /** The interleaving loops over blocks of equal length, gaps included. */
  method Interleave(blocks: seq<seq<byte>>, l: Layout) returns (result: seq<byte>)
    requires l.Valid() && |blocks| == l.numBlocks
    requires forall j :: 0 <= j < |blocks| ==> |blocks[j]| == l.ShortLen() + 1
    ensures |result| == l.raw
    ensures forall i, j :: 0 <= i <= l.ShortLen() && 0 <= j < l.numBlocks && !l.Gap(i, j) ==>
              0 <= l.Place(i, j) < |result| && result[l.Place(i, j)] == blocks[j][i]
  {
    result := [];
    for i := 0 to |blocks[0]|
      invariant |result| == Count(l, i, 0)
      invariant forall i', j' :: 0 <= i' < i && 0 <= j' < l.numBlocks && !l.Gap(i', j') ==>
                  0 <= l.Place(i', j') < |result| && result[l.Place(i', j')] == blocks[j'][i']
    {
      for j := 0 to |blocks|
        invariant |result| == Count(l, i, j)
        invariant forall i', j' :: 0 <= i' < i && 0 <= j' < l.numBlocks && !l.Gap(i', j') ==>
                    0 <= l.Place(i', j') < |result| && result[l.Place(i', j')] == blocks[j'][i']
        invariant forall j' :: 0 <= j' < j && !l.Gap(i, j') ==>
                    0 <= l.Place(i, j') < |result| && result[l.Place(i, j')] == blocks[j'][i]
      {
        if i != l.ShortData() || j >= l.NumShort() {
          result := result + [blocks[j][i]];
        }
      }
      CountNextColumn(l, i);
    }
    CountTotal(l);
  }

  /*---- Splitting and appending error correction ----*/

  /** The data bytes of block j. */
  function BlockData(data: seq<byte>, l: Layout, j: nat): (b: seq<byte>)
    requires l.Valid() && j < l.numBlocks && |data| == l.Offset(l.numBlocks)
    ensures |b| == l.DataLen(j)
  {
    OffsetMono(l, j + 1, l.numBlocks);
    data[l.Offset(j)..l.Offset(j + 1)]
  }

  /** The codeword of block j. */
  function BlockCodeword(data: seq<byte>, l: Layout, j: nat): (c: seq<byte>)
    requires l.Valid() && j < l.numBlocks && |data| == l.Offset(l.numBlocks)
    ensures |c| == l.DataLen(j) + l.eccLen
  {
    Codeword(BlockData(data, l, j), l.eccLen)
  }

  /** The block as the interleaving loop sees it: a short one has a gap byte after its data. */
  function PaddedBlock(data: seq<byte>, l: Layout, j: nat): (b: seq<byte>)
    requires l.Valid() && j < l.numBlocks && |data| == l.Offset(l.numBlocks)
    ensures |b| == l.ShortLen() + 1
  {
    var c, n := BlockCodeword(data, l, j), l.DataLen(j);
    c[..n] + (if j < l.NumShort() then [0] else []) + c[n..]
  }

  method SplitBlocks(data: seq<byte>, l: Layout) returns (blocks: seq<seq<byte>>)
    requires l.Valid() && |data| == l.Offset(l.numBlocks) && l.eccLen <= 255
    ensures |blocks| == l.numBlocks
    ensures forall j :: 0 <= j < l.numBlocks ==> blocks[j] == PaddedBlock(data, l, j)
  {
    hide Remainder, Generator;
    var divisor := ComputeDivisor(l.eccLen);
    GeneratorMonic(l.eccLen);
    var rsDiv := divisor.value;
    assert rsDiv == Generator(l.eccLen)[1..];
    blocks := [];
    var k := 0;
    for i := 0 to l.numBlocks
      invariant k == l.Offset(i)
      invariant |blocks| == i
      invariant forall j :: 0 <= j < i ==> blocks[j] == PaddedBlock(data, l, j)
    {
      OffsetMono(l, i + 1, l.numBlocks);
      var dat := data[k..k + l.ShortLen() - l.eccLen + (if i < l.NumShort() then 0 else 1)];
      assert dat == BlockData(data, l, i);
      k := k + |dat|;
      var ecc := ComputeRemainder(dat, rsDiv);
      assert BlockCodeword(data, l, i) == dat + ecc;
      if i < l.NumShort() {
        dat := dat + [0];
      }
      dat := dat + ecc;
      assert dat == PaddedBlock(data, l, i);
      blocks := blocks + [dat];
    }
  }

  /** addEccAndInterleave */
  method AddEccAndInterleave(data: seq<byte>, l: Layout) returns (r: Result<seq<byte>>)
    requires l.Valid() && l.eccLen <= 255
    ensures r.Ok? <==> |data| == l.raw - l.numBlocks * l.eccLen
    ensures r.Err? ==> r.error == InvalidArgument
    ensures r.Ok? ==> |data| == l.Offset(l.numBlocks) && Interleaved(r.value, data, l)
  {
    OffsetTotal(l);
    if |data| != l.raw - l.numBlocks * l.eccLen {
      return Err(InvalidArgument);
    }
    hide PaddedBlock;
    var blocks := SplitBlocks(data, l);
    var result := Interleave(blocks, l);
    forall j, m | 0 <= j < l.numBlocks && 0 <= m < l.DataLen(j) + l.eccLen
      ensures 0 <= Index(l, j, m) < |result| && result[Index(l, j, m)] == BlockCodeword(data, l, j)[m]
    {
      PaddedBlockAt(data, l, j, m);
    }
    return Ok(result);
  }

  /** The index in the interleaved bytes of byte m of the codeword of block j. */
  function Index(l: Layout, j: nat, m: nat): int
    requires l.Valid()
  {
    l.Place(l.Column(j, m), j)
  }

  /** The bytes are the interleaved codewords of the blocks of `data`. */
  ghost predicate Interleaved(bytes: seq<byte>, data: seq<byte>, l: Layout)
    requires l.Valid() && |data| == l.Offset(l.numBlocks)
  {
    && |bytes| == l.raw
    && forall j, m :: 0 <= j < l.numBlocks && 0 <= m < l.DataLen(j) + l.eccLen ==>
         0 <= Index(l, j, m) < |bytes| && bytes[Index(l, j, m)] == BlockCodeword(data, l, j)[m]
  }

  lemma PaddedBlockAt(data: seq<byte>, l: Layout, j: nat, m: nat)
    requires l.Valid() && j < l.numBlocks && |data| == l.Offset(l.numBlocks) && m < l.DataLen(j) + l.eccLen
    ensures !l.Gap(l.Column(j, m), j) && l.Column(j, m) <= l.ShortLen()
    ensures PaddedBlock(data, l, j)[l.Column(j, m)] == BlockCodeword(data, l, j)[m]
  {
    hide Codeword;
  }

  /*---- The de-interleaver ----*/

  /** The columns before the gap and those from it on fill separate parts. */
  lemma PlaceSide(l: Layout, i: nat, j: nat)
    requires l.Valid() && j < l.numBlocks && !l.Gap(i, j)
    ensures i < l.ShortData() ==> 0 <= l.Place(i, j) < l.ShortData() * l.numBlocks
    ensures i >= l.ShortData() ==> l.Place(i, j) >= l.ShortData() * l.numBlocks
  {
    MulStep(i, l.ShortData(), l.numBlocks);
    MulStep(l.ShortData(), i, l.numBlocks);
  }

  lemma ColumnRange(l: Layout, j: nat, m: nat)
    requires l.Valid() && m < l.DataLen(j) + l.eccLen
    ensures !l.Gap(l.Column(j, m), j) && l.Column(j, m) <= l.ShortLen()
  {
  }

  lemma IndexRange(l: Layout, j: nat, m: nat)
    requires l.Valid() && j < l.numBlocks && m < l.DataLen(j) + l.eccLen
    ensures 0 <= Index(l, j, m) < l.raw
  {
    var i, n := l.Column(j, m), l.numBlocks;
    ColumnRange(l, j, m);
    PlaceSide(l, i, j);
    CountTotal(l);
    MulStep(i, l.ShortLen() + 1, n);
    MulMono(0, l.ShortData(), n);
    LastColumn(l);
  }

  lemma LastColumn(l: Layout)
    requires l.Valid()
    ensures l.ShortData() * l.numBlocks <= l.raw
  {
    MulMono(l.ShortData(), l.ShortLen(), l.numBlocks);
  }

  /** No two bytes of codewords share a place. */
  lemma IndexInjective(l: Layout, j: nat, m: nat, k: nat, p: nat)
    requires l.Valid() && j < l.numBlocks && k < l.numBlocks
    requires m < l.DataLen(j) + l.eccLen && p < l.DataLen(k) + l.eccLen
    requires Index(l, j, m) == Index(l, k, p)
    ensures j == k && m == p
  {
    var a, b, n := l.Column(j, m), l.Column(k, p), l.numBlocks;
    ColumnRange(l, j, m);
    ColumnRange(l, k, p);
    PlaceSide(l, a, j);
    PlaceSide(l, b, k);
    DivMod(a, j, n);
    DivMod(b, k, n);
    assert a * n + j == b * n + k;
  }

  /** Data comes first, column by column and block by block, and error correction in the same way after it. */
  lemma IndexOrder(l: Layout, j: nat, m: nat, k: nat, p: nat)
    requires l.Valid() && j < l.numBlocks && k < l.numBlocks
    requires m < l.DataLen(j) + l.eccLen && p < l.DataLen(k) + l.eccLen
    ensures m < l.DataLen(j) && p < l.DataLen(k) ==>
              (Index(l, j, m) < Index(l, k, p) <==> m < p || (m == p && j < k))
    ensures m < l.DataLen(j) && p >= l.DataLen(k) ==> Index(l, j, m) < Index(l, k, p)
    ensures m >= l.DataLen(j) && p >= l.DataLen(k) ==>
              (Index(l, j, m) < Index(l, k, p) <==>
               m - l.DataLen(j) < p - l.DataLen(k) || (m - l.DataLen(j) == p - l.DataLen(k) && j < k))
  {
    PlaceOrder(l, l.Column(j, m), j, l.Column(k, p), k);
    PlaceOrder(l, l.Column(k, p), k, l.Column(j, m), j);
    ColumnRange(l, j, m);
    ColumnRange(l, k, p);
    hide Layout.Place;
  }

  lemma PlaceOrder(l: Layout, i: nat, j: nat, h: nat, k: nat)
    requires l.Valid() && j < l.numBlocks && k < l.numBlocks && !l.Gap(i, j) && !l.Gap(h, k)
    ensures i < h || (i == h && j < k) ==> l.Place(i, j) < l.Place(h, k)
  {
    PlaceSide(l, i, j);
    PlaceSide(l, h, k);
    if i < h {
      MulStep(i, h, l.numBlocks);
    }
  }

  /** The shorter blocks come first, and the longer ones have one data byte more. */
  lemma BlockLengths(l: Layout, j: nat)
    requires l.Valid() && j + 1 < l.numBlocks
    ensures l.DataLen(j) <= l.DataLen(j + 1) <= l.DataLen(j) + 1
  {
  }

  /** The received codeword of block j. */
  function ReadBlock(bytes: seq<byte>, l: Layout, j: nat): (c: seq<byte>)
    requires l.Valid() && j < l.numBlocks && |bytes| == l.raw
    ensures |c| == l.DataLen(j) + l.eccLen
  {
    seq(l.DataLen(j) + l.eccLen,
        m requires 0 <= m < l.DataLen(j) + l.eccLen => (IndexRange(l, j, m); bytes[Index(l, j, m)]))
  }

  /** The data bytes of the first n blocks, error correction dropped. */
  function Deinterleave(bytes: seq<byte>, l: Layout, n: nat): seq<byte>
    requires l.Valid() && n <= l.numBlocks && |bytes| == l.raw
  {
    if n == 0 then []
    else Deinterleave(bytes, l, n - 1) + ReadBlock(bytes, l, n - 1)[..l.DataLen(n - 1)]
  }

  /** Every block reads back as its codeword. */
  lemma ReadInterleaved(bytes: seq<byte>, data: seq<byte>, l: Layout, j: nat)
    requires l.Valid() && |data| == l.Offset(l.numBlocks) && Interleaved(bytes, data, l) && j < l.numBlocks
    ensures ReadBlock(bytes, l, j) == BlockCodeword(data, l, j)
  {
    hide BlockCodeword;
  }

  /** De-interleaving undoes splitting and interleaving. */
  lemma {:induction false} DeinterleaveInterleaved(bytes: seq<byte>, data: seq<byte>, l: Layout, n: nat)
    requires l.Valid() && |data| == l.Offset(l.numBlocks) && Interleaved(bytes, data, l) && n <= l.numBlocks
    ensures l.Offset(n) <= |data| && Deinterleave(bytes, l, n) == data[..l.Offset(n)]
  {
    hide Remainder, Interleaved;
    OffsetMono(l, n, l.numBlocks);
    if n > 0 {
      DeinterleaveInterleaved(bytes, data, l, n - 1);
      ReadInterleaved(bytes, data, l, n - 1);
      assert BlockCodeword(data, l, n - 1)[..l.DataLen(n - 1)] == BlockData(data, l, n - 1);
    }
  }
}
