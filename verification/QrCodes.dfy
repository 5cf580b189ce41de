/** Making symbols: the constructor and the encoding functions, read back end to end. */
module QrCodes {
  import opened Bitwise
  import opened GaloisField
  import opened BitBuffers
  import opened Outcomes
  import opened Segments
  import opened SegmentReader
  import opened Sizes
  import opened Encoder
  import opened Interleaving
  import opened Zigzag
  import opened FunctionPatterns
  import opened Alignment
  import opened InfoWords
  import opened Ink
  import opened Masking
  import opened MaskChoice
  import opened QrSymbol
  import opened QrReader
  import opened FunctionReader

  /** After drawFunctionPatterns on a blank grid the marks are exactly the function map. */
  lemma MarksAreMap(f0: Grid, g0: Grid, f: Grid, g: Grid, ver: int, ecl: Ecc, mask: nat)
    requires Version(ver)
    requires Painted(f0, g0, f, g, SizeOf(ver),
                     c => FunctionInk(SizeOf(ver), Positions(ver), FormatWord(ecl, mask), VersionWord(ver), c))
    requires forall c :: Inside(c, SizeOf(ver)) ==> !At(f0, SizeOf(ver), c)
    ensures f == FunctionMap(ver) && ShowsFunctions(g, ver, ecl, mask)
  {
    hide FunctionInk, FormatWord, VersionWord, IsFunctionModule, Positions, FunctionMap;
    var size, pos := SizeOf(ver), Positions(ver);
    forall c | Inside(c, size)
      ensures At(f, size, c) == At(FunctionMap(ver), size, c)
    {
      FunctionInkCovers(size, pos, FormatWord(ecl, mask), VersionWord(ver), c);
    }
    GridsEqual(f, FunctionMap(ver), size);
  }

  lemma VersionIsNotFormat(size: nat, c: Cell)
    requires ValidSize(size) && Inside(c, size) && VersionIndex(size, c) >= 0
    ensures FormatIndex(size, c) < 0
  {
  }

  /** Masking and repainting leave the other function patterns as they were. */
  lemma CandidateShowsFunctions(g: Grid, ver: int, ecl: Ecc, m: nat)
    requires Version(ver) && m < 8 && ShowsFunctions(g, ver, ecl, 0)
    ensures ShowsFunctions(Candidate(g, FunctionMap(ver), SizeOf(ver), ecl, m), ver, ecl, m)
  {
    hide FormatWord, VersionWord, IsFunctionModule, Positions, FunctionMap, Masked, Repaint, Invert,
         FormatIndex, VersionIndex, AlignmentInk, FindersInk, TimingInk;
    var size, pos := SizeOf(ver), Positions(ver);
    var h := Candidate(g, FunctionMap(ver), size, ecl, m);
    forall c | Inside(c, size) && FunctionInk(size, pos, FormatWord(ecl, m), VersionWord(ver), c).Some?
      ensures At(h, size, c) == FunctionInk(size, pos, FormatWord(ecl, m), VersionWord(ver), c).value
    {
      FunctionInkCovers(size, pos, FormatWord(ecl, m), VersionWord(ver), c);
      FunctionInkCovers(size, pos, FormatWord(ecl, 0), VersionWord(ver), c);
      if VersionIndex(size, c) >= 0 {
        VersionIsNotFormat(size, c);
      }
    }
  }

  /** Codewords do not touch function modules. */
  lemma DrawnShowsFunctions(before: Grid, after: Grid, ver: int, ecl: Ecc, bits: seq<bool>)
    requires Version(ver) && ShowsFunctions(before, ver, ecl, 0)
    requires Drawn(FunctionMap(ver), before, after, SizeOf(ver), bits)
    ensures ShowsFunctions(after, ver, ecl, 0)
  {
    hide FunctionInk, FormatWord, VersionWord, IsFunctionModule, Positions, FunctionMap, FreeBits, FreeCount;
    var size, pos := SizeOf(ver), Positions(ver);
    forall c | Inside(c, size) && FunctionInk(size, pos, FormatWord(ecl, 0), VersionWord(ver), c).Some?
      ensures At(after, size, c) == At(before, size, c)
    {
      FunctionInkCovers(size, pos, FormatWord(ecl, 0), VersionWord(ver), c);
    }
  }

  /** What the constructor promises about the finished grid. */
  ghost predicate Finished(g: Grid, ver: int, ecl: Ecc, mask: nat, data: seq<byte>, automatic: bool)
    requires Version(ver)
  {
    exists codewords: seq<byte>, drawn: Grid ::
      IsSymbol(g, ver, ecl, mask, data, codewords, drawn)
      && (automatic ==> BestMask(drawn, FunctionMap(ver), SizeOf(ver), ecl, mask))
  }

  lemma SymbolDrawn(before: Grid, drawn: Grid, ver: int, ecl: Ecc, data: seq<byte>, codewords: seq<byte>, mask: nat)
    requires Version(ver) && mask < 8 && Square(before, SizeOf(ver))
    requires |data| == LayoutOf(ver, ecl).Offset(LayoutOf(ver, ecl).numBlocks)
    requires Interleaved(codewords, data, LayoutOf(ver, ecl))
    requires Drawn(FunctionMap(ver), before, drawn, SizeOf(ver), ByteBits(codewords))
    ensures IsSymbol(Candidate(drawn, FunctionMap(ver), SizeOf(ver), ecl, mask), ver, ecl, mask, data, codewords, drawn)
  {
    hide Candidate, FunctionMap, FreeBits, FreeCount, ByteBits, Interleaved, LayoutOf, ScanLength;
  }

  /** The QrCode constructor. */
  method Create(ver: int, ecl: Ecc, dataCodewords: seq<byte>, msk: int) returns (r: Result<QrCode>)
    ensures r == Err(DomainError) <==> !Version(ver) || msk < -1 || msk > 7
    ensures r == Err(InvalidArgument) <==> Version(ver) && -1 <= msk <= 7 && |dataCodewords| != DataCodewords(ver, ecl)
    ensures r.Err? ==> r.error == DomainError || r.error == InvalidArgument
    ensures r.Ok? ==>
              var q := r.value;
              && fresh(q) && q.Valid() && q.version == ver && q.ecl == ecl
              && 0 <= q.mask <= 7 && (msk >= 0 ==> q.mask == msk)
              && ShowsFunctions(q.modules, ver, ecl, q.mask) && LooksRight(q.modules, ver, ecl, q.mask)
              && Finished(q.modules, ver, ecl, q.mask, dataCodewords, msk == -1)
              && ReadData(q.modules, ver) == dataCodewords
  {
    hide DataCodewords, LayoutOf, ShowsFunctions, Drawn, Interleaved, FunctionMap, ReadData, IsSymbol, Candidate,
         BestMask, LooksRight, MarksFormat, FunctionInk, Layout.Valid, Layout.Offset, ByteBits;
    if ver < 1 || ver > 40 {
      return Err(DomainError);
    }
    if msk < -1 || msk > 7 {
      return Err(DomainError);
    }
    var q := new QrCode(ver, ecl);
    ghost var f0, g0 := q.isFunction, q.modules;
    q.DrawFunctionPatterns();
    MarksAreMap(f0, g0, q.isFunction, q.modules, ver, ecl, 0);
    LayoutValid(ver, ecl);
    var l := LayoutOf(ver, ecl);
    var interleaved := AddEccAndInterleave(dataCodewords, l);
    if interleaved.Err? {
      return Err(InvalidArgument);
    }
    var allCodewords := interleaved.value;
    ghost var before := q.modules;
    InterleavedLength(allCodewords, dataCodewords, ver, ecl);
    var ok := q.DrawCodewords(allCodewords);
    ghost var drawn := q.modules;
    DrawnShowsFunctions(before, drawn, ver, ecl, ByteBits(allCodewords));
    FunctionMapMarksFormat(ver);
    DoMasking(q, msk);
    CandidateShowsFunctions(drawn, ver, ecl, q.mask);
    FunctionsLookRight(q.modules, ver, ecl, q.mask);
    SymbolDrawn(before, drawn, ver, ecl, dataCodewords, allCodewords, q.mask);
    ReadDataOfSymbol(q.modules, ver, ecl, q.mask, dataCodewords, allCodewords, drawn);
    return Ok(q);
  }

  lemma InterleavedLength(bytes: seq<byte>, data: seq<byte>, ver: int, ecl: Ecc)
    requires Version(ver)
    requires |data| == LayoutOf(ver, ecl).Offset(LayoutOf(ver, ecl).numBlocks)
    requires Interleaved(bytes, data, LayoutOf(ver, ecl))
    ensures |bytes| == RawCodewords(ver)
  {
    hide BlockCodeword;
    RawOfLayout(ver, ecl);
  }

  /** Everything encodeSegments promises about the symbol it returns. */
  ghost predicate Encodes(g: Grid, ver: int, level: Ecc, segs: seq<Segment>, ecl: Ecc,
                          minVersion: int, maxVersion: int, boost: bool)
    requires Version(ver) && Square(g, SizeOf(ver)) && ValidArguments(minVersion, maxVersion, -1)
  {
    BestPlan(Plan(ver, level, ReadData(g, ver)), segs, ecl, minVersion, maxVersion, boost)
  }

  /** Reading the symbol of factory-made segments gives back their contents. */
  lemma EncodesReadsBack(contents: seq<Content>, g: Grid, ver: int, level: Ecc, ecl: Ecc,
                         minVersion: int, maxVersion: int, boost: bool)
    requires Version(ver) && Square(g, SizeOf(ver)) && ValidArguments(minVersion, maxVersion, -1)
    requires AllEncodable(contents)
    requires Encodes(g, ver, level, SegmentsOf(contents), ecl, minVersion, maxVersion, boost)
    ensures ReadSymbol(g) == Some(contents)
  {
    hide BestPlan, ReadData, ReadSegments, ByteBits, SegmentsOf, DataCodewords;
    PlanReadsBack(contents, Plan(ver, level, ReadData(g, ver)), ecl, minVersion, maxVersion, boost);
  }

  method EncodeSegments(segs: seq<Segment>, ecl: Ecc, minVersion: int, maxVersion: int, msk: int, boost: bool)
    returns (r: Result<QrCode>)
    ensures r == Err(InvalidArgument) <==> !ValidArguments(minVersion, maxVersion, msk)
    ensures ValidArguments(minVersion, maxVersion, msk) ==>
              (r == Err(DataTooLong) <==> forall v :: minVersion <= v <= maxVersion ==> !Fits(segs, v, ecl))
    ensures r.Err? ==> r.error == InvalidArgument || r.error == DataTooLong
    ensures r.Ok? ==>
              var q := r.value;
              && fresh(q) && q.Valid() && 0 <= q.mask <= 7 && (msk >= 0 ==> q.mask == msk)
              && ShowsFunctions(q.modules, q.version, q.ecl, q.mask) && LooksRight(q.modules, q.version, q.ecl, q.mask)
              && Finished(q.modules, q.version, q.ecl, q.mask, ReadData(q.modules, q.version), msk == -1)
              && Encodes(q.modules, q.version, q.ecl, segs, ecl, minVersion, maxVersion, boost)
              && forall contents ::
                   AllEncodable(contents) && SegmentsOf(contents) == segs ==> ReadSymbol(q.modules) == Some(contents)
  {
    hide Fits, ReadData, ReadSymbol, SegmentsOf, DataCodewords, Capacity, Stream, ShowsFunctions, LooksRight, Finished;
    var plan := PlanSegments(segs, ecl, minVersion, maxVersion, msk, boost);
    if plan.Err? {
      return Err(plan.error);
    }
    var Plan(version, level, codewords) := plan.value;
    PlanLength(plan.value, segs, ecl, minVersion, maxVersion, boost);
    r := Create(version, level, codewords, msk);
    var q := r.value;
    forall contents | AllEncodable(contents) && SegmentsOf(contents) == segs
      ensures ReadSymbol(q.modules) == Some(contents)
    {
      EncodesReadsBack(contents, q.modules, q.version, q.ecl, ecl, minVersion, maxVersion, boost);
    }
  }

  lemma PlanLength(plan: Plan, segs: seq<Segment>, ecl: Ecc, minVersion: int, maxVersion: int, boost: bool)
    requires ValidArguments(minVersion, maxVersion, -1) && BestPlan(plan, segs, ecl, minVersion, maxVersion, boost)
    ensures |plan.codewords| == DataCodewords(plan.version, plan.ecl)
  {
    hide Stream, CountsFit, Capacity, DataCodewords, Padded;
    CapacityBytes(plan.version, plan.ecl);
  }

  /*---- encodeText and encodeBinary ----*/

  /** makeSegments */
  method MakeSegments(text: cstring) returns (r: Result<seq<Segment>>)
    ensures r.Ok? <==> AllEncodable(ContentsOf(text))
    ensures r.Ok? ==> r.value == SegmentsOf(ContentsOf(text))
    ensures r.Err? ==> r.error == LengthError && |text| > INT_MAX
  {
    hide SegmentOf;
    var contents := ContentsOf(text);
    if text == "" {
      return Ok([]);
    }
    var seg: Result<Segment>;
    if IsNumeric(text) {
      seg := MakeNumeric(text);
    } else if IsAlphanumeric(text) {
      seg := MakeAlphanumeric(text);
    } else {
      seg := MakeBytes(CharBytes(text));
    }
    assert contents != [] && (AllEncodable(contents) <==> Encodable(contents[0]));
    if seg.Err? {
      return Err(seg.error);
    }
    assert AllEncodable(contents) && SegmentsOf(contents) == [seg.value];
    return Ok([seg.value]);
  }

  /** Whoever reads the symbol reads the text. */
  ghost predicate Shows(g: Grid, text: cstring) {
    var contents := ReadSymbol(g);
    contents.Some? && TextOf(contents.value) == text
  }

  /** The symbol has the least version that the text fits, and then the highest level. */
  ghost predicate EncodesText(g: Grid, ver: int, level: Ecc, text: cstring, ecl: Ecc) {
    && Version(ver) && Square(g, SizeOf(ver)) && AllEncodable(ContentsOf(text))
    && Encodes(g, ver, level, SegmentsOf(ContentsOf(text)), ecl, 1, 40, true)
  }

  /*---- The mode is the most efficient one ----*/

  lemma PayloadLength(c: Content)
    requires Encodable(c) && !c.Designator?
    ensures |Payload(c)| == var n := CountOf(c);
            if c.Digital? then 10 * (n / 3) + [0, 4, 7][n % 3]
            else if c.Text? then 11 * (n / 2) + 6 * (n % 2) else 8 * n
  {
    hide Pack, CharValue;
    match c
    case Digital(s) => DigitsLength(DigitValues(s));
    case Text(s) => PairsLength(CharValues(s));
    case Binary(_) =>
  }

  /** What a count of n takes in each mode. */
  lemma ModeOrder(n: nat)
    requires n >= 1
    ensures 10 * (n / 3) + [0, 4, 7][n % 3] < 11 * (n / 2) + 6 * (n % 2) < 8 * n
    ensures 10 * (n / 3) + [0, 4, 7][n % 3] + 2 <= 8 * n
  {
  }

  lemma RoomFor(ver: int, ecl: Ecc)
    requires Version(ver)
    ensures DataCodewords(ver, ecl) <= 2956 && (ver <= 26 ==> DataCodewords(ver, ecl) <= 1370)
  {
    hide DataCodewords;
    CapacityFalls(ver);
    LargestCapacity(ver);
    if ver <= 26 {
      MiddleCapacity(ver);
    }
  }

  lemma MiddleCapacity(ver: int)
    requires 1 <= ver <= 26
    ensures DataCodewords(ver, Low) <= 1370
  {
  }

  lemma CountPowers()
    ensures Pow2(8) == 256 && Pow2(9) == 512 && Pow2(10) == 1024 && Pow2(11) == 2048 && Pow2(12) == 4096
  {
    assert Pow2(8) == 256;
  }

  /** A content of the same text in a less dense mode fits no better. */
  lemma DenserFits(c: Content, d: Content, ver: int, ecl: Ecc)
    requires Version(ver) && Encodable(c) && Encodable(d) && CountOf(c) == CountOf(d) >= 1
    requires d == c || (d.Digital? && (c.Text? || c.Binary?)) || (d.Text? && c.Binary?)
    ensures Fits([SegmentOf(c)], ver, ecl) ==> Fits([SegmentOf(d)], ver, ecl)
  {
    hide Fits, SegmentOf, DataCodewords, Payload, Pow2;
    OneSegmentFits(c, ver, ecl);
    OneSegmentFits(d, ver, ecl);
    PayloadLength(c);
    PayloadLength(d);
    ModeOrder(CountOf(c));
    RoomFor(ver, ecl);
    CountPowers();
    SixteenBits();
  }

  /** The choice of mode is the most efficient: whatever single segment spells the text fits no better. */
  lemma ModeIsBest(text: cstring, c: Content, ver: int, ecl: Ecc)
    requires Version(ver) && Encodable(c) && TextOf([c]) == text
    ensures AllEncodable(ContentsOf(text))
    ensures Fits([SegmentOf(c)], ver, ecl) ==> Fits(SegmentsOf(ContentsOf(text)), ver, ecl)
  {
    hide Fits, SegmentOf, InCharset;
    assert TextOf([c][1..]) == "";
    if text == "" {
      assert SegmentsOf(ContentsOf(text)) == [];
      EmptyFits(ver, ecl);
    } else {
      var d := ContentsOf(text)[0];
      assert SegmentsOf(ContentsOf(text)) == [SegmentOf(d)];
      SameText(text, c, d);
      DenserFits(c, d, ver, ecl);
    }
  }

  lemma EmptyFits(ver: int, ecl: Ecc)
    requires Version(ver)
    ensures Fits([], ver, ecl)
  {
    hide DataCodewords;
  }

  lemma SameText(text: cstring, c: Content, d: Content)
    requires text != "" && TextOf([c]) == text && Encodable(c) && ContentsOf(text) == [d]
    ensures Encodable(d) && CountOf(c) == CountOf(d) == |text|
    ensures d == c || (d.Digital? && (c.Text? || c.Binary?)) || (d.Text? && c.Binary?)
  {
    hide InCharset;
    assert TextOf([c][1..]) == "";
    if c.Binary? {
      assert d.Binary? ==> d.data == c.data;
    }
  }

  /** No single segment that spells the text fits a smaller version. */
  ghost predicate NoneSmaller(text: cstring, ver: int, ecl: Ecc)
    requires Version(ver)
  {
    forall c, v :: Encodable(c) && TextOf([c]) == text && 1 <= v < ver ==> !Fits([SegmentOf(c)], v, ecl)
  }

  lemma LeastOfAll(g: Grid, ver: int, level: Ecc, text: cstring, ecl: Ecc)
    requires EncodesText(g, ver, level, text, ecl)
    ensures NoneSmaller(text, ver, ecl)
  {
    hide Fits, SegmentOf, ContentsOf, ReadData, Padded, Stream, Capacity, TextOf;
    forall c, v | Encodable(c) && TextOf([c]) == text && 1 <= v < ver
      ensures !Fits([SegmentOf(c)], v, ecl)
    {
      ModeIsBest(text, c, v, ecl);
    }
  }

  /** encodeText */
  method EncodeText(text: cstring, ecl: Ecc) returns (r: Result<QrCode>)
    ensures r.Ok? ==> r.value.Valid() && Shows(r.value.modules, text)
    ensures r.Ok? ==> EncodesText(r.value.modules, r.value.version, r.value.ecl, text, ecl)
    ensures r.Ok? ==> NoneSmaller(text, r.value.version, ecl)
    ensures r == Err(LengthError) <==> !AllEncodable(ContentsOf(text))
    ensures AllEncodable(ContentsOf(text)) ==>
              (r == Err(DataTooLong) <==> forall v :: 1 <= v <= 40 ==> !Fits(SegmentsOf(ContentsOf(text)), v, ecl))
    ensures |text| <= 2953 && ecl == Low ==> r.Ok?
    ensures r.Err? ==> r.error == LengthError || r.error == DataTooLong
  {
    hide Fits, ReadSymbol, SegmentsOf, Encodes, ContentsOf, TextOf, ShowsFunctions, LooksRight, Finished, ReadData,
         NoneSmaller;
    var segs := MakeSegments(text);
    if segs.Err? {
      return Err(segs.error);
    }
    TextOfContents(text);
    if |text| <= 2953 {
      TextFits(text);
    }
    r := EncodeSegments(segs.value, ecl, 1, 40, -1, true);
    if r.Ok? {
      LeastOfAll(r.value.modules, r.value.version, r.value.ecl, text, ecl);
    }
  }

  /** encodeBinary: the bytes come back, and at the low level exactly 2953 of them fit. */
  method EncodeBinary(data: seq<byte>, ecl: Ecc) returns (r: Result<QrCode>)
    ensures r.Ok? ==> ReadSymbol(r.value.modules) == Some([Binary(data)])
    ensures r == Err(LengthError) <==> |data| > INT_MAX
    ensures |data| <= INT_MAX ==>
              (r == Err(DataTooLong) <==> forall v :: 1 <= v <= 40 ==> !Fits([SegmentOf(Binary(data))], v, ecl))
    ensures ecl == Low ==> (r.Ok? <==> |data| <= 2953)
    ensures r.Err? ==> r.error == LengthError || r.error == DataTooLong
  {
    hide Fits, ReadSymbol, Encodes, SegmentOf, ShowsFunctions, LooksRight, Finished, ReadData;
    var seg := MakeBytes(data);
    if seg.Err? {
      return Err(seg.error);
    }
    BinaryLimit(data);
    assert SegmentsOf([Binary(data)]) == [seg.value];
    r := EncodeSegments([seg.value], ecl, 1, 40, -1, true);
  }

  lemma LargestCapacity(ver: int)
    requires Version(ver)
    ensures DataCodewords(ver, Low) <= 2956 && DataCodewords(40, Low) == 2956
  {
  }

  lemma OneSegmentFits(c: Content, ver: int, ecl: Ecc)
    requires Version(ver) && Encodable(c)
    ensures var seg := SegmentOf(c);
            Fits([seg], ver, ecl) <==>
            CountOf(c) < Pow2(NumCharCountBits(ModeOf(c), ver))
            && 4 + NumCharCountBits(ModeOf(c), ver) + |Payload(c)| <= 8 * DataCodewords(ver, ecl)
  {
    hide Payload, NumCharCountBits, DataCodewords, Bits, ModeBits;
    var seg := SegmentOf(c);
    assert Stream([seg], ver) == SegmentBits(seg, ver) + Stream([], ver);
  }

  lemma BinaryLimit(data: seq<byte>)
    requires |data| <= INT_MAX
    ensures |data| <= 2953 ==> Fits([SegmentOf(Binary(data))], 40, Low)
    ensures |data| > 2953 ==> forall v :: 1 <= v <= 40 ==> !Fits([SegmentOf(Binary(data))], v, Low)
  {
    hide Fits, SegmentOf, DataCodewords, ByteBits;
    SixteenBits();
    OneSegmentFits(Binary(data), 40, Low);
    LargestCapacity(40);
    forall v | 1 <= v <= 40 && |data| > 2953
      ensures !Fits([SegmentOf(Binary(data))], v, Low)
    {
      OneSegmentFits(Binary(data), v, Low);
      LargestCapacity(v);
      if v <= 9 {
        SmallCapacity(v);
      }
    }
  }

  /** Exactly how many bytes fit on both sides of the versions where the count field widens. */
  lemma ByteLimits(data: seq<byte>)
    requires |data| <= INT_MAX
    ensures Fits([SegmentOf(Binary(data))], 9, Low) <==> |data| <= 230
    ensures Fits([SegmentOf(Binary(data))], 10, Low) <==> |data| <= 271
    ensures Fits([SegmentOf(Binary(data))], 26, Low) <==> |data| <= 1367
    ensures Fits([SegmentOf(Binary(data))], 27, Low) <==> |data| <= 1465
  {
    hide Fits, SegmentOf, DataCodewords, ByteBits;
    SixteenBits();
    BoundaryCapacities();
    assert Pow2(8) == 256;
    OneSegmentFits(Binary(data), 9, Low);
    OneSegmentFits(Binary(data), 10, Low);
    OneSegmentFits(Binary(data), 26, Low);
    OneSegmentFits(Binary(data), 27, Low);
  }

  lemma BoundaryCapacities()
    ensures DataCodewords(9, Low) == 232 && DataCodewords(10, Low) == 274
    ensures DataCodewords(26, Low) == 1370 && DataCodewords(27, Low) == 1468
  {
  }

  lemma SmallCapacity(ver: int)
    requires 1 <= ver <= 9
    ensures DataCodewords(ver, Low) <= 292
  {
  }

  lemma SixteenBits()
    ensures Pow2(13) == 8192 && Pow2(14) == 16384 && Pow2(16) == 65536
  {
    assert Pow2(8) == 256;
    assert Pow2(16) == 4 * Pow2(14) == 8 * Pow2(13) == 256 * Pow2(8);
  }

  lemma TextFits(text: cstring)
    requires |text| <= 2953 && AllEncodable(ContentsOf(text))
    ensures Fits(SegmentsOf(ContentsOf(text)), 40, Low)
  {
    hide Fits, SegmentOf, DataCodewords, ByteBits, Pack, DigitValues, CharValues;
    LargestCapacity(40);
    SixteenBits();
    if text == "" {
      NothingFits();
      assert SegmentsOf(ContentsOf(text)) == [];
    } else {
      var c := ContentsOf(text)[0];
      assert SegmentsOf(ContentsOf(text)) == [SegmentOf(c)];
      OneSegmentFits(c, 40, Low);
      if IsNumeric(text) {
        DigitsLength(DigitValues(text));
      } else if IsAlphanumeric(text) {
        PairsLength(CharValues(text));
      }
    }
  }

  lemma NothingFits()
    ensures Fits([], 40, Low)
  {
    hide DataCodewords;
  }
}
