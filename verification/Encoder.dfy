/**
 From segments to data codewords: the length computation, the choice of version and
 error correction level, the terminator and the padding.
 */
module Encoder {
  import opened Bitwise
  import opened GaloisField
  import opened BitBuffers
  import opened Outcomes
  import opened Segments
  import opened SegmentReader
  import opened Sizes

  /*---- getTotalBits ----*/

  lemma StreamPrefix(segs: seq<Segment>, i: nat, ver: int)
    requires Version(ver) && i < |segs|
    ensures Stream(segs[..i + 1], ver) == Stream(segs[..i], ver) + SegmentBits(segs[i], ver)
    ensures |Stream(segs, ver)| >= |Stream(segs[..i + 1], ver)|
  {
    hide SegmentBits;
    assert segs[..i + 1] == segs[..i] + [segs[i]];
    StreamAppend(segs[..i], [segs[i]], ver);
    assert Stream([segs[i]], ver) == SegmentBits(segs[i], ver) + Stream([], ver);
    assert segs == segs[..i + 1] + segs[i + 1..];
    StreamAppend(segs[..i + 1], segs[i + 1..], ver);
  }

  /** -1 exactly when a count overflows its field or the stream is longer than an int can tell. */
  method GetTotalBits(segs: seq<Segment>, ver: int) returns (result: int)
    requires Version(ver)
    ensures result == -1 <==> !CountsFit(segs, ver) || |Stream(segs, ver)| > INT_MAX
    ensures result != -1 ==> result == |Stream(segs, ver)|
  {
    hide SegmentBits, Stream, NumCharCountBits, Pow2;
    result := 0;
    StreamOfNothing(ver);
    for i := 0 to |segs|
      invariant 0 <= result == |Stream(segs[..i], ver)| <= INT_MAX
      invariant CountsFit(segs[..i], ver)
    {
      StreamPrefix(segs, i, ver);
      var seg := segs[i];
      var ccbits := NumCharCountBits(seg.mode, ver);
      if seg.numChars >= Pow2(ccbits) {
        return -1;
      }
      if 4 + ccbits > INT_MAX - result {
        return -1;
      }
      result := result + 4 + ccbits;
      if |seg.data| > INT_MAX - result {
        return -1;
      }
      result := result + |seg.data|;
    }
    assert segs[..|segs|] == segs;
  }

  lemma StreamOfNothing(ver: int)
    requires Version(ver)
    ensures Stream([], ver) == []
  {
  }

  /*---- Terminator and padding ----*/

  /** n bytes alternating between 0xEC and 0x11. */
  function PadBits(n: nat, pad: byte): (b: seq<bool>)
    ensures |b| == 8 * n
    decreases n
  {
    if n == 0 then [] else Bits(pad, 8) + PadBits(n - 1, OtherPad(pad))
  }

  function OtherPad(pad: byte): byte {
    if pad == 0xEC then 0x11 else 0xEC
  }

  function Terminator(size: nat, capacity: nat): nat
    requires size <= capacity
  {
    if capacity - size < 4 then capacity - size else 4
  }

  /** What is missing to a whole number of bytes. */
  function ToByte(n: nat): (r: nat)
    ensures r < 8 && (n + r) % 8 == 0
  {
    (8 - n % 8) % 8
  }

  lemma RoomToByte(n: nat, capacity: nat)
    requires n <= capacity && capacity % 8 == 0
    ensures n + ToByte(n) <= capacity && (capacity - (n + ToByte(n))) % 8 == 0
  {
  }

  function Padded(bits: seq<bool>, capacity: nat): (b: seq<bool>)
    requires |bits| <= capacity && capacity % 8 == 0
    ensures |b| == capacity && bits <= b
  {
    var a := bits + Bits(0, Terminator(|bits|, capacity));
    var b := a + Bits(0, ToByte(|a|));
    RoomToByte(|a|, capacity);
    b + PadBits((capacity - |b|) / 8, 0xEC)
  }

  /** What follows the segments ends the stream for the reader. */
  lemma PaddingEnds(bits: seq<bool>, capacity: nat)
    requires |bits| <= capacity && capacity % 8 == 0
    ensures AtEnd(Padded(bits, capacity)[|bits|..])
  {
    hide Bits, PadBits, Value;
    var tail := Padded(bits, capacity)[|bits|..];
    if |tail| >= 4 {
      assert tail[..4] == Bits(0, 4);
      assert Pow2(4) == 16;
      ValueOfBits(0, 4);
    }
  }

  lemma {:induction false} PadAt(n: nat, pad: byte, m: nat)
    requires (pad == 0xEC || pad == 0x11) && m < n
    ensures PadBits(n, pad)[8 * m..8 * m + 8] == Bits(if m % 2 == 0 then pad else OtherPad(pad), 8)
    decreases n
  {
    hide Bits;
    var rest := PadBits(n - 1, OtherPad(pad));
    assert PadBits(n, pad) == Bits(pad, 8) + rest;
    if m > 0 {
      PadAt(n - 1, OtherPad(pad), m - 1);
      assert PadBits(n, pad)[8 * m..8 * m + 8] == rest[8 * (m - 1)..8 * (m - 1) + 8];
    } else {
      assert PadBits(n, pad)[..8] == Bits(pad, 8);
    }
  }

  /** Where the pad bytes start: after a terminator of four bits, or as many as there is room for, and up to a byte. */
  function PadStart(size: nat, capacity: nat): nat
    requires size <= capacity && capacity % 8 == 0
  {
    var end := size + (if capacity - size < 4 then capacity - size else 4);
    (end + 7) / 8
  }

  /** From there on the bytes are 0xEC and 0x11 in turn. */
  lemma PaddingLayout(bits: seq<bool>, capacity: nat, i: nat)
    requires |bits| <= capacity && capacity % 8 == 0 && PadStart(|bits|, capacity) <= i < capacity / 8
    ensures PackBytes(Padded(bits, capacity))[i] ==
            if (i - PadStart(|bits|, capacity)) % 2 == 0 then 0xEC else 0x11
  {
    hide Bits, PadBits, PackBytes, Value;
    var s, b := PadStart(|bits|, capacity), Padded(bits, capacity);
    var front := bits + Bits(0, Terminator(|bits|, capacity));
    var head := front + Bits(0, ToByte(|front|));
    PadStartIs(|bits|, capacity);
    var n := (capacity - |head|) / 8;
    assert b == head + PadBits(n, 0xEC);
    PadAt(n, 0xEC, i - s);
    PackAt(b, i);
    assert b[8 * i..8 * i + 8] == PadBits(n, 0xEC)[8 * (i - s)..8 * (i - s) + 8];
    assert Pow2(8) == 256;
    ValueOfBits(if (i - s) % 2 == 0 then 0xEC else 0x11, 8);
  }

  lemma PadStartIs(size: nat, capacity: nat)
    requires size <= capacity && capacity % 8 == 0
    ensures var end := size + Terminator(size, capacity);
            end + ToByte(end) == 8 * PadStart(size, capacity) <= capacity
  {
    RoomToByte(size + Terminator(size, capacity), capacity);
  }

  lemma PaddingZeros(bits: seq<bool>, capacity: nat, k: nat)
    requires |bits| <= capacity && capacity % 8 == 0 && |bits| <= k < 8 * PadStart(|bits|, capacity)
    ensures k < capacity && !Padded(bits, capacity)[k]
  {
    hide PadBits;
    PadStartIs(|bits|, capacity);
    var t := Terminator(|bits|, capacity);
    var end := |bits| + t;
    if k < end {
      BitsAt(0, t, k - |bits|);
      NoBits(t - 1 - (k - |bits|));
    } else {
      BitsAt(0, ToByte(end), k - end);
      NoBits(ToByte(end) - 1 - (k - end));
    }
  }

  lemma PadToggles()
    ensures Xor(0xEC, Xor(0xEC, 0x11)) == 0x11 && Xor(0x11, Xor(0xEC, 0x11)) == 0xEC
  {
    hide Xor;
    XorCommutes(0xEC, 0x11);
    XorCommutes(0xEC, Xor(0x11, 0xEC));
    XorCommutes(0x11, Xor(0xEC, 0x11));
    XorCancel(0xEC, 0x11);
    XorCancel(0x11, 0xEC);
  }

  /** Pad with alternating bytes until the capacity is reached. */
  method AppendPadBytes(bb: BitBuffer, capacity: nat)
    requires |bb.bits| <= capacity && (capacity - |bb.bits|) % 8 == 0
    modifies bb
    ensures bb.bits == old(bb.bits) + PadBits((capacity - |old(bb.bits)|) / 8, 0xEC)
  {
    hide Bits, Xor;
    ghost var before, n := bb.bits, (capacity - |bb.bits|) / 8;
    var padByte: byte := 0xEC;
    ghost var k := 0;
    while |bb.bits| < capacity
      invariant k <= n && |bb.bits| == |before| + 8 * k
      invariant padByte == 0xEC || padByte == 0x11
      invariant bb.bits + PadBits(n - k, padByte) == before + PadBits(n, 0xEC)
      decreases capacity - |bb.bits|
    {
      PadToggles();
      assert Pow2(8) == 256;
      assert PadBits(n - k, padByte) == Bits(padByte, 8) + PadBits(n - k - 1, OtherPad(padByte));
      var ok := bb.AppendBits(padByte, 8);
      padByte := Xor(padByte, Xor(0xEC, 0x11));
      k := k + 1;
    }
    assert PadBits(0, padByte) == [];
  }

  method AddPadding(bb: BitBuffer, capacity: nat)
    requires |bb.bits| <= capacity && capacity % 8 == 0
    modifies bb
    ensures bb.bits == Padded(old(bb.bits), capacity)
  {
    hide Bits, PadBits, Pow2;
    ZeroFits();
    var ok := bb.AppendBits(0, Terminator(|bb.bits|, capacity));
    assert ok;
    RoomToByte(|bb.bits|, capacity);
    ok := bb.AppendBits(0, (8 - |bb.bits| % 8) % 8);
    assert ok;
    AppendPadBytes(bb, capacity);
  }

  lemma ZeroFits()
    ensures forall n: nat :: 0 < Pow2(n)
  {
  }

  /*---- Packing the bits into bytes ----*/

  lemma {:induction false} SetBit(b: seq<bool>, j: nat)
    requires j < |b| && !b[j]
    ensures Value(b[j := true]) == Value(b) + Pow2(|b| - 1 - j)
  {
    var n := |b| - 1;
    if j == n {
      assert b[j := true][..n] == b[..n];
    } else {
      assert b[j := true][..n] == b[..n][j := true];
      SetBit(b[..n], j);
    }
  }

  lemma SetByteBit(bits: seq<bool>, i: nat)
    requires i < |bits| && |bits| % 8 == 0 && !bits[i]
    ensures PackBytes(bits[i := true])[i / 8] == PackBytes(bits)[i / 8] + Pow2(7 - i % 8)
  {
    hide Value, PackBytes, Pow2;
    var after, k := bits[i := true], i / 8;
    var field := bits[8 * k..8 * k + 8];
    SetBit(field, i % 8);
    assert after[8 * k..8 * k + 8] == field[i % 8 := true];
    PackAt(bits, k);
    PackAt(after, k);
  }

  lemma OtherByte(bits: seq<bool>, i: nat, m: nat)
    requires i < |bits| && |bits| % 8 == 0 && m < |bits| / 8 && m != i / 8
    ensures PackBytes(bits[i := true])[m] == PackBytes(bits)[m]
  {
    hide Value, PackBytes;
    var after := bits[i := true];
    PackAt(bits, m);
    PackAt(after, m);
    assert after[8 * m..8 * m + 8] == bits[8 * m..8 * m + 8];
  }

  lemma SetStreamBit(bits: seq<bool>, i: nat)
    requires i < |bits| && |bits| % 8 == 0 && !bits[i]
    ensures PackBytes(bits)[i / 8] + Pow2(7 - i % 8) < 256
    ensures PackBytes(bits[i := true])
            == PackBytes(bits)[i / 8 := PackBytes(bits)[i / 8] + Pow2(7 - i % 8)]
  {
    hide Value, PackBytes, Pow2;
    SetByteBit(bits, i);
    forall m | 0 <= m < |bits| / 8 && m != i / 8
      ensures PackBytes(bits[i := true])[m] == PackBytes(bits)[m]
    {
      OtherByte(bits, i, m);
    }
  }

  /** Pack bits into bytes, most significant bit first. */
  method PackCodewords(bits: seq<bool>) returns (codewords: seq<byte>)
    requires |bits| % 8 == 0
    ensures codewords == PackBytes(bits)
  {
    hide PackBytes, Pow2;
    var dataCodewords := new byte[|bits| / 8](_ => 0);
    ghost var shown := seq(|bits|, _ => false);
    BlankBytes(|bits|);
    for i := 0 to |bits|
      invariant |shown| == |bits|
      invariant forall k :: 0 <= k < |bits| ==> shown[k] == (k < i && bits[k])
      invariant dataCodewords[..] == PackBytes(shown)
    {
      if bits[i] {
        SetStreamBit(shown, i);
        // The bit is still clear, so |= is addition.
        dataCodewords[i / 8] := dataCodewords[i / 8] + Pow2(7 - i % 8);
        shown := shown[i := true];
      }
    }
    assert shown == bits;
    codewords := dataCodewords[..];
  }

  lemma BlankBytes(n: nat)
    requires n % 8 == 0
    ensures PackBytes(seq(n, _ => false)) == seq(n / 8, _ => 0)
  {
    var b := seq(n, _ => false);
    forall k | 0 <= k < n / 8
      ensures PackBytes(b)[k] == 0
    {
      PackAt(b, k);
      ValueOfFalse(b[8 * k..8 * k + 8]);
    }
  }

  lemma {:induction false} ValueOfFalse(b: seq<bool>)
    requires forall i :: 0 <= i < |b| ==> !b[i]
    ensures Value(b) == 0
  {
    if b != [] {
      ValueOfFalse(b[..|b| - 1]);
    }
  }

  /*---- encodeSegments, up to the data codewords ----*/

  datatype Plan = Plan(version: int, ecl: Ecc, codewords: seq<byte>)

  /** The number of data bits. */
  function Capacity(ver: int, ecl: Ecc): (r: nat)
    requires Version(ver)
    ensures r % 8 == 0
  {
    CapacityFalls(ver);
    8 * DataCodewords(ver, ecl)
  }

  predicate Fits(segs: seq<Segment>, ver: int, ecl: Ecc)
    requires Version(ver)
  {
    CountsFit(segs, ver) && |Stream(segs, ver)| <= Capacity(ver, ecl)
  }

  predicate ValidArguments(minVersion: int, maxVersion: int, mask: int) {
    1 <= minVersion <= maxVersion <= 40 && -1 <= mask <= 7
  }

  /** The least version that fits at the requested level, and the best level for it. */
  ghost predicate BestPlan(plan: Plan, segs: seq<Segment>, ecl: Ecc, minVersion: int, maxVersion: int, boost: bool)
    requires ValidArguments(minVersion, maxVersion, -1)
  {
    && minVersion <= plan.version <= maxVersion
    && Fits(segs, plan.version, ecl)
    && (forall v :: minVersion <= v < plan.version ==> !Fits(segs, v, ecl))
    && Fits(segs, plan.version, plan.ecl)
    && Rank(ecl) <= Rank(plan.ecl)
    && (boost ==> forall e: Ecc :: Fits(segs, plan.version, e) ==> Rank(e) <= Rank(plan.ecl))
    && (!boost ==> plan.ecl == ecl)
    && plan.codewords == PackBytes(Padded(Stream(segs, plan.version), Capacity(plan.version, plan.ecl)))
  }

  lemma CapacityBound(ver: int, ecl: Ecc)
    requires Version(ver)
    ensures Capacity(ver, ecl) <= 29648
  {
    hide EccPerBlock, NumBlocks, RawDataModules;
    RawRange(ver);
    EccRange(ver, ecl);
    assert EccPerBlock(ecl, ver) * NumBlocks(ecl, ver) >= 0;
  }

  /** The version search: the first version that fits, or none. */
  method FindVersion(segs: seq<Segment>, ecl: Ecc, minVersion: int, maxVersion: int)
    returns (version: int, dataUsedBits: int)
    requires ValidArguments(minVersion, maxVersion, -1)
    ensures minVersion <= version <= maxVersion + 1
    ensures forall v :: minVersion <= v < version ==> !Fits(segs, v, ecl)
    ensures version <= maxVersion ==> Fits(segs, version, ecl) && dataUsedBits == |Stream(segs, version)|
  {
    hide Stream, CountsFit, Capacity;
    version := minVersion;
    while true
      invariant minVersion <= version <= maxVersion
      invariant forall v :: minVersion <= v < version ==> !Fits(segs, v, ecl)
      decreases maxVersion - version
    {
      CapacityBound(version, ecl);
      var dataCapacityBits := Capacity(version, ecl);
      dataUsedBits := GetTotalBits(segs, version);
      if dataUsedBits != -1 && dataUsedBits <= dataCapacityBits {
        return;
      }
      version := version + 1;
      if version > maxVersion {
        return;
      }
    }
  }

  /** The boosting loop, which may lower the level on its way but never ends below the request. */
  method BoostLevel(segs: seq<Segment>, ecl: Ecc, version: int, dataUsedBits: int, boost: bool) returns (level: Ecc)
    requires Version(version) && Fits(segs, version, ecl) && dataUsedBits == |Stream(segs, version)|
    ensures Fits(segs, version, level) && Rank(ecl) <= Rank(level)
    ensures boost ==> forall e: Ecc :: Fits(segs, version, e) ==> Rank(e) <= Rank(level)
    ensures !boost ==> level == ecl
  {
    hide Stream, CountsFit, DataCodewords;
    CapacityFalls(version);
    var levels := [Medium, Quartile, High];
    level := ecl;
    for i := 0 to 3
      invariant Fits(segs, version, level)
      invariant level == ecl || (boost && Rank(level) <= i)
      invariant boost ==> forall e: Ecc :: Fits(segs, version, e) && 1 <= Rank(e) <= i ==> Rank(e) <= Rank(level)
      invariant !boost ==> level == ecl
    {
      if boost && dataUsedBits <= Capacity(version, levels[i]) {
        level := levels[i];
      }
    }
    assert Rank(ecl) >= 1 ==> Rank(ecl) <= Rank(level);
  }

  /** The concatenation loop. */
  method Concatenate(segs: seq<Segment>, version: int) returns (bb: BitBuffer)
    requires Version(version) && CountsFit(segs, version) && |Stream(segs, version)| <= INT_MAX
    ensures fresh(bb) && bb.bits == Stream(segs, version)
  {
    hide Bits, Stream, NumCharCountBits;
    bb := new BitBuffer();
    StreamOfNothing(version);
    for i := 0 to |segs|
      invariant bb.bits == Stream(segs[..i], version)
    {
      var seg := segs[i];
      StreamPrefix(segs, i, version);
      assert Pow2(4) == 16;
      var ok := bb.AppendBits(ModeBits(seg.mode), 4);
      assert ok;
      CountFieldRange(seg, version);
      ok := bb.AppendBits(seg.numChars, NumCharCountBits(seg.mode, version));
      assert ok;
      bb.bits := bb.bits + seg.data;
    }
    assert segs[..|segs|] == segs;
  }

  lemma CountFieldRange(seg: Segment, ver: int)
    requires Version(ver) && seg.numChars < Pow2(NumCharCountBits(seg.mode, ver))
    ensures seg.numChars < 65536
  {
    assert Pow2(10) == 1024 && Pow2(16) == 64 * Pow2(10);
    assert Pow2(8) == 256 && Pow2(9) == 512 && Pow2(11) == 2048 && Pow2(12) == 4096;
    assert Pow2(13) == 8192 && Pow2(14) == 16384;
  }

  method PlanSegments(segs: seq<Segment>, ecl: Ecc, minVersion: int, maxVersion: int, mask: int, boost: bool)
    returns (r: Result<Plan>)
    ensures r == Err(InvalidArgument) <==> !ValidArguments(minVersion, maxVersion, mask)
    ensures ValidArguments(minVersion, maxVersion, mask) ==>
              (r == Err(DataTooLong) <==> forall v :: minVersion <= v <= maxVersion ==> !Fits(segs, v, ecl))
    ensures r.Ok? ==> BestPlan(r.value, segs, ecl, minVersion, maxVersion, boost)
    ensures r.Err? ==> r.error == InvalidArgument || r.error == DataTooLong
  {
    hide Stream, CountsFit, Padded, Capacity;
    if !(1 <= minVersion && minVersion <= maxVersion && maxVersion <= 40) || mask < -1 || mask > 7 {
      return Err(InvalidArgument);
    }
    var version, dataUsedBits := FindVersion(segs, ecl, minVersion, maxVersion);
    if version > maxVersion {
      return Err(DataTooLong);
    }
    var level := BoostLevel(segs, ecl, version, dataUsedBits, boost);
    CapacityBound(version, level);
    var bb := Concatenate(segs, version);
    var capacity := Capacity(version, level);
    CapacityBytes(version, level);
    AddPadding(bb, capacity);
    var codewords := PackCodewords(bb.bits);
    return Ok(Plan(version, level, codewords));
  }

  lemma CapacityBytes(ver: int, ecl: Ecc)
    requires Version(ver)
    ensures Capacity(ver, ecl) % 8 == 0 && Capacity(ver, ecl) / 8 == DataCodewords(ver, ecl)
  {
    hide DataCodewords;
  }

  /**
   Round trip of the bit stream: the data codewords of factory-made segments are exactly
   as many as the symbol holds, and the reader finds the contents in them.
   */
  lemma PlanReadsBack(contents: seq<Content>, plan: Plan, ecl: Ecc, minVersion: int, maxVersion: int, boost: bool)
    requires AllEncodable(contents) && ValidArguments(minVersion, maxVersion, -1)
    requires BestPlan(plan, SegmentsOf(contents), ecl, minVersion, maxVersion, boost)
    ensures |plan.codewords| == DataCodewords(plan.version, plan.ecl)
    ensures ReadSegments(ByteBits(plan.codewords), plan.version) == Some(contents)
  {
    hide Stream, CountsFit, Padded, Capacity, DataCodewords, ReadSegments, AtEnd, ByteBits, PackBytes, SegmentsOf;
    var stream, capacity := Stream(SegmentsOf(contents), plan.version), Capacity(plan.version, plan.ecl);
    CapacityBytes(plan.version, plan.ecl);
    var padded := Padded(stream, capacity);
    ByteBitsOfPack(padded);
    PaddingEnds(stream, capacity);
    ReadStream(contents, plan.version, padded[|stream|..]);
    assert padded == stream + padded[|stream|..];
  }
}
