/**
 The bit stream of a list of segments, and a reader of such streams (the reference
 decoder of sections 7.4.2 to 7.4.10 of ISO/IEC 18004) that recovers the contents.
 */
module SegmentReader {
  import opened Bitwise
  import opened BitBuffers
  import opened Outcomes
  import opened Segments

  /** Mode indicator, character count and data of one segment. */
  function SegmentBits(seg: Segment, ver: int): (b: seq<bool>)
    requires Version(ver)
    ensures |b| == 4 + NumCharCountBits(seg.mode, ver) + |seg.data|
  {
    Bits(ModeBits(seg.mode), 4) + Bits(seg.numChars, NumCharCountBits(seg.mode, ver)) + seg.data
  }

  function Stream(segs: seq<Segment>, ver: int): seq<bool>
    requires Version(ver)
  {
    if segs == [] then [] else SegmentBits(segs[0], ver) + Stream(segs[1..], ver)
  }

  lemma {:induction false} StreamAppend(a: seq<Segment>, b: seq<Segment>, ver: int)
    requires Version(ver)
    ensures Stream(a + b, ver) == Stream(a, ver) + Stream(b, ver)
  {
    if a == [] {
      assert a + b == b;
    } else {
      assert (a + b)[1..] == a[1..] + b;
      StreamAppend(a[1..], b, ver);
    }
  }

  /*---- The reader ----*/

  function DigitChars(vals: seq<nat>): Option<string> {
    if forall i :: 0 <= i < |vals| ==> vals[i] < 10
    then Some(seq(|vals|, i requires 0 <= i < |vals| && vals[i] < 10 => ('0' as int + vals[i]) as char))
    else None
  }

  /** The character of a value in alphanumeric mode: digits, letters, and nine others. */
  function CharOf(v: nat): char
    requires v < 45
  {
    if v < 10 then ('0' as int + v) as char
    else if v < 36 then ('A' as int + v - 10) as char
    else " $%*+-./:"[v - 36]
  }

  function CharsetChars(vals: seq<nat>): Option<string> {
    if forall i :: 0 <= i < |vals| ==> vals[i] < 45
    then Some(seq(|vals|, i requires 0 <= i < |vals| && vals[i] < 45 => CharOf(vals[i])))
    else None
  }

  /** The width of the character count, by ranges of versions. */
  function CountWidth(mode: Mode, ver: int): nat {
    match mode
    case Numeric => if ver <= 9 then 10 else if ver <= 26 then 12 else 14
    case Alphanumeric => if ver <= 9 then 9 else if ver <= 26 then 11 else 13
    case Bytes => if ver <= 9 then 8 else 16
    case Kanji => if ver <= 9 then 8 else if ver <= 26 then 10 else 12
    case Eci => 0
  }

  function ReadDesignator(bits: seq<bool>): Option<(Content, seq<bool>)> {
    if |bits| >= 8 && !bits[0] then Some((Designator(Value(bits[..8])), bits[8..]))
    else if |bits| >= 16 && !bits[1] then Some((Designator(Value(bits[2..16])), bits[16..]))
    else if |bits| >= 24 && !bits[2] then Some((Designator(Value(bits[3..24])), bits[24..]))
    else None
  }

  /** The payload of a segment of the given mode and count, and the bits that follow it. */
  function ReadPayload(mode: Mode, count: nat, bits: seq<bool>): Option<(Content, seq<bool>)> {
    match mode
    case Numeric =>
      (match Unpack(bits, count, DIGITS)
       case None => None
       case Some(r) =>
         match DigitChars(r.0)
         case None => None
         case Some(s) => Some((Digital(s), r.1)))
    case Alphanumeric =>
      (match Unpack(bits, count, PAIRS)
       case None => None
       case Some(r) =>
         match CharsetChars(r.0)
         case None => None
         case Some(s) => Some((Text(s), r.1)))
    case Bytes =>
      if |bits| < 8 * count then None
      else Some((Binary(PackBytes(bits[..8 * count])), bits[8 * count..]))
    case Eci => ReadDesignator(bits)
    case Kanji => None
  }

  function ModeOfBits(m: nat): Option<Mode> {
    match m
    case 1 => Some(Numeric)
    case 2 => Some(Alphanumeric)
    case 4 => Some(Bytes)
    case 7 => Some(Eci)
    case 8 => Some(Kanji)
    case _ => None
  }

  /** No further segment: fewer than four bits, or the terminator. */
  predicate AtEnd(bits: seq<bool>) {
    |bits| < 4 || Value(bits[..4]) == 0
  }

  function ReadSegments(bits: seq<bool>, ver: int): Option<seq<Content>>
    requires Version(ver)
    decreases |bits|
  {
    if AtEnd(bits) then Some([])
    else
      match ModeOfBits(Value(bits[..4]))
      case None => None
      case Some(mode) =>
        var w := CountWidth(mode, ver);
        if |bits| < 4 + w then None
        else
          match ReadPayload(mode, Value(bits[4..4 + w]), bits[4 + w..])
          case None => None
          case Some(r) =>
            if |r.1| >= |bits| then None
            else
              match ReadSegments(r.1, ver)
              case None => None
              case Some(rest) => Some([r.0] + rest)
  }

  /*---- Reading back ----*/

  lemma DigitRoundTrip(s: string)
    requires IsNumeric(s)
    ensures Below(DigitValues(s), 10) && DigitChars(DigitValues(s)) == Some(s)
  {
    var v := DigitValues(s);
    assert forall i :: 0 <= i < |s| ==> IsDigit(s[i]) && v[i] == s[i] as int - '0' as int;
    assert DigitChars(v).value == s;
  }

  lemma DigitOf(v: nat)
    requires v < 10
    ensures CharOf(v) == DIGIT_CHARS[v]
  {
    match v
    case 0 => assert DIGIT_CHARS[0] == '0';
    case 1 => assert DIGIT_CHARS[1] == '1';
    case 2 => assert DIGIT_CHARS[2] == '2';
    case 3 => assert DIGIT_CHARS[3] == '3';
    case 4 => assert DIGIT_CHARS[4] == '4';
    case 5 => assert DIGIT_CHARS[5] == '5';
    case 6 => assert DIGIT_CHARS[6] == '6';
    case 7 => assert DIGIT_CHARS[7] == '7';
    case 8 => assert DIGIT_CHARS[8] == '8';
    case _ => assert DIGIT_CHARS[9] == '9';
  }

  lemma LetterOf(v: nat)
    requires v < 26
    ensures CharOf(v + 10) == LETTERS[v]
  {
    match v
    case 0 => assert LETTERS[0] == 'A';
    case 1 => assert LETTERS[1] == 'B';
    case 2 => assert LETTERS[2] == 'C';
    case 3 => assert LETTERS[3] == 'D';
    case 4 => assert LETTERS[4] == 'E';
    case 5 => assert LETTERS[5] == 'F';
    case 6 => assert LETTERS[6] == 'G';
    case 7 => assert LETTERS[7] == 'H';
    case 8 => assert LETTERS[8] == 'I';
    case 9 => assert LETTERS[9] == 'J';
    case 10 => assert LETTERS[10] == 'K';
    case 11 => assert LETTERS[11] == 'L';
    case 12 => assert LETTERS[12] == 'M';
    case 13 => assert LETTERS[13] == 'N';
    case 14 => assert LETTERS[14] == 'O';
    case 15 => assert LETTERS[15] == 'P';
    case 16 => assert LETTERS[16] == 'Q';
    case 17 => assert LETTERS[17] == 'R';
    case 18 => assert LETTERS[18] == 'S';
    case 19 => assert LETTERS[19] == 'T';
    case 20 => assert LETTERS[20] == 'U';
    case 21 => assert LETTERS[21] == 'V';
    case 22 => assert LETTERS[22] == 'W';
    case 23 => assert LETTERS[23] == 'X';
    case 24 => assert LETTERS[24] == 'Y';
    case _ => assert LETTERS[25] == 'Z';
  }

  /** The value of a character is its place in the set. */
  lemma CharOfValue(v: nat)
    requires v < 45
    ensures CharOf(v) == CHARSET[v]
  {
    if v < 10 {
      DigitOf(v);
    } else if v < 36 {
      LetterOf(v - 10);
    }
  }

  /** The widths that the encoder takes from its table are those that a reader expects. */
  lemma CountWidthIs(mode: Mode, ver: int)
    requires Version(ver)
    ensures NumCharCountBits(mode, ver) == CountWidth(mode, ver)
  {
  }

  lemma CharRoundTrip(s: string)
    requires IsAlphanumeric(s)
    ensures Below(CharValues(s), 45) && CharsetChars(CharValues(s)) == Some(s)
  {
    hide InCharset, CharValue, CharOf;
    forall i | 0 <= i < |s|
      ensures CharOf(CharValue(s[i])) == s[i]
    {
      CharOfValue(CharValue(s[i]));
    }
    assert CharsetChars(CharValues(s)).value == s;
  }

  lemma DesignatorRoundTrip(v: nat, rest: seq<bool>)
    requires v < 1000000
    ensures ReadDesignator(EciBits(v) + rest) == Some((Designator(v), rest))
  {
    hide Bits, Value;
    var b := EciBits(v) + rest;
    assert Pow2(7) == 128 && Pow2(8) == 256 && Pow2(14) == 16384 && Pow2(21) == 2097152;
    if v < 128 {
      FirstBit(v, 7);
      ValueOfBits(v, 8);
      assert b[..8] == Bits(v, 8) && b[8..] == rest;
    } else if v < 16384 {
      PrefixBits();
      ValueOfBits(v, 14);
      assert b[0] == Bits(2, 2)[0] && b[1] == Bits(2, 2)[1];
      assert b[2..16] == Bits(v, 14) && b[16..] == rest;
    } else {
      PrefixBits();
      ValueOfBits(v, 21);
      assert b[0] == Bits(6, 3)[0] && b[1] == Bits(6, 3)[1] && b[2] == Bits(6, 3)[2];
      assert b[3..24] == Bits(v, 21) && b[24..] == rest;
    }
  }

  lemma FirstBit(v: nat, n: nat)
    requires v < Pow2(n)
    ensures !Bits(v, n + 1)[0]
  {
    BitsAt(v, n + 1, 0);
    ShrIsZero(v, n);
  }

  lemma PrefixBits()
    ensures Bits(2, 2) == [true, false] && Bits(6, 3) == [true, true, false]
  {
    assert Bits(1, 1) == [true];
    assert Bits(3, 2) == [true, true];
  }

  lemma PayloadRoundTrip(c: Content, rest: seq<bool>)
    requires Encodable(c)
    ensures ReadPayload(ModeOf(c), CountOf(c), Payload(c) + rest) == Some((c, rest))
  {
    hide Pack, Unpack, ByteBits, PackBytes, EciBits, ReadDesignator, DigitChars, CharsetChars, DigitValues,
         CharValues, ValidPacking, Below;
    PackingsValid();
    match c
    case Digital(s) =>
      DigitRoundTrip(s);
      UnpackPack(DigitValues(s), DIGITS, rest);
    case Text(s) =>
      CharRoundTrip(s);
      UnpackPack(CharValues(s), PAIRS, rest);
    case Binary(data) =>
      var b := ByteBits(data) + rest;
      assert b[..8 * |data|] == ByteBits(data) + [] && b[8 * |data|..] == rest;
      PackOfByteBits(data, []);
    case Designator(v) =>
      DesignatorRoundTrip(v, rest);
  }

  lemma ModeRoundTrip(m: Mode)
    ensures Value(Bits(ModeBits(m), 4)) == ModeBits(m) && ModeOfBits(ModeBits(m)) == Some(m)
  {
    assert Pow2(4) == 16;
    ValueOfBits(ModeBits(m), 4);
  }

  predicate AllEncodable(contents: seq<Content>) {
    forall i :: 0 <= i < |contents| ==> Encodable(contents[i])
  }

  function SegmentsOf(contents: seq<Content>): (s: seq<Segment>)
    requires AllEncodable(contents)
    ensures |s| == |contents|
  {
    seq(|contents|, i requires 0 <= i < |contents| => SegmentOf(contents[i]))
  }

  /** Every character count fits its field. */
  predicate CountsFit(segs: seq<Segment>, ver: int)
    requires Version(ver)
  {
    forall i :: 0 <= i < |segs| ==> segs[i].numChars < Pow2(NumCharCountBits(segs[i].mode, ver))
  }

  lemma ReadOne(c: Content, ver: int, more: seq<bool>)
    requires Version(ver) && Encodable(c) && CountOf(c) < Pow2(NumCharCountBits(ModeOf(c), ver))
    ensures ReadSegments(SegmentBits(SegmentOf(c), ver) + more, ver)
            == match ReadSegments(more, ver)
               case None => None
               case Some(rest) => Some([c] + rest)
  {
    hide Bits, Value, Pow2, NumCharCountBits, CountWidth, Payload, ReadPayload, ModeOf, CountOf, ModeBits, ModeOfBits;
    var m, w := ModeOf(c), NumCharCountBits(ModeOf(c), ver);
    var b := SegmentBits(SegmentOf(c), ver) + more;
    CountWidthIs(m, ver);
    ModeRoundTrip(m);
    ValueOfBits(CountOf(c), w);
    PayloadRoundTrip(c, more);
    assert b[..4] == Bits(ModeBits(m), 4);
    assert b[4..4 + w] == Bits(CountOf(c), w);
    assert b[4 + w..] == Payload(c) + more;
  }

  /** Reading the stream of factory-made segments gives back their contents. */
  lemma {:induction false} ReadStream(contents: seq<Content>, ver: int, tail: seq<bool>)
    requires Version(ver) && AllEncodable(contents) && CountsFit(SegmentsOf(contents), ver) && AtEnd(tail)
    ensures ReadSegments(Stream(SegmentsOf(contents), ver) + tail, ver) == Some(contents)
  {
    hide SegmentBits, SegmentOf, ReadSegments, Pow2, AtEnd, NumCharCountBits;
    var segs := SegmentsOf(contents);
    if contents == [] {
      assert Stream(segs, ver) + tail == tail;
      EndOfStream(tail, ver);
    } else {
      var c, rest := contents[0], contents[1..];
      assert segs[1..] == SegmentsOf(rest);
      var more := Stream(segs[1..], ver) + tail;
      assert Stream(segs, ver) + tail == SegmentBits(SegmentOf(c), ver) + more;
      assert segs[0] == SegmentOf(c);
      CountField(c);
      ReadOne(c, ver, more);
      ReadStream(rest, ver, tail);
      assert contents == [c] + rest;
    }
  }

  lemma EndOfStream(tail: seq<bool>, ver: int)
    requires Version(ver) && AtEnd(tail)
    ensures ReadSegments(tail, ver) == Some([])
  {
  }

  lemma CountField(c: Content)
    requires Encodable(c)
    ensures SegmentOf(c).mode == ModeOf(c) && SegmentOf(c).numChars == CountOf(c)
  {
  }
}
