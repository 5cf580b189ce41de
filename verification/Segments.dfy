/**
 Segments of a QR Code: the factory functions and, for each of them, the reader that
 recovers the original content from the bits.
 */
module Segments {
  import opened Arithmetic
  import opened Bitwise
  import opened GaloisField
  import opened BitBuffers
  import opened Outcomes

  const INT_MAX: nat := 0x7FFF_FFFF

  datatype Mode = Numeric | Alphanumeric | Bytes | Kanji | Eci

  function ModeBits(m: Mode): (r: nat)
    ensures 0 < r < 16
  {
    match m
    case Numeric => 0x1
    case Alphanumeric => 0x2
    case Bytes => 0x4
    case Kanji => 0x8
    case Eci => 0x7
  }

  function CountWidths(m: Mode): (w: seq<nat>)
    ensures |w| == 3 && forall i :: 0 <= i < 3 ==> w[i] <= 16
  {
    match m
    case Numeric => [10, 12, 14]
    case Alphanumeric => [9, 11, 13]
    case Bytes => [8, 16, 16]
    case Kanji => [8, 10, 12]
    case Eci => [0, 0, 0]
  }

  predicate Version(ver: int) {
    1 <= ver <= 40
  }

  /** The width of the character count field. */
  function NumCharCountBits(m: Mode, ver: int): (r: nat)
    requires Version(ver)
    ensures r <= 16
  {
    CountWidths(m)[(ver + 7) / 17]
  }

  datatype Segment = Segment(mode: Mode, numChars: nat, data: seq<bool>)

  /*---- Groups of characters packed into bit fields ----*/

  /** Groups of up to `group` values below `base`; a group of k values takes widths[k] bits. */
  datatype Packing = Packing(base: nat, group: nat, widths: seq<nat>)

  const DIGITS := Packing(10, 3, [0, 4, 7, 10])
  const PAIRS := Packing(45, 2, [0, 6, 11])

  function Power(base: nat, k: nat): nat {
    if k == 0 then 1 else Power(base, k - 1) * base
  }

  ghost predicate ValidPacking(p: Packing) {
    && p.group >= 1 && p.base >= 1 && |p.widths| == p.group + 1
    && forall k :: 0 <= k <= p.group ==> Power(p.base, k) <= Pow2(p.widths[k])
  }

  lemma PackingsValid()
    ensures ValidPacking(DIGITS) && ValidPacking(PAIRS)
  {
    assert Power(10, 1) == 10 && Power(10, 2) == 100 && Power(10, 3) == 1000;
    assert Pow2(4) == 16 && Pow2(7) == 128 && Pow2(10) == 1024;
    assert Power(45, 1) == 45 && Power(45, 2) == 2025;
    assert Pow2(6) == 64 && Pow2(11) == 2048;
  }

  predicate Below(vals: seq<nat>, base: nat) {
    forall i :: 0 <= i < |vals| ==> vals[i] < base
  }

  /** The number with the given digits. */
  function Number(vals: seq<nat>, base: nat): nat {
    if vals == [] then 0 else Number(vals[..|vals| - 1], base) * base + vals[|vals| - 1]
  }

  function Digits(n: nat, base: nat, k: nat): (d: seq<nat>)
    requires base >= 1
    ensures |d| == k
  {
    if k == 0 then [] else Digits(n / base, base, k - 1) + [n % base]
  }

  lemma NumberStep(n: nat, p: nat, base: nat, d: nat)
    requires n < p && d < base
    ensures n * base + d < p * base
  {
    MulStep(n, p, base);
  }

  lemma {:induction false} NumberBelow(vals: seq<nat>, base: nat)
    requires base >= 1 && Below(vals, base)
    ensures Number(vals, base) < Power(base, |vals|)
  {
    if vals != [] {
      var init := vals[..|vals| - 1];
      NumberBelow(init, base);
      NumberStep(Number(init, base), Power(base, |init|), base, vals[|vals| - 1]);
    }
  }

  lemma {:induction false} DigitsOfNumber(vals: seq<nat>, base: nat)
    requires base >= 1 && Below(vals, base)
    ensures Digits(Number(vals, base), base, |vals|) == vals
  {
    if vals != [] {
      var init, last := vals[..|vals| - 1], vals[|vals| - 1];
      DigitsOfNumber(init, base);
      DivMod(Number(init, base), last, base);
    }
  }

  function GroupSize(n: nat, p: Packing): nat {
    if n < p.group then n else p.group
  }

  function Pack(vals: seq<nat>, p: Packing): seq<bool>
    requires p.group >= 1 && |p.widths| == p.group + 1
  {
    if vals == [] then []
    else
      var g := GroupSize(|vals|, p);
      Bits(Number(vals[..g], p.base), p.widths[g]) + Pack(vals[g..], p)
  }

  /** Reads `count` values and returns them with the bits that follow. */
  function Unpack(bits: seq<bool>, count: nat, p: Packing): Option<(seq<nat>, seq<bool>)>
    requires p.group >= 1 && p.base >= 1 && |p.widths| == p.group + 1
    decreases count
  {
    if count == 0 then Some(([], bits))
    else
      var g := GroupSize(count, p);
      var w := p.widths[g];
      if |bits| < w then None
      else
        match Unpack(bits[w..], count - g, p)
        case None => None
        case Some(r) => Some((Digits(Value(bits[..w]), p.base, g) + r.0, r.1))
  }

  /** One field gives back its group. */
  lemma GroupField(vals: seq<nat>, p: Packing)
    requires ValidPacking(p) && Below(vals, p.base) && |vals| <= p.group
    ensures Digits(Value(Bits(Number(vals, p.base), p.widths[|vals|])), p.base, |vals|) == vals
  {
    NumberBelow(vals, p.base);
    ValueOfBits(Number(vals, p.base), p.widths[|vals|]);
    DigitsOfNumber(vals, p.base);
  }

  lemma UnpackFirst(bits: seq<bool>, count: nat, p: Packing, field: seq<bool>, more: seq<bool>)
    requires p.group >= 1 && p.base >= 1 && |p.widths| == p.group + 1 && count > 0
    requires |field| == p.widths[GroupSize(count, p)] && bits == field + more
    ensures var g := GroupSize(count, p);
            Unpack(bits, count, p) ==
            match Unpack(more, count - g, p)
            case None => None
            case Some(r) => Some((Digits(Value(field), p.base, g) + r.0, r.1))
  {
    hide Value, Digits;
    assert bits[..|field|] == field && bits[|field|..] == more;
  }

  lemma {:induction false} UnpackPack(vals: seq<nat>, p: Packing, rest: seq<bool>)
    requires ValidPacking(p) && Below(vals, p.base)
    ensures Unpack(Pack(vals, p) + rest, |vals|, p) == Some((vals, rest))
    decreases |vals|
  {
    hide Bits, Value, Number, Digits, Power, Pow2;
    if vals == [] {
      assert Pack(vals, p) + rest == rest;
    } else {
      var g := GroupSize(|vals|, p);
      var field, tail := Bits(Number(vals[..g], p.base), p.widths[g]), vals[g..];
      assert Pack(vals, p) + rest == field + (Pack(tail, p) + rest);
      hide Pack, Unpack;
      GroupField(vals[..g], p);
      UnpackPack(tail, p, rest);
      UnpackFirst(Pack(vals, p) + rest, |vals|, p, field, Pack(tail, p) + rest);
      assert vals == vals[..g] + tail;
    }
  }

  /** Whole groups can be packed first. */
  lemma {:induction false} PackAppend(a: seq<nat>, b: seq<nat>, p: Packing)
    requires p.group >= 1 && |p.widths| == p.group + 1 && |a| % p.group == 0
    ensures Pack(a + b, p) == Pack(a, p) + Pack(b, p)
    decreases |a|
  {
    if a == [] {
      assert a + b == b;
    } else {
      WholeGroup(|a|, p.group);
      var g := p.group;
      assert (a + b)[..g] == a[..g] && (a + b)[g..] == a[g..] + b;
      PackAppend(a[g..], b, p);
    }
  }

  lemma WholeGroup(n: nat, g: nat)
    requires g >= 1 && n > 0 && n % g == 0
    ensures n >= g && (n - g) % g == 0
  {
    if n < g {
      DivMod(0, n, g);
    } else {
      var q := n / g;
      assert q >= 1;
      assert n - g == (q - 1) * g + 0;
      DivMod(q - 1, 0, g);
    }
  }

  /** Numeric payloads take 10 bits per 3 digits and 4 or 7 bits for a rest of 1 or 2. */
  lemma {:induction false} DigitsLength(vals: seq<nat>)
    ensures |Pack(vals, DIGITS)| == 10 * (|vals| / 3) + [0, 4, 7][|vals| % 3]
    decreases |vals|
  {
    if |vals| >= 3 {
      DigitsLength(vals[3..]);
    }
  }

  /** Alphanumeric payloads take 11 bits per pair and 6 bits for a single character. */
  lemma {:induction false} PairsLength(vals: seq<nat>)
    ensures |Pack(vals, PAIRS)| == 11 * (|vals| / 2) + 6 * (|vals| % 2)
    decreases |vals|
  {
    if |vals| >= 2 {
      PairsLength(vals[2..]);
    }
  }

  /*---- Contents and their segments ----*/

  const DIGIT_CHARS: string := "0123456789"
  const LETTERS: string := "ABCDEFGHIJKLMNOPQRSTUVWXYZ"
  const SIGNS: string := " $%*+-./:"
  const CHARSET: string := DIGIT_CHARS + LETTERS + SIGNS

  /** Fields hold decimal numbers of up to three digits, and pairs as numbers to the base 45. */
  lemma FieldValues(a: nat, b: nat, c: nat)
    ensures Pack([a, b, c], DIGITS) == Bits(100 * a + 10 * b + c, 10)
    ensures Pack([a, b], DIGITS) == Bits(10 * a + b, 7) && Pack([a], DIGITS) == Bits(a, 4)
    ensures Pack([a, b], PAIRS) == Bits(45 * a + b, 11) && Pack([a], PAIRS) == Bits(a, 6)
  {
    hide Bits, Pack, Number;
    PackGroup([a, b, c], DIGITS);
    PackGroup([a, b], DIGITS);
    PackGroup([a], DIGITS);
    PackGroup([a, b], PAIRS);
    PackGroup([a], PAIRS);
    NumberEmpty(10);
    NumberEmpty(45);
    NumberAppend([], a, 10);
    NumberAppend([a], b, 10);
    NumberAppend([a, b], c, 10);
    NumberAppend([], a, 45);
    NumberAppend([a], b, 45);
    assert [a] + [b] == [a, b] && [a, b] + [c] == [a, b, c] && [] + [a] == [a];
  }

  /** What a segment says.  Kanji segments have no factory function. */
  datatype Content =
    | Digital(digits: string)
    | Text(text: string)
    | Binary(data: seq<byte>)
    | Designator(assignment: nat)

  predicate IsDigit(c: char) {
    '0' <= c <= '9'
  }

  predicate IsNumeric(text: string) {
    forall i :: 0 <= i < |text| ==> IsDigit(text[i])
  }

  predicate InCharset(c: char) {
    c in CHARSET
  }

  predicate IsAlphanumeric(text: string) {
    forall i :: 0 <= i < |text| ==> InCharset(text[i])
  }

  predicate Encodable(c: Content) {
    match c
    case Digital(s) => IsNumeric(s)
    case Text(s) => IsAlphanumeric(s)
    case Binary(data) => |data| <= INT_MAX
    case Designator(v) => v < 1000000
  }

  function DigitValues(s: string): (v: seq<nat>)
    requires IsNumeric(s)
    ensures |v| == |s|
  {
    seq(|s|, i requires 0 <= i < |s| => s[i] as int - '0' as int)
  }

  /** The index of the first occurrence (strchr). */
  function CharIndex(c: char, s: string): (i: nat)
    requires c in s
    ensures i < |s| && s[i] == c && c !in s[..i]
  {
    if s[0] == c then 0 else 1 + CharIndex(c, s[1..])
  }

  function CharValue(c: char): (v: nat)
    requires InCharset(c)
    ensures v < 45 && CHARSET[v] == c
  {
    CharIndex(c, CHARSET)
  }

  function CharValues(s: string): (v: seq<nat>)
    requires IsAlphanumeric(s)
    ensures |v| == |s|
  {
    seq(|s|, i requires 0 <= i < |s| => CharValue(s[i]))
  }

  function EciBits(v: nat): seq<bool> {
    if v < 128 then Bits(v, 8)
    else if v < 16384 then Bits(2, 2) + Bits(v, 14)
    else Bits(6, 3) + Bits(v, 21)
  }

  /** A designator takes one, two or three bytes, as few as its seven, fourteen or more bits need. */
  lemma EciLength(v: nat)
    requires v < 1000000
    ensures |EciBits(v)| == if v <= 127 then 8 else if v <= 16383 then 16 else 24
  {
  }

  /** Digits are the first ten characters of the alphanumeric set. */
  lemma DigitIs(c: char)
    ensures IsDigit(c) <==> c in "0123456789"
    ensures IsDigit(c) ==> InCharset(c)
  {
    assert "0123456789" == DIGIT_CHARS;
    if IsDigit(c) {
      var k := c as int - '0' as int;
      assert DIGIT_CHARS[k] == c;
      assert CHARSET[k] == c;
    }
  }

  function ModeOf(c: Content): Mode {
    match c
    case Digital(_) => Numeric
    case Text(_) => Alphanumeric
    case Binary(_) => Bytes
    case Designator(_) => Eci
  }

  function CountOf(c: Content): nat {
    match c
    case Digital(s) => |s|
    case Text(s) => |s|
    case Binary(data) => |data|
    case Designator(_) => 0
  }

  function Payload(c: Content): seq<bool>
    requires Encodable(c)
  {
    match c
    case Digital(s) => Pack(DigitValues(s), DIGITS)
    case Text(s) => Pack(CharValues(s), PAIRS)
    case Binary(data) => ByteBits(data)
    case Designator(v) => EciBits(v)
  }

  /** The segment that the factory function for this kind of content makes. */
  function SegmentOf(c: Content): Segment
    requires Encodable(c)
  {
    Segment(ModeOf(c), CountOf(c), Payload(c))
  }

  /*---- The factory functions ----*/

  lemma OneByte(b: byte)
    ensures ByteBits([b]) == Bits(b, 8) && ByteBits([]) == []
  {
    assert ByteBits([b]) == Bits(b, 8) + ByteBits([b][1..]);
  }

  /** makeBytes */
  method MakeBytes(data: seq<byte>) returns (r: Result<Segment>)
    ensures r == if |data| <= INT_MAX then Ok(SegmentOf(Binary(data))) else Err(LengthError)
  {
    if |data| > INT_MAX {
      return Err(LengthError);
    }
    hide Bits, ByteBits;
    assert Pow2(8) == 256;
    var bb := new BitBuffer();
    OneByte(0);
    for i := 0 to |data|
      invariant bb.bits == ByteBits(data[..i])
    {
      OneByte(data[i]);
      var ok := bb.AppendBits(data[i], 8);
      assert ok;
      assert data[..i + 1] == data[..i] + [data[i]];
      ByteBitsAppend(data[..i], [data[i]]);
    }
    assert data[..|data|] == data;
    return Ok(Segment(Bytes, |data|, bb.bits));
  }

  /** The state of the packing loops: whole groups are in the buffer, the rest is accumulated. */
  ghost predicate Progress(vals: seq<nat>, p: Packing, bits: seq<bool>, accum: nat, count: nat)
    requires p.group >= 1 && |p.widths| == p.group + 1
  {
    && count < p.group && count <= |vals| && (|vals| - count) % p.group == 0
    && Below(vals, p.base)
    && bits == Pack(vals[..|vals| - count], p)
    && accum == Number(vals[|vals| - count..], p.base)
  }

  /** One more value: it fits its field, and a full group moves to the buffer. */
  lemma Advance(vals: seq<nat>, v: nat, p: Packing, bits: seq<bool>, accum: nat, count: nat)
    requires ValidPacking(p) && v < p.base && Progress(vals, p, bits, accum, count)
    ensures accum * p.base + v < Pow2(p.widths[count + 1])
    ensures count + 1 < p.group ==> Progress(vals + [v], p, bits, accum * p.base + v, count + 1)
    ensures count + 1 == p.group ==>
              Progress(vals + [v], p, bits + Bits(accum * p.base + v, p.widths[p.group]), 0, 0)
  {
    hide Bits, Number, Power, Pow2, Pack;
    var whole, part := vals[..|vals| - count], vals[|vals| - count..] + [v];
    NumberAppend(vals[|vals| - count..], v, p.base);
    NumberBelow(part, p.base);
    assert vals + [v] == whole + part;
    if count + 1 == p.group {
      PackAppend(whole, part, p);
      PackGroup(part, p);
      AddGroup(|whole|, p.group);
      assert (vals + [v])[..|vals| + 1] == vals + [v];
      assert (vals + [v])[|vals| + 1..] == [];
      NumberEmpty(p.base);
    } else {
      assert (vals + [v])[..|whole|] == whole;
      assert (vals + [v])[|whole|..] == part;
    }
  }

  lemma NumberEmpty(base: nat)
    ensures Number([], base) == 0
  {
  }

  lemma NumberAppend(vals: seq<nat>, v: nat, base: nat)
    ensures Number(vals + [v], base) == Number(vals, base) * base + v
  {
    assert (vals + [v])[..|vals|] == vals;
  }

  lemma PackGroup(part: seq<nat>, p: Packing)
    requires p.group >= 1 && |p.widths| == p.group + 1 && 1 <= |part| <= p.group
    ensures Pack(part, p) == Bits(Number(part, p.base), p.widths[|part|])
  {
    assert part[..|part|] == part && Pack(part[|part|..], p) == [];
  }

  lemma AddGroup(n: nat, g: nat)
    requires g >= 1 && n % g == 0
    ensures (n + g) % g == 0
  {
    assert n + g == (n / g + 1) * g + 0;
    DivMod(n / g + 1, 0, g);
  }

  /** What is left at the end fits its field and completes the payload. */
  lemma Finish(vals: seq<nat>, p: Packing, bits: seq<bool>, accum: nat, count: nat)
    requires ValidPacking(p) && Progress(vals, p, bits, accum, count)
    ensures accum < Pow2(p.widths[count])
    ensures Pack(vals, p) == if count == 0 then bits else bits + Bits(accum, p.widths[count])
  {
    var whole, part := vals[..|vals| - count], vals[|vals| - count..];
    assert vals == whole + part;
    NumberBelow(part, p.base);
    PackAppend(whole, part, p);
    if count > 0 {
      PackGroup(part, p);
    }
  }

  lemma DigitAppend(s: string, c: char)
    requires IsNumeric(s) && IsDigit(c)
    ensures IsNumeric(s + [c])
    ensures DigitValues(s + [c]) == DigitValues(s) + [c as int - '0' as int]
  {
  }

  lemma CharAppend(s: string, c: char)
    requires IsAlphanumeric(s) && InCharset(c)
    ensures IsAlphanumeric(s + [c])
    ensures CharValues(s + [c]) == CharValues(s) + [CharValue(c)]
  {
    hide InCharset, CharValue;
  }

  /** makeNumeric */
  method MakeNumeric(digits: string) returns (r: Result<Segment>)
    ensures r == if IsNumeric(digits) then Ok(SegmentOf(Digital(digits))) else Err(DomainError)
  {
    hide Bits, Pack, Number, Progress, ValidPacking, DigitValues;
    PackingsValid();
    assert Pow2(4) == 16 && Pow2(7) == 128 && Pow2(10) == 1024;
    var bb := new BitBuffer();
    var accumData: nat, accumCount := 0, 0;
    Start(DIGITS);
    for i := 0 to |digits|
      invariant accumCount < 3
      invariant IsNumeric(digits[..i])
      invariant Progress(DigitValues(digits[..i]), DIGITS, bb.bits, accumData, accumCount)
    {
      var c := digits[i];
      if c < '0' || c > '9' {
        return Err(DomainError);
      }
      var d: nat := c as int - '0' as int;
      DigitAppend(digits[..i], c);
      assert digits[..i + 1] == digits[..i] + [c];
      Advance(DigitValues(digits[..i]), d, DIGITS, bb.bits, accumData, accumCount);
      accumData := accumData * 10 + d;
      accumCount := accumCount + 1;
      if accumCount == 3 {
        var ok := bb.AppendBits(accumData, 10);
        assert ok;
        accumData := 0;
        accumCount := 0;
      }
    }
    assert digits[..|digits|] == digits;
    Finish(DigitValues(digits), DIGITS, bb.bits, accumData, accumCount);
    if accumCount > 0 {
      var ok := bb.AppendBits(accumData, accumCount * 3 + 1);
      assert ok;
    }
    return Ok(Segment(Numeric, |digits|, bb.bits));
  }

  /** makeAlphanumeric */
  method MakeAlphanumeric(text: string) returns (r: Result<Segment>)
    ensures r == if IsAlphanumeric(text) then Ok(SegmentOf(Text(text))) else Err(DomainError)
  {
    hide Bits, Pack, Number, Progress, ValidPacking, CharValues, InCharset, CharValue;
    PackingsValid();
    assert Pow2(6) == 64 && Pow2(11) == 2048;
    var bb := new BitBuffer();
    var accumData: nat, accumCount := 0, 0;
    Start(PAIRS);
    for i := 0 to |text|
      invariant accumCount < 2
      invariant IsAlphanumeric(text[..i])
      invariant Progress(CharValues(text[..i]), PAIRS, bb.bits, accumData, accumCount)
    {
      var c := text[i];
      if !InCharset(c) {
        return Err(DomainError);
      }
      var v := CharValue(c);
      CharAppend(text[..i], c);
      assert text[..i + 1] == text[..i] + [c];
      Advance(CharValues(text[..i]), v, PAIRS, bb.bits, accumData, accumCount);
      accumData := accumData * 45 + v;
      accumCount := accumCount + 1;
      if accumCount == 2 {
        var ok := bb.AppendBits(accumData, 11);
        assert ok;
        accumData := 0;
        accumCount := 0;
      }
    }
    assert text[..|text|] == text;
    Finish(CharValues(text), PAIRS, bb.bits, accumData, accumCount);
    if accumCount > 0 {
      var ok := bb.AppendBits(accumData, 6);
      assert ok;
    }
    return Ok(Segment(Alphanumeric, |text|, bb.bits));
  }

  /** makeEci */
  method MakeEci(assignVal: int) returns (r: Result<Segment>)
    ensures r == if 0 <= assignVal < 1000000 then Ok(SegmentOf(Designator(assignVal))) else Err(DomainError)
  {
    hide Bits;
    assert Pow2(8) == 256 && Pow2(14) == 16384 && Pow2(21) == 2097152 && Pow2(2) == 4 && Pow2(3) == 8;
    var bb := new BitBuffer();
    var ok;
    if assignVal < 0 {
      return Err(DomainError);
    } else if assignVal < 128 {
      ok := bb.AppendBits(assignVal, 8);
    } else if assignVal < 16384 {
      ok := bb.AppendBits(2, 2);
      ok := bb.AppendBits(assignVal, 14);
    } else if assignVal < 1000000 {
      ok := bb.AppendBits(6, 3);
      ok := bb.AppendBits(assignVal, 21);
    } else {
      return Err(DomainError);
    }
    assert ok && bb.bits == EciBits(assignVal);
    return Ok(Segment(Eci, 0, bb.bits));
  }

  type cstring = s: string | forall i :: 0 <= i < |s| ==> 0 < s[i] as int < 256

  function CharBytes(text: cstring): (b: seq<byte>)
    ensures |b| == |text|
  {
    seq(|text|, i requires 0 <= i < |text| => text[i] as int)
  }

  /** The content that makeSegments chooses for a text. */
  function ContentsOf(text: cstring): seq<Content> {
    if text == "" then []
    else if IsNumeric(text) then [Digital(text)]
    else if IsAlphanumeric(text) then [Text(text)]
    else [Binary(CharBytes(text))]
  }

  /** The text that a list of contents spells; designators spell nothing. */
  function TextOf(contents: seq<Content>): string {
    if contents == [] then ""
    else
      (match contents[0]
       case Digital(s) => s
       case Text(s) => s
       case Binary(data) => seq(|data|, i requires 0 <= i < |data| => data[i] as char)
       case Designator(_) => "")
      + TextOf(contents[1..])
  }

  /** makeSegments loses nothing of the text. */
  lemma TextOfContents(text: cstring)
    ensures TextOf(ContentsOf(text)) == text
  {
    if text != "" {
      assert TextOf(ContentsOf(text)[1..]) == "";
    }
  }

  lemma Start(p: Packing)
    requires p.group >= 1 && |p.widths| == p.group + 1
    ensures Progress([], p, [], 0, 0)
  {
    DivMod(0, 0, p.group);
  }
}
